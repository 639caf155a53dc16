/** The part of the C++ object model that hand-managed storage depends on: which objects are alive,
    which have been destroyed, and at which points a constructor or an assignment throws. */
module Lifetimes {

  /** A member of a union: raw bytes, or a living object with an identity and a value. */
  datatype Slot<+T> = Raw | Alive(id: nat, value: T)

  /** A local variable, which is no member of anything. */
  datatype Local<+T> = Gone | Local(id: nat, value: T)

  /** A value or an error: what an `expected` object denotes. */
  datatype Sum<+V, +E> = Val(v: V) | Err(e: E)

  /** What the type traits of a member type say, and what its operations leave behind.
      `residue(x)` is the value of an object that held x and was moved from;
      `torn(x, y)` is the value of an object that held x when an assignment of y to it threw. */
  datatype Traits<!T> = Traits(
    nothrowMove: bool,
    nothrowCopy: bool,
    nothrowMoveAssign: bool,
    nothrowCopyAssign: bool,
    nothrowSwap: bool,
    assignable: bool,
    residue: T -> T,
    torn: (T, T) -> T)
  {
    predicate Nothrow(move: bool) {
      if move then nothrowMove else nothrowCopy
    }

    predicate NothrowAssign(move: bool) {
      if move then nothrowMoveAssign else nothrowCopyAssign
    }
  }

  /** The ledger: identities 0 .. born-1 have been constructed. */
  datatype Book = Book(born: nat, alive: set<nat>, deaths: multiset<nat>) {

    /** Every object ever constructed is either alive or has been destroyed exactly once. */
    ghost predicate Sound() {
      && (forall i :: i in alive ==> i < born)
      && (forall i: nat :: Accounted(i))
    }

    ghost predicate Accounted(i: nat) {
      deaths[i] == if i < born && i !in alive then 1 else 0
    }

    function Birth(): Book {
      Book(born + 1, alive + {born}, deaths)
    }

    function Death(id: nat): Book {
      Book(born, alive - {id}, deaths + multiset{id})
    }

    lemma BirthIsSound()
      requires Sound()
      ensures Birth().Sound()
    {
      forall i: nat ensures Birth().Accounted(i) {
        assert Accounted(i);
      }
    }

    lemma DeathIsSound(id: nat)
      requires Sound() && id in alive
      ensures Death(id).Sound()
    {
      forall i: nat ensures Death(id).Accounted(i) {
        assert Accounted(i);
      }
    }
  }

  /** From `before` to `after`, the objects `out` have been replaced by the objects `into`; whatever
      else was constructed in between is destroyed again. */
  ghost predicate Settled(before: Book, after: Book, out: set<nat>, into: set<nat>) {
    && before.born <= after.born
    && (forall i :: i in after.alive <==> i in into || (i in before.alive && i !in out))
    && (forall i :: i in into ==> i in out || before.born <= i < after.born)
  }

  /** Who holds which living object: nobody shares one, and nothing else is alive. */
  ghost predicate Partition(book: Book, held: seq<set<nat>>) {
    && (forall k :: 0 <= k < |held| ==> held[k] <= book.alive)
    && (forall k, l :: 0 <= k < l < |held| ==> held[k] !! held[l])
    && (forall id :: id in book.alive ==> exists k :: 0 <= k < |held| && id in held[k])
  }

  /** Replacing the objects of two holders (or of one, named twice) keeps the partition. */
  lemma SettledKeepsPartition(before: Book, after: Book, held: seq<set<nat>>, held': seq<set<nat>>, i: nat, j: nat)
    requires before.Sound() && Partition(before, held) && |held'| == |held| && i < |held| && j < |held|
    requires forall k :: 0 <= k < |held| && k != i && k != j ==> held'[k] == held[k]
    requires i != j ==> held'[i] !! held'[j]
    requires Settled(before, after, held[i] + held[j], held'[i] + held'[j])
    ensures Partition(after, held')
  {
    forall k, l | 0 <= k < l < |held'|
      ensures held'[k] !! held'[l]
    {
      NewcomersAreNew(before, after, held, held', i, j, k);
      NewcomersAreNew(before, after, held, held', i, j, l);
    }
    forall id | id in after.alive
      ensures exists k :: 0 <= k < |held'| && id in held'[k]
    {
      if id in held'[i] {
      } else if id in held'[j] {
      } else {
        var k :| 0 <= k < |held| && id in held[k];
        assert id in held'[k];
      }
    }
  }

  lemma NewcomersAreNew(before: Book, after: Book, held: seq<set<nat>>, held': seq<set<nat>>, i: nat, j: nat, k: nat)
    requires before.Sound() && Partition(before, held) && |held'| == |held| && i < |held| && j < |held| && k < |held|
    requires k != i && k != j ==> held'[k] == held[k]
    requires Settled(before, after, held[i] + held[j], held'[i] + held'[j])
    ensures k != i && k != j ==> held'[k] !! held'[i] && held'[k] !! held'[j]
  {
    if k != i && k != j {
      assert held[k] !! held[i] && held[k] !! held[j];
      forall id | id in held[k]
        ensures id !in held'[i] && id !in held'[j]
      {
        assert id in before.alive && id < before.born;
      }
    }
  }

  lemma PartitionWithNothing(book: Book, held: seq<set<nat>>)
    requires Partition(book, held)
    ensures Partition(book, held + [{}])
  {
    forall id | id in book.alive
      ensures exists k :: 0 <= k < |held + [{}]| && id in (held + [{}])[k]
    {
      var k :| 0 <= k < |held| && id in held[k];
      assert (held + [{}])[k] == held[k];
    }
  }

  /** When the last object is gone, each one has been destroyed exactly once, and the ledger shows it. */
  lemma OnceEach(before: Book, after: Book)
    requires before.Sound() && after.Sound() && after.alive == {} && after.born == before.born
    ensures forall id: nat :: after.deaths[id] == if id < after.born then 1 else 0
    ensures after.deaths == before.deaths + multiset(before.alive)
  {
    forall id: nat
      ensures after.deaths[id] == if id < after.born then 1 else 0
      ensures after.deaths[id] == (before.deaths + multiset(before.alive))[id]
    {
      assert before.Accounted(id) && after.Accounted(id);
    }
  }

  /** How an operation ends: whether it throws, how many operations that may throw it has run by then,
      and how many objects it has constructed, temporaries included. */
  datatype Fate = Fate(threw: bool, ticks: nat, births: nat)

  /** How many of the n operations from the given clock on the schedule makes throw if they can. */
  function FaultsIn(faults: nat -> bool, clock: nat, n: nat): nat {
    if n == 0 then 0 else FaultsIn(faults, clock, n - 1) + if faults(clock + n - 1) then 1 else 0
  }

  lemma {:induction false} FaultsAdd(faults: nat -> bool, clock: nat, m: nat, n: nat)
    ensures FaultsIn(faults, clock, m + n) == FaultsIn(faults, clock, m) + FaultsIn(faults, clock + m, n)
  {
    if n > 0 {
      FaultsAdd(faults, clock, m, n - 1);
    }
  }

  /** If so far every throw had a fault to itself and the next one has, then so do all of them. */
  lemma FaultsCover(faults: nat -> bool, start: nat, clock: nat, ticks: nat, throws: nat, threw: bool)
    requires start <= clock && throws <= FaultsIn(faults, start, clock - start)
    requires threw ==> FaultsIn(faults, clock, ticks) > 0
    ensures throws + (if threw then 1 else 0) <= FaultsIn(faults, start, clock + ticks - start)
  {
    FaultsAdd(faults, start, clock - start, ticks);
  }

  /** A single construction. */
  function ConstructFate(nothrow: bool, faults: nat -> bool, clock: nat): Fate {
    if !nothrow && faults(clock) then Fate(true, 1, 0) else Fate(false, 1, 1)
  }

  /** One schedule of throws, one ledger, and the traits of the two member types. The n-th operation
      that may throw does so iff `faults(n)`, unless it is declared not to. */
  class Runtime<V, E> {
    const vt: Traits<V>
    const et: Traits<E>
    const faults: nat -> bool
    var clock: nat
    var book: Book

    constructor (vt: Traits<V>, et: Traits<E>, faults: nat -> bool)
      ensures this.vt == vt && this.et == et && this.faults == faults
      ensures clock == 0 && book == Book(0, {}, multiset{}) && Valid()
    {
      this.vt, this.et, this.faults := vt, et, faults;
      clock, book := 0, Book(0, {}, multiset{});
    }

    ghost predicate Valid()
      reads this
    {
      book.Sound()
    }

    /** A schedule in which nothing throws. */
    ghost predicate Calm() {
      forall n :: !faults(n)
    }

    /** Since the old state, an operation of this fate has been run. */
    twostate predicate Ran(threw: bool, f: Fate)
      reads this
    {
      && threw == f.threw
      && clock == old(clock) + f.ticks
      && book.born == old(book.born) + f.births
    }

    method Attempt(nothrow: bool) returns (ok: bool)
      modifies this`clock
      ensures clock == old(clock) + 1
      ensures ok <==> nothrow || !faults(old(clock))
    {
      ok := nothrow || !faults(clock);
      clock := clock + 1;
    }

    /** Runs a constructor: a new object, or a throw. */
    method Enter(nothrow: bool) returns (ok: bool)
      requires Valid()
      modifies this
      ensures Valid() && clock == old(clock) + 1
      ensures ok <==> nothrow || !faults(old(clock))
      ensures book == if ok then old(book).Birth() else old(book)
    {
      ok := Attempt(nothrow);
      if ok {
        book.BirthIsSound();
        book := book.Birth();
      }
    }

    /** Constructs a local variable holding v, or throws. */
    method Construct<T>(v: T, nothrow: bool) returns (s: Local<T>)
      requires Valid()
      modifies this
      ensures Valid() && clock == old(clock) + 1
      ensures s.Local? <==> nothrow || !faults(old(clock))
      ensures book == if s.Local? then old(book).Birth() else old(book)
      ensures s.Local? ==> s == Local(old(book.born), v)
    {
      var id := book.born;
      var ok := Enter(nothrow);
      s := if ok then Local(id, v) else Gone;
    }

    /** `construct_at` on a union member: no member of the union may be alive at that moment. */
    method ConstructAt<T, U>(here: Slot<T>, sibling: Slot<U>, v: T, nothrow: bool) returns (s: Slot<T>)
      requires Valid() && here.Raw? && sibling.Raw?
      modifies this
      ensures Valid() && clock == old(clock) + 1
      ensures s.Alive? <==> nothrow || !faults(old(clock))
      ensures book == if s.Alive? then old(book).Birth() else old(book)
      ensures s.Alive? ==> s == Alive(old(book.born), v)
    {
      var id := book.born;
      var ok := Enter(nothrow);
      s := if ok then Alive(id, v) else Raw;
    }

    /** Runs a destructor; the object must be alive, so nothing is destroyed twice. */
    method Destroy<T>(s: Slot<T>) returns (raw: Slot<T>)
      requires Valid() && s.Alive? && s.id in book.alive
      modifies this`book
      ensures Valid() && raw == Raw && book == old(book).Death(s.id)
    {
      book.DeathIsSound(s.id);
      book := book.Death(s.id);
      raw := Raw;
    }

    /** Ends the scope of a local variable. */
    method Discard<T>(s: Local<T>)
      requires Valid() && s.Local? && s.id in book.alive
      modifies this`book
      ensures Valid() && book == old(book).Death(s.id)
    {
      book.DeathIsSound(s.id);
      book := book.Death(s.id);
    }

    /** Assigns w to a living object: it holds w afterwards, or a torn value after a throw. */
    method Assign<T>(t: Traits<T>, s: Slot<T>, w: T, nothrow: bool) returns (ok: bool, s': Slot<T>)
      requires s.Alive? && s.id in book.alive
      modifies this`clock
      ensures clock == old(clock) + 1
      ensures ok <==> nothrow || !faults(old(clock))
      ensures s' == s.(value := if ok then w else t.torn(s.value, w))
    {
      ok := Attempt(nothrow);
      s' := s.(value := if ok then w else t.torn(s.value, w));
    }
  }
}
