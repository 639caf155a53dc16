/** The reference-counted block behind `exception_shared_string` (Exception.cc), as a transition system
    over its atomic steps. There is a single atomic location, so its operations are taken in one total
    order, which relaxed atomics guarantee for one location; a step of the system is one of them. */
module SharedString {

  /** The counter is a `std::size_t` of 64 bits. */
  const WORD: nat := 0x1_0000_0000_0000_0000

  type Handle = nat

  /** Where the block is: allocated with some number of bytes and holding the characters copied in, or given
      back. */
  datatype Block = Allocated(bytes: nat, payload: seq<char>) | Released

  /** Every handle ever made is in one of four phases:
      live: constructed, destructor not started;
      loaded: its destructor loaded a non-zero count and has not yet decremented it;
      doomed: its destructor is committed to `operator delete`;
      gone: its destructor has returned.
      `fault` records an access to released memory, copying past the end of the allocation, or a delete
      with another size than that of the allocation; `deletes` the sizes given to `operator delete`. */
  datatype System = System(
    size: nat,
    refs: nat,
    live: set<Handle>,
    loaded: set<Handle>,
    doomed: set<Handle>,
    gone: set<Handle>,
    block: Block,
    deletes: seq<nat>,
    fault: bool)
  {
    function All(): set<Handle> {
      live + loaded + doomed + gone
    }

    /** The handles that the counter still has to count. */
    function Counted(): nat {
      |live| + |loaded|
    }
  }

  datatype Label =
    | Copy(from: Handle, made: Handle)
    | Load(h: Handle)
    | Sub(h: Handle)
    | Delete(h: Handle)
    | What(h: Handle)
  {
    function Actor(): Handle {
      if Copy? then from else h
    }
  }

  /** The size of a block for len characters: the header, the characters and the terminator. */
  function ObjectSize(header: nat, len: nat): nat {
    header + len + 1
  }

  /** The size of the header, `sizeof(state)`. */
  const HEADER: nat := 16

  /** `make`: the block is filled, from behind the header on, and one handle owns it, with a count of zero. */
  function Make(str: seq<char>, len: nat, first: Handle): System
    requires len < |str|
  {
    var bytes, copied := ObjectSize(HEADER, len), str[..len + 1];
    System(len, 0, {first}, {}, {}, {}, Allocated(bytes, copied), [], HEADER + |copied| > bytes)
  }

  /** Which step a handle may take next. The client rule is part of it: nobody copies from, or reads
      through, a handle whose destructor has started. Memory safety is not. */
  predicate Enabled(s: System, l: Label) {
    match l
    case Copy(from, made) => from in s.live && made !in s.All()
    case Load(h) => h in s.live
    case Sub(h) => h in s.loaded
    case Delete(h) => h in s.doomed
    case What(h) => h in s.live
  }

  /** One atomic step. Each of them touches the block. */
  function Next(s: System, l: Label): System
    requires Enabled(s, l)
  {
    var s := s.(fault := s.fault || s.block.Released?);
    match l
    case Copy(from, made) => s.(refs := (s.refs + 1) % WORD, live := s.live + {made})
    case Load(h) =>
      if s.refs == 0 then s.(live := s.live - {h}, doomed := s.doomed + {h})
      else s.(live := s.live - {h}, loaded := s.loaded + {h})
    case Sub(h) =>
      var s' := s.(refs := (s.refs + WORD - 1) % WORD, loaded := s.loaded - {h});
      if s.refs == 0 then s'.(doomed := s.doomed + {h}) else s'.(gone := s.gone + {h})
    case Delete(h) =>
      var bytes := ObjectSize(HEADER, s.size);
      s.(doomed := s.doomed - {h}, gone := s.gone + {h}, block := Released, deletes := s.deletes + [bytes],
         fault := s.fault || (s.block.Allocated? && s.block.bytes != bytes))
    case What(h) => s
  }

  /** What counts as a fault: any step after the block was given back, and a delete with a wrong size. Once
      there was one, it is not forgotten. */
  lemma FaultIff(s: System, l: Label)
    requires Enabled(s, l)
    ensures Next(s, l).fault
       <==> s.fault || s.block == Released || (l.Delete? && s.block.bytes != HEADER + s.size + 1)
  {
  }

  /** Runs: sequences of enabled steps. */
  predicate Runs(s: System, ls: seq<Label>)
    decreases ls
  {
    ls != [] ==> Enabled(s, ls[0]) && Runs(Next(s, ls[0]), ls[1..])
  }

  function Final(s: System, ls: seq<Label>): System
    requires Runs(s, ls)
    decreases ls
  {
    if ls == [] then s else Final(Next(s, ls[0]), ls[1..])
  }

  /** Never more than `cap` counted handles along a run. */
  predicate Within(s: System, ls: seq<Label>, cap: nat)
    requires Runs(s, ls)
    decreases ls
  {
    && s.Counted() <= cap
    && (ls != [] ==> Within(Next(s, ls[0]), ls[1..], cap))
  }

  /** What every step keeps: until one destructor commits to deletion, the counter is one less than the
      number of counted handles; from then on nobody else is there. */
  ghost predicate Inv(s: System, str: seq<char>, len: nat) {
    && len < |str|
    && s.size == len
    && !s.fault
    && s.live !! s.loaded !! s.doomed !! s.gone
    && match s.block
       case Allocated(bytes, payload) =>
         && payload == str[..len + 1]
         && bytes == HEADER + |payload|
         && s.deletes == []
         && (if s.doomed == {} then 1 <= s.Counted() <= WORD && s.refs == s.Counted() - 1
             else |s.doomed| == 1 && s.Counted() == 0)
       case Released =>
         s.Counted() == 0 && s.doomed == {} && s.deletes == [HEADER + len + 1]
  }

  /** Moving one handle between disjoint phases. */
  lemma Moved(a: set<Handle>, b: set<Handle>, h: Handle)
    requires h in a && h !in b
    ensures |a - {h}| == |a| - 1 && |b + {h}| == |b| + 1
  {
  }

  lemma CopyKeepsInv(s: System, from: Handle, made: Handle, str: seq<char>, len: nat)
    requires Inv(s, str, len) && Enabled(s, Copy(from, made)) && s.Counted() < WORD
    ensures Inv(Next(s, Copy(from, made)), str, len)
  {
    Moved({made}, s.live, made);
    assert s.live != {};
  }

  lemma LoadKeepsInv(s: System, h: Handle, str: seq<char>, len: nat)
    requires Inv(s, str, len) && Enabled(s, Load(h))
    ensures Inv(Next(s, Load(h)), str, len)
  {
    Moved(s.live, s.loaded, h);
    assert s.doomed == {};
    assert |s.doomed + {h}| == 1;
  }

  lemma SubKeepsInv(s: System, h: Handle, str: seq<char>, len: nat)
    requires Inv(s, str, len) && Enabled(s, Sub(h))
    ensures Inv(Next(s, Sub(h)), str, len)
  {
    Moved(s.loaded, s.gone, h);
    assert s.doomed == {};
    assert |s.doomed + {h}| == 1;
    assert (s.refs + WORD - 1) % WORD == if s.refs == 0 then WORD - 1 else s.refs - 1;
  }

  lemma DeleteKeepsInv(s: System, h: Handle, str: seq<char>, len: nat)
    requires Inv(s, str, len) && Enabled(s, Delete(h))
    ensures Inv(Next(s, Delete(h)), str, len)
  {
    Moved(s.doomed, s.gone, h);
    assert s.doomed - {h} == {};
  }

  lemma StepKeepsInv(s: System, l: Label, str: seq<char>, len: nat)
    requires Inv(s, str, len) && Enabled(s, l) && (l.Copy? ==> s.Counted() < WORD)
    ensures Inv(Next(s, l), str, len)
  {
    match l
    case Copy(from, made) => CopyKeepsInv(s, from, made, str, len);
    case Load(h) => LoadKeepsInv(s, h, str, len);
    case Sub(h) => SubKeepsInv(s, h, str, len);
    case Delete(h) => DeleteKeepsInv(s, h, str, len);
    case What(h) =>
      assert s.live != {};
  }

  /** Safety over whole runs: as long as at most 2^64 handles are counted at any time. */
  lemma {:induction false} RunKeepsInv(s: System, ls: seq<Label>, str: seq<char>, len: nat)
    requires Inv(s, str, len) && Runs(s, ls) && Within(s, ls, WORD)
    ensures Inv(Final(s, ls), str, len)
    decreases ls
  {
    if ls != [] {
      StepKeepsInv(s, ls[0], str, len);
      RunKeepsInv(Next(s, ls[0]), ls[1..], str, len);
    }
  }

  lemma MakeEstablishesInv(str: seq<char>, len: nat, first: Handle)
    requires len < |str|
    ensures Inv(Make(str, len, first), str, len)
  {
    assert |{first}| == 1;
  }

  /** No run with at most 2^64 handles at a time ever touches the block after it was given back, writes past
      its end, or gives it back with another size than it was allocated with. */
  lemma RunsAreSafe(str: seq<char>, len: nat, first: Handle, ls: seq<Label>)
    requires len < |str|
    requires var s := Make(str, len, first); Runs(s, ls) && Within(s, ls, WORD)
    ensures !Final(Make(str, len, first), ls).fault
  {
    MakeEstablishesInv(str, len, first);
    RunKeepsInv(Make(str, len, first), ls, str, len);
  }

  predicate Complete(s: System) {
    s.live == {} && s.loaded == {} && s.doomed == {}
  }

  /** The block is deleted exactly when every handle is gone, exactly once, and with the size allocated. */
  lemma DeletedExactlyOnce(str: seq<char>, len: nat, first: Handle, ls: seq<Label>)
    requires len < |str|
    requires var s := Make(str, len, first); Runs(s, ls) && Within(s, ls, WORD)
    ensures var t := Final(Make(str, len, first), ls);
      && (t.block.Released? <==> Complete(t))
      && t.deletes == (if Complete(t) then [HEADER + len + 1] else [])
  {
    MakeEstablishesInv(str, len, first);
    RunKeepsInv(Make(str, len, first), ls, str, len);
    var t := Final(Make(str, len, first), ls);
    if t.block.Released? {
      assert |t.live| == 0 && |t.loaded| == 0;
    }
  }

  /** The characters that a reader of a C string sees. */
  function CString(p: seq<char>): seq<char> {
    if p == [] || p[0] == '\0' then [] else [p[0]] + CString(p[1..])
  }

  lemma {:induction false} CStringOfPrefix(p: seq<char>, n: nat)
    requires n < |p| && p[n] == '\0'
    ensures CString(p[..n + 1]) == CString(p)
  {
    if p[0] != '\0' {
      assert p[..n + 1][1..] == p[1..][..n];
      CStringOfPrefix(p[1..], n - 1);
    }
  }

  /** `what` reads the original string through any live handle, at any time. */
  lemma WhatReadsTheOriginal(str: seq<char>, len: nat, first: Handle, ls: seq<Label>, h: Handle)
    requires len < |str| && str[len] == '\0'
    requires var s := Make(str, len, first); Runs(s, ls) && Within(s, ls, WORD)
    requires Enabled(Final(Make(str, len, first), ls), What(h))
    ensures var t := Final(Make(str, len, first), ls);
            t.block.Allocated? && CString(t.block.payload) == CString(str)
  {
    MakeEstablishesInv(str, len, first);
    RunKeepsInv(Make(str, len, first), ls, str, len);
    CStringOfPrefix(str, len);
  }

  /** How many destructor steps are still to come. */
  function Work(s: System): nat {
    3 * |s.live| + 2 * |s.loaded| + |s.doomed|
  }

  lemma NextDestructorStep(s: System) returns (l: Label)
    requires !Complete(s) && s.live !! s.loaded !! s.doomed !! s.gone
    ensures !l.Copy? && !l.What? && Enabled(s, l)
    ensures Work(Next(s, l)) < Work(s) && Next(s, l).Counted() <= s.Counted()
  {
    if h :| h in s.live {
      l := Load(h);
      Moved(s.live, s.loaded, h);
      Moved(s.live, s.doomed, h);
    } else if h :| h in s.loaded {
      l := Sub(h);
      Moved(s.loaded, s.doomed, h);
    } else {
      var h :| h in s.doomed;
      l := Delete(h);
      Moved(s.doomed, s.gone, h);
    }
  }

  /** From every state of every safe run the remaining destructors can finish, and every destructor step
      brings them closer: no destructor waits for another. */
  lemma {:induction false} CanFinish(s: System, str: seq<char>, len: nat) returns (ls: seq<Label>)
    requires Inv(s, str, len)
    ensures Runs(s, ls) && Within(s, ls, WORD) && |ls| <= Work(s)
    ensures Complete(Final(s, ls)) && Final(s, ls).deletes == [HEADER + len + 1]
    decreases Work(s)
  {
    if Complete(s) {
      ls := [];
    } else {
      var l := NextDestructorStep(s);
      StepKeepsInv(s, l, str, len);
      var rest := CanFinish(Next(s, l), str, len);
      ls := [l] + rest;
    }
  }

  /** Without any bound on the number of handles: the counter is right modulo 2^64 as long as nobody has
      committed to deletion. */
  ghost predicate Modular(s: System) {
    && s.live !! s.loaded !! s.doomed !! s.gone
    && s.block.Allocated? && s.doomed == {} && s.Counted() >= 1
    && s.refs == (s.Counted() - 1) % WORD
  }

  lemma ModularDown(n: nat)
    requires n >= 1
    ensures (n - 1) % WORD == 0 <==> n % WORD == 1
    ensures n % WORD != 1 ==> n >= 2 && ((n - 1) % WORD + WORD - 1) % WORD == (n - 2) % WORD
  {
    var q, r := (n - 1) / WORD, (n - 1) % WORD;
    assert n - 1 == q * WORD + r;
    if r == WORD - 1 {
      assert n == (q + 1) * WORD;
    } else {
      assert n == q * WORD + (r + 1);
    }
    if r > 0 {
      assert n - 2 == q * WORD + (r - 1);
      assert (r + WORD - 1) % WORD == r - 1;
    }
  }

  lemma ModularSuccessor(n: nat)
    ensures (n % WORD + 1) % WORD == (n + 1) % WORD
  {
    var q, r := n / WORD, n % WORD;
    if r == WORD - 1 {
      assert n + 1 == (q + 1) * WORD;
    } else {
      assert n + 1 == q * WORD + (r + 1);
    }
  }

  lemma ModularUp(refs: nat, n: nat)
    ensures ((refs + 1) % WORD + n) % WORD == (refs + 1 + n) % WORD
  {
    var q, r := (refs + 1) / WORD, (refs + 1) % WORD;
    assert refs + 1 + n == q * WORD + (r + n);
  }

  lemma LoadCommitsIff(s: System, h: Handle)
    requires Modular(s) && Enabled(s, Load(h))
    ensures h in Next(s, Load(h)).doomed <==> s.Counted() % WORD == 1
    ensures s.Counted() % WORD != 1 ==> Modular(Next(s, Load(h)))
  {
    ModularDown(s.Counted());
    Moved(s.live, s.loaded, h);
  }

  lemma SubCommitsIff(s: System, h: Handle)
    requires Modular(s) && Enabled(s, Sub(h))
    ensures h in Next(s, Sub(h)).doomed <==> s.Counted() % WORD == 1
    ensures s.Counted() % WORD != 1 ==> Modular(Next(s, Sub(h)))
  {
    ModularDown(s.Counted());
    Moved(s.loaded, s.gone, h);
  }

  lemma MakeIsModular(str: seq<char>, len: nat, first: Handle)
    requires len < |str|
    ensures Modular(Make(str, len, first))
  {
    assert |{first}| == 1;
  }

  /** However many copies are made. */
  lemma CopyKeepsModular(s: System, from: Handle, made: Handle)
    requires Modular(s) && Enabled(s, Copy(from, made))
    ensures Modular(Next(s, Copy(from, made)))
  {
    Moved({made}, s.live, made);
    ModularSuccessor(s.Counted() - 1);
  }

  /** A destructor step commits to deletion exactly when the number of counted handles is 1 modulo 2^64;
      otherwise the counter stays right. */
  lemma CommitsIff(s: System, l: Label)
    requires Modular(s) && Enabled(s, l) && (l.Load? || l.Sub?)
    ensures l.h in Next(s, l).doomed <==> s.Counted() % WORD == 1
    ensures s.Counted() % WORD != 1 ==> Modular(Next(s, l))
  {
    match l
    case Load(h) => LoadCommitsIff(s, h);
    case Sub(h) => SubCommitsIff(s, h);
  }

  lemma {:induction false} Appended(s: System, a: seq<Label>, b: seq<Label>, cap: nat)
    requires Runs(s, a) && Runs(Final(s, a), b) && Within(s, a, cap) && Within(Final(s, a), b, cap)
    ensures Runs(s, a + b) && Final(s, a + b) == Final(Final(s, a), b) && Within(s, a + b, cap)
    decreases a
  {
    if a == [] {
      assert a + b == b;
    } else {
      assert (a + b)[1..] == a[1..] + b;
      Appended(Next(s, a[0]), a[1..], b, cap);
    }
  }

  /** n copies of one handle, made one after the other. */
  function Copies(from: Handle, made: Handle, n: nat): seq<Label>
    decreases n
  {
    if n == 0 then [] else [Copy(from, made)] + Copies(from, made + 1, n - 1)
  }

  /** A state after n copies of `from` were made, beginning with `made`. */
  ghost predicate Copied(s: System, t: System, made: Handle, n: nat) {
    && t == s.(refs := (s.refs + n) % WORD, live := t.live)
    && s.live <= t.live && (n > 0 ==> made in t.live)
    && t.Counted() == s.Counted() + n
  }

  /** Handles from `made` on are new, and `from` can be copied. */
  ghost predicate CanCopy(s: System, from: Handle, made: Handle) {
    from in s.live && s.block.Allocated? && s.refs < WORD && forall h :: h in s.All() ==> h < made
  }

  lemma OneCopy(s: System, from: Handle, made: Handle)
    requires CanCopy(s, from, made)
    ensures Enabled(s, Copy(from, made))
    ensures Copied(s, Next(s, Copy(from, made)), made, 1) && CanCopy(Next(s, Copy(from, made)), from, made + 1)
  {
    assert made !in s.live by {
      assert made in s.live ==> made in s.All();
    }
    Moved({made}, s.live, made);
  }

  lemma CopiedThen(s: System, u: System, t: System, made: Handle, n: nat)
    requires Copied(s, u, made, 1) && Copied(u, t, made + 1, n)
    ensures Copied(s, t, made, n + 1)
  {
    ModularUp(s.refs, n);
  }

  lemma NoCopies(s: System, made: Handle, cap: nat)
    requires s.refs < WORD && s.Counted() <= cap
    ensures Runs(s, []) && Within(s, [], cap) && Copied(s, Final(s, []), made, 0)
  {
    assert s == s.(refs := s.refs % WORD, live := s.live);
  }

  /** A run of n copies of `from`. */
  ghost predicate Copying(s: System, from: Handle, made: Handle, n: nat, cap: nat) {
    var ls := Copies(from, made, n);
    Runs(s, ls) && Within(s, ls, cap) && Copied(s, Final(s, ls), made, n)
  }

  lemma CopyingOneMore(s: System, from: Handle, made: Handle, n: nat, cap: nat)
    requires CanCopy(s, from, made) && s.Counted() <= cap
    requires Enabled(s, Copy(from, made)) && Copied(s, Next(s, Copy(from, made)), made, 1)
    requires Copying(Next(s, Copy(from, made)), from, made + 1, n, cap)
    ensures Copying(s, from, made, n + 1, cap)
  {
    var u := Next(s, Copy(from, made));
    var rest := Copies(from, made + 1, n);
    CopiedThen(s, u, Final(u, rest), made, n);
    RunGoesOn(s, Copy(from, made), rest, cap);
    assert Copies(from, made, n + 1) == [Copy(from, made)] + rest;
  }

  lemma {:induction false} CopiesCount(s: System, from: Handle, made: Handle, n: nat, cap: nat)
    requires CanCopy(s, from, made) && s.Counted() + n <= cap
    ensures Copying(s, from, made, n, cap)
    decreases n
  {
    if n == 0 {
      NoCopies(s, made, cap);
    } else {
      OneCopy(s, from, made);
      CopiesCount(Next(s, Copy(from, made)), from, made + 1, n - 1, cap);
      CopyingOneMore(s, from, made, n - 1, cap);
    }
  }

  /** One handle more than 2^64 is one too many: the counter has come round to zero, the first destructor
      takes itself for the last, and the next access is to released memory. */
  lemma OneHandleTooMany(str: seq<char>, len: nat, first: Handle) returns (ls: seq<Label>)
    requires len < |str|
    ensures var s := Make(str, len, first);
            Runs(s, ls) && Within(s, ls, WORD + 1) && Final(s, ls).fault
  {
    var s := Make(str, len, first);
    assert |{first}| == 1;
    var copies := Copies(first, first + 1, WORD);
    CopiesCount(s, first, first + 1, WORD, WORD + 1);
    var t := Final(s, copies);
    var end := [Load(first), Delete(first), What(first + 1)];
    WrongLast(t, first, first + 1);
    Appended(s, copies, end, WORD + 1);
    ls := copies + end;
  }

  /** With a count of zero, a destructor deletes the block under another handle. */
  lemma WrongLast(t: System, h: Handle, other: Handle)
    requires t.refs == 0 && {h, other} <= t.live && h != other && h !in t.doomed && t.Counted() <= WORD + 1
    ensures var end := [Load(h), Delete(h), What(other)];
            Runs(t, end) && Within(t, end, WORD + 1) && Final(t, end).fault
  {
    Moved(t.live, t.doomed, h);
    var t1 := Next(t, Load(h));
    var t2 := Next(t1, Delete(h));
    var t3 := Next(t2, What(other));
    RunOfOne(t2, What(other), WORD + 1);
    RunGoesOn(t1, Delete(h), [What(other)], WORD + 1);
    assert [Delete(h)] + [What(other)] == [Delete(h), What(other)];
    RunGoesOn(t, Load(h), [Delete(h), What(other)], WORD + 1);
    assert [Load(h)] + [Delete(h), What(other)] == [Load(h), Delete(h), What(other)];
  }

  lemma RunOfOne(s: System, l: Label, cap: nat)
    requires Enabled(s, l) && s.Counted() <= cap && Next(s, l).Counted() <= cap
    ensures Runs(s, [l]) && Final(s, [l]) == Next(s, l) && Within(s, [l], cap)
  {
    assert [l][1..] == [];
    assert Final(Next(s, l), []) == Next(s, l);
  }

  lemma RunGoesOn(s: System, l: Label, ls: seq<Label>, cap: nat)
    requires Enabled(s, l) && s.Counted() <= cap && Runs(Next(s, l), ls) && Within(Next(s, l), ls, cap)
    ensures Runs(s, [l] + ls) && Final(s, [l] + ls) == Final(Next(s, l), ls) && Within(s, [l] + ls, cap)
  {
    assert ([l] + ls)[1..] == ls;
  }

  lemma {:induction false} WithinMore(s: System, ls: seq<Label>, cap: nat, more: nat)
    requires Runs(s, ls) && Within(s, ls, cap) && cap <= more
    ensures Within(s, ls, more)
    decreases ls
  {
    if ls != [] {
      WithinMore(Next(s, ls[0]), ls[1..], cap, more);
    }
  }

  /** The exact capacity of the count: every run with at most `cap` handles at a time is safe if and only
      if cap <= 2^64. */
  lemma CapacityIsExact(str: seq<char>, len: nat, first: Handle, cap: nat)
    requires len < |str|
    ensures (forall ls | Runs(Make(str, len, first), ls) && Within(Make(str, len, first), ls, cap) ::
               !Final(Make(str, len, first), ls).fault)
       <==> cap <= 0x1_0000_0000_0000_0000
  {
    var s := Make(str, len, first);
    if cap <= WORD {
      forall ls | Runs(s, ls) && Within(s, ls, cap)
        ensures !Final(s, ls).fault
      {
        WithinMore(s, ls, cap, WORD);
        RunsAreSafe(str, len, first, ls);
      }
    } else {
      var ls := OneHandleTooMany(str, len, first);
      WithinMore(s, ls, WORD + 1, cap);
    }
  }
}
