/** Whole programs over any number of `hy::expected` objects: every interleaving of the special members,
    assignments and swaps, with throws wherever the schedule puts them. */
module TinyRuns {
  import opened Options
  import opened Lifetimes
  import opened TinyExpected

  datatype Op<V, E> =
    | ConstructValue(i: nat, v: V, nothrow: bool)
    | ConstructError(i: nat, e: E, nothrow: bool)
    | CopyConstruct(i: nat, j: nat)
    | MoveConstruct(i: nat, j: nat)
    | Destruct(i: nat)
    | CopyAssign(i: nat, j: nat)
    | MoveAssign(i: nat, j: nat)
    | AssignValue(i: nat, v: V, nothrowConstruct: bool, nothrowAssign: bool)
    | AssignError(i: nat, e: E, nothrowConstruct: bool, nothrowAssign: bool)
    | Swap(i: nat, j: nat)
  {
    predicate Constructs() {
      ConstructValue? || ConstructError? || CopyConstruct? || MoveConstruct?
    }

    /** Two objects of the same type take part. */
    predicate Binary() {
      CopyConstruct? || MoveConstruct? || CopyAssign? || MoveAssign? || Swap?
    }
  }

  /** What each storage denotes; None where no object has been constructed. */
  type Views<V, E> = seq<Option<Sum<V, E>>>

  /** The type constraints. */
  predicate Legal<V, E>(op: Op<V, E>, vt: Traits<V>, et: Traits<E>) {
    var movable := vt.nothrowMove || et.nothrowMove;
    && (op.CopyAssign? || op.MoveAssign? || op.Swap? ==> movable)
    && (op.AssignValue? || op.AssignError? ==> op.nothrowConstruct || movable)
  }

  /** Which operations a program may perform: constructors need raw storage, the rest need objects,
      and the type constraints of the operation must hold. */
  predicate Ready<V, E>(op: Op<V, E>, vt: Traits<V>, et: Traits<E>, s: Views<V, E>) {
    && Legal(op, vt, et)
    && op.i < |s| && (op.Constructs() <==> s[op.i].None?)
    && (op.Binary() ==> op.j < |s| && s[op.j].Some?)
  }

  /** The sum-type meaning of an operation that returns. */
  function Returned<V, E>(op: Op<V, E>, vt: Traits<V>, et: Traits<E>, s: Views<V, E>): Views<V, E>
    requires Ready(op, vt, et, s)
  {
    match op
    case ConstructValue(i, v, _) => s[i := Some(Val(v))]
    case ConstructError(i, e, _) => s[i := Some(Err(e))]
    case CopyConstruct(i, j) => s[i := s[j]]
    case MoveConstruct(i, j) => s[i := s[j]][j := Some(Spent(vt, et, s[j].value))]
    case Destruct(i) => s[i := None]
    case CopyAssign(i, j) => s[i := s[j]]
    case MoveAssign(i, j) => s[i := s[j]][j := Some(Spent(vt, et, s[j].value))]
    case AssignValue(i, v, _, _) => s[i := Some(Val(v))]
    case AssignError(i, e, _, _) => s[i := Some(Err(e))]
    case Swap(i, j) => s[i := s[j]][j := s[i]]
  }

  /** The meaning of an operation that throws: nothing is constructed, an object whose alternative was
      about to change is as before, and one that was being assigned within its alternative is torn. */
  function Thrown<V, E>(op: Op<V, E>, vt: Traits<V>, et: Traits<E>, s: Views<V, E>): Views<V, E>
    requires Ready(op, vt, et, s)
  {
    match op
    case CopyAssign(i, j) => s[i := Some(Torn(vt, et, s[i].value, s[j].value))]
    case MoveAssign(i, j) => s[i := Some(Torn(vt, et, s[i].value, s[j].value))]
    case AssignValue(i, v, _, _) => s[i := Some(Torn(vt, et, s[i].value, Val(v)))]
    case AssignError(i, e, _, _) => s[i := Some(Torn(vt, et, s[i].value, Err(e)))]
    case Swap(i, j) =>
      s[i := Some(Torn(vt, et, s[i].value, s[j].value))][j := Some(Torn(vt, et, s[j].value, s[i].value))]
    case _ => s
  }

  function Step<V, E>(op: Op<V, E>, threw: bool, vt: Traits<V>, et: Traits<E>, s: Views<V, E>): Views<V, E> {
    if !Ready(op, vt, et, s) then s
    else if threw then Thrown(op, vt, et, s)
    else Returned(op, vt, et, s)
  }

  /** How an operation ends under a schedule of throws: with each operation of a member type that may
      throw, the clock moves on, and it throws if the schedule says so. */
  function FateOf<V, E>(op: Op<V, E>, vt: Traits<V>, et: Traits<E>, faults: nat -> bool, clock: nat,
                        s: Views<V, E>): Fate {
    if !Ready(op, vt, et, s) then Fate(false, 0, 0)
    else match op
      case ConstructValue(_, _, nothrow) => ConstructFate(nothrow, faults, clock)
      case ConstructError(_, _, nothrow) => ConstructFate(nothrow, faults, clock)
      case CopyConstruct(_, j) => TransferFate(false, vt, et, s[j].value, faults, clock)
      case MoveConstruct(_, j) => TransferFate(true, vt, et, s[j].value, faults, clock)
      case Destruct(_) => Fate(false, 0, 0)
      case CopyAssign(i, j) => AssignFate(false, vt, et, s[i].value, s[j].value, faults, clock)
      case MoveAssign(i, j) => AssignFate(true, vt, et, s[i].value, s[j].value, faults, clock)
      case AssignValue(i, v, c, a) => ConvertFate(c, a, vt, et, s[i].value, Val(v), faults, clock)
      case AssignError(i, e, c, a) => ConvertFate(c, a, vt, et, s[i].value, Err(e), faults, clock)
      case Swap(i, j) => SwapFate(vt, et, s[i].value, s[j].value, faults, clock)
  }

  /** A program as the sum type has it: which operations threw, where the schedule stands, how many objects
      have been constructed, temporaries included, and what every storage denotes. */
  datatype Run<V, E> = Run(threw: seq<bool>, clock: nat, born: nat, views: Views<V, E>)

  function Advance<V, E>(op: Op<V, E>, vt: Traits<V>, et: Traits<E>, faults: nat -> bool, r: Run<V, E>): Run<V, E> {
    var f := FateOf(op, vt, et, faults, r.clock, r.views);
    Run(r.threw + [f.threw], r.clock + f.ticks, r.born + f.births, Step(op, f.threw, vt, et, r.views))
  }

  function Meaning<V, E>(ops: seq<Op<V, E>>, vt: Traits<V>, et: Traits<E>, faults: nat -> bool,
                         start: Run<V, E>): Run<V, E> {
    if ops == [] then start
    else Advance(ops[|ops| - 1], vt, et, faults, Meaning(ops[..|ops| - 1], vt, et, faults, start))
  }

  /** From the present state of the runtime, with nothing performed yet. */
  function Start<V, E>(rt: Runtime<V, E>, s: Views<V, E>): Run<V, E>
    reads rt
  {
    Run([], rt.clock, rt.book.born, s)
  }

  /** Whatever an operation of this kind finds, no schedule makes it throw: the exception specifications. */
  predicate NeverThrows<V, E>(op: Op<V, E>, vt: Traits<V>, et: Traits<E>) {
    match op
    case ConstructValue(_, _, nothrow) => nothrow
    case ConstructError(_, _, nothrow) => nothrow
    case CopyConstruct(_, _) => vt.nothrowCopy && et.nothrowCopy
    case MoveConstruct(_, _) => vt.nothrowMove && et.nothrowMove
    case Destruct(_) => true
    case CopyAssign(_, _) => vt.nothrowCopy && vt.nothrowCopyAssign && et.nothrowCopy && et.nothrowCopyAssign
    case MoveAssign(_, _) => vt.nothrowMove && vt.nothrowMoveAssign && et.nothrowMove && et.nothrowMoveAssign
    case AssignValue(_, _, c, a) => c && a
    case AssignError(_, _, c, a) => c && a
    case Swap(_, _) => vt.nothrowMove && et.nothrowMove && vt.nothrowSwap && et.nothrowSwap
  }

  predicate Throws<V, E>(op: Op<V, E>, vt: Traits<V>, et: Traits<E>, faults: nat -> bool, clock: nat, s: Views<V, E>) {
    FateOf(op, vt, et, faults, clock, s).threw
  }

  /** A state in which the operation meets the alternatives x and y. */
  function Scene<V, E>(op: Op<V, E>, x: Sum<V, E>, y: Sum<V, E>): Views<V, E> {
    if op.Binary() then
      seq(op.i + op.j + 1, k => if k != op.i then Some(y) else if op.Constructs() then None else Some(x))
    else
      seq(op.i + 1, _ => if op.Constructs() then None else Some(x))
  }

  /** The alternatives x and y make the operation throw if everything throws that may. */
  predicate Provokes<V, E>(x: Sum<V, E>, y: Sum<V, E>, op: Op<V, E>, vt: Traits<V>, et: Traits<E>) {
    Throws(op, vt, et, n => true, 0, Scene(op, x, y))
  }

  lemma UnaryProvoked<V, E>(op: Op<V, E>, vt: Traits<V>, et: Traits<E>, v: V, e: E)
    requires Legal(op, vt, et) && !op.Binary() && !NeverThrows(op, vt, et)
    ensures Provokes(Val(v), Val(v), op, vt, et) || Provokes(Err(e), Err(e), op, vt, et)
  {
  }

  lemma BinaryProvoked<V, E>(op: Op<V, E>, vt: Traits<V>, et: Traits<E>, v: V, e: E)
    requires Legal(op, vt, et) && op.Binary() && op.i != op.j && !NeverThrows(op, vt, et)
    ensures Provokes(Val(v), Val(v), op, vt, et) || Provokes(Err(e), Err(e), op, vt, et)
         || Provokes(Val(v), Err(e), op, vt, et) || Provokes(Err(e), Val(v), op, vt, et)
  {
  }

  /** The exception specifications are exact: apart from self-assignment and self-swap, an operation never
      throws, whatever the schedule and the alternatives, if and only if its specification says so. */
  lemma NoexceptIsExact<V, E>(op: Op<V, E>, vt: Traits<V>, et: Traits<E>, v: V, e: E)
    requires Legal(op, vt, et) && (op.Binary() ==> op.i != op.j)
    ensures (forall faults, clock, s :: !Throws(op, vt, et, faults, clock, s)) <==> NeverThrows(op, vt, et)
  {
    if !NeverThrows(op, vt, et) {
      if op.Binary() {
        BinaryProvoked(op, vt, et, v, e);
      } else {
        UnaryProvoked(op, vt, et, v, e);
      }
    }
  }

  function Count(threw: seq<bool>): nat {
    if threw == [] then 0 else Count(threw[..|threw| - 1]) + if threw[|threw| - 1] then 1 else 0
  }

  lemma ThrowHasCause<V, E>(op: Op<V, E>, vt: Traits<V>, et: Traits<E>, faults: nat -> bool, clock: nat, s: Views<V, E>)
    ensures var f := FateOf(op, vt, et, faults, clock, s);
            f.threw ==> FaultsIn(faults, clock, f.ticks) > 0
  {
    assert FaultsIn(faults, clock, 1) == if faults(clock) then 1 else 0;
    assert FaultsIn(faults, clock, 2) == FaultsIn(faults, clock, 1) + if faults(clock + 1) then 1 else 0;
  }

  /** Every throw of a program that began at the given clock has a fault of the schedule to itself. */
  predicate Covered<V, E>(faults: nat -> bool, start: nat, r: Run<V, E>) {
    start <= r.clock && Count(r.threw) <= FaultsIn(faults, start, r.clock - start)
  }

  lemma AdvanceIsCovered<V, E>(op: Op<V, E>, vt: Traits<V>, et: Traits<E>, faults: nat -> bool, start: nat,
                               r: Run<V, E>)
    requires Covered(faults, start, r)
    ensures Covered(faults, start, Advance(op, vt, et, faults, r))
  {
    var f := FateOf(op, vt, et, faults, r.clock, r.views);
    ThrowHasCause(op, vt, et, faults, r.clock, r.views);
    FaultsCover(faults, start, r.clock, f.ticks, Count(r.threw), f.threw);
    assert (r.threw + [f.threw])[..|r.threw|] == r.threw;
  }

  lemma {:induction false} ThrowsHaveCauses<V, E>(ops: seq<Op<V, E>>, vt: Traits<V>, et: Traits<E>,
                                                 faults: nat -> bool, start: Run<V, E>)
    requires start.threw == []
    ensures Covered(faults, start.clock, Meaning(ops, vt, et, faults, start))
  {
    if ops != [] {
      var n := |ops| - 1;
      ThrowsHaveCauses(ops[..n], vt, et, faults, start);
      AdvanceIsCovered(ops[n], vt, et, faults, start.clock, Meaning(ops[..n], vt, et, faults, start));
    }
  }

  /** Which programs have an effect and what it is, operation by operation, with the type constraints of the
      source written out. An operation that is not allowed in a state changes nothing. */
  lemma SwapStep<V, E>(i: nat, j: nat, threw: bool, vt: Traits<V>, et: Traits<E>, s: Views<V, E>)
    ensures var t := Step(Swap(i, j), threw, vt, et, s);
      if i < |s| && j < |s| && s[i].Some? && s[j].Some? && (vt.nothrowMove || et.nothrowMove) then
        && |t| == |s| && (forall k :: 0 <= k < |s| && k != i && k != j ==> t[k] == s[k])
        && (!threw ==> t[i] == s[j] && t[j] == s[i])
        && (threw && s[i].value.Val? != s[j].value.Val? ==> t == s)
      else t == s
  {
  }

  lemma CopyAssignStep<V, E>(i: nat, j: nat, threw: bool, vt: Traits<V>, et: Traits<E>, s: Views<V, E>)
    ensures var t := Step(CopyAssign(i, j), threw, vt, et, s);
      if i < |s| && j < |s| && s[i].Some? && s[j].Some? && (vt.nothrowMove || et.nothrowMove) then
        && |t| == |s| && (forall k :: 0 <= k < |s| && k != i ==> t[k] == s[k])
        && (!threw ==> t[i] == s[j])
        && (threw && s[i].value.Val? != s[j].value.Val? ==> t == s)
      else t == s
  {
  }

  lemma MoveAssignStep<V, E>(i: nat, j: nat, threw: bool, vt: Traits<V>, et: Traits<E>, s: Views<V, E>)
    ensures var t := Step(MoveAssign(i, j), threw, vt, et, s);
      if i < |s| && j < |s| && s[i].Some? && s[j].Some? && (vt.nothrowMove || et.nothrowMove) then
        && |t| == |s| && (forall k :: 0 <= k < |s| && k != i && k != j ==> t[k] == s[k])
        && (!threw && i != j ==> t[i] == s[j])
        && (!threw && s[j].value.Val? ==> t[j] == Some(Val(vt.residue(s[j].value.v))))
        && (!threw && s[j].value.Err? ==> t[j] == Some(Err(et.residue(s[j].value.e))))
        && (threw && s[i].value.Val? != s[j].value.Val? ==> t == s)
        && (threw && i != j ==> t[j] == s[j])
      else t == s
  {
  }

  lemma AssignValueStep<V, E>(i: nat, v: V, c: bool, a: bool, threw: bool, vt: Traits<V>, et: Traits<E>, s: Views<V, E>)
    ensures var t := Step(AssignValue(i, v, c, a), threw, vt, et, s);
      if i < |s| && s[i].Some? && (c || vt.nothrowMove || et.nothrowMove) then
        && |t| == |s| && (forall k :: 0 <= k < |s| && k != i ==> t[k] == s[k])
        && (!threw ==> t[i] == Some(Val(v)))
        && (threw && s[i].value.Err? ==> t == s)
      else t == s
  {
  }

  lemma AssignErrorStep<V, E>(i: nat, e: E, c: bool, a: bool, threw: bool, vt: Traits<V>, et: Traits<E>,
                              s: Views<V, E>)
    ensures var t := Step(AssignError(i, e, c, a), threw, vt, et, s);
      if i < |s| && s[i].Some? && (c || vt.nothrowMove || et.nothrowMove) then
        && |t| == |s| && (forall k :: 0 <= k < |s| && k != i ==> t[k] == s[k])
        && (!threw ==> t[i] == Some(Err(e)))
        && (threw && s[i].value.Val? ==> t == s)
      else t == s
  {
  }

  /** The constructors, given what they construct, and the destructor. */
  lemma BirthAndDeathStep<V, E>(op: Op<V, E>, new_: Sum<V, E>, threw: bool, vt: Traits<V>, et: Traits<E>,
                                s: Views<V, E>)
    requires match op
             case ConstructValue(_, v, _) => new_ == Val(v)
             case ConstructError(_, e, _) => new_ == Err(e)
             case CopyConstruct(_, j) => j < |s| && s[j] == Some(new_)
             case MoveConstruct(_, j) => j < |s| && s[j] == Some(new_)
             case _ => op.Destruct?
    ensures var t := Step(op, threw, vt, et, s);
            var applies := op.i < |s| && (op.Destruct? <==> s[op.i].Some?);
      && |t| == |s|
      && (applies && !threw ==> t[op.i] == if op.Destruct? then None else Some(new_))
      && (applies && op.MoveConstruct? && !threw && new_.Val? ==> t[op.j] == Some(Val(vt.residue(new_.v))))
      && (applies && op.MoveConstruct? && !threw && new_.Err? ==> t[op.j] == Some(Err(et.residue(new_.e))))
      && (!applies || threw ==> t == s)
      && (forall k :: 0 <= k < |s| && k != op.i && !(op.MoveConstruct? && k == op.j) ==> t[k] == s[k])
  {
  }

  /** An operation throws only if one of the next two operations of the schedule does, and takes at most
      three. */
  lemma AdvanceIsShort<V, E>(op: Op<V, E>, vt: Traits<V>, et: Traits<E>, faults: nat -> bool, r: Run<V, E>)
    ensures var f := FateOf(op, vt, et, faults, r.clock, r.views);
            f.ticks <= 3 && (f.threw ==> faults(r.clock) || faults(r.clock + 1))
  {
  }

  /** From r to q, one operation has been performed: it ended in this way, which takes a fault of the schedule
      within the next two operations if it threw, and the step is the one described above. */
  ghost predicate Follows<V, E>(r: Run<V, E>, q: Run<V, E>, op: Op<V, E>, threw: bool, vt: Traits<V>, et: Traits<E>,
                                faults: nat -> bool) {
    && q.threw == r.threw + [threw]
    && q.views == Step(op, threw, vt, et, r.views)
    && r.clock <= q.clock <= r.clock + 3
    && (threw ==> faults(r.clock) || faults(r.clock + 1))
  }

  lemma AdvanceFollows<V, E>(op: Op<V, E>, vt: Traits<V>, et: Traits<E>, faults: nat -> bool, r: Run<V, E>)
    returns (threw: bool)
    ensures Follows(r, Advance(op, vt, et, faults, r), op, threw, vt, et, faults)
  {
    threw := FateOf(op, vt, et, faults, r.clock, r.views).threw;
    AdvanceIsShort(op, vt, et, faults, r);
  }

  /** Each operation of a program in turn is such a step, from what the operations before it have come to. */
  lemma MeaningOneMore<V, E>(ops: seq<Op<V, E>>, op: Op<V, E>, vt: Traits<V>, et: Traits<E>,
                             faults: nat -> bool, start: Run<V, E>) returns (threw: bool)
    ensures Follows(Meaning(ops, vt, et, faults, start), Meaning(ops + [op], vt, et, faults, start),
                    op, threw, vt, et, faults)
  {
    assert (ops + [op])[..|ops|] == ops;
    threw := AdvanceFollows(op, vt, et, faults, Meaning(ops, vt, et, faults, start));
  }

  /** What one storage denotes, and which living object it holds: exactly the
      member that the flag names, or none if no object is there. */
  ghost predicate Shows<V, E>(rt: Runtime<V, E>, c: Expected<V, E>, held: set<nat>, view: Option<Sum<V, E>>)
    reads c
  {
    && c.rt == rt
    && (if c.built then c.Tagged() && held == {c.ActiveId()} && view == Some(c.View())
        else c.val.Raw? && c.unex.Raw? && held == {} && view == None)
  }

  /** Every storage shows its part of s, the living objects are partitioned among the storages, and
      nothing else is alive: no temporary, no leak. */
  ghost predicate ConsistentWith<V, E>(rt: Runtime<V, E>, cells: seq<Expected<V, E>>, held: seq<set<nat>>,
                                       s: Views<V, E>)
    reads rt, cells
  {
    && |s| == |held| == |cells| && rt.Valid() && Partition(rt.book, held)
    && (forall k, l :: 0 <= k < l < |cells| ==> cells[k] != cells[l])
    && (forall k {:trigger Shows(rt, cells[k], held[k], s[k])} ::
          0 <= k < |cells| ==> Shows(rt, cells[k], held[k], s[k]))
  }

  ghost predicate Denotes<V, E>(rt: Runtime<V, E>, cells: seq<Expected<V, E>>, s: Views<V, E>)
    reads rt, cells
  {
    exists held :: ConsistentWith(rt, cells, held, s)
  }

  lemma Pick<V, E>(rt: Runtime<V, E>, cells: seq<Expected<V, E>>, s: Views<V, E>, i: nat, j: nat)
    returns (held: seq<set<nat>>)
    requires Denotes(rt, cells, s) && i < |cells| && j < |cells|
    ensures ConsistentWith(rt, cells, held, s)
    ensures Shows(rt, cells[i], held[i], s[i]) && Shows(rt, cells[j], held[j], s[j])
    ensures cells[i].Valid() && cells[j].Valid()
    ensures i != j ==> cells[i] != cells[j] && held[i] !! held[j]
  {
    held :| ConsistentWith(rt, cells, held, s);
    assert Shows(rt, cells[i], held[i], s[i]) && Shows(rt, cells[j], held[j], s[j]);
  }

  /** After an operation on two storages (or one, named twice) that settled the ledger between their
      objects, the whole program is consistent again. */
  lemma Settle<V, E>(rt: Runtime<V, E>, cells: seq<Expected<V, E>>, before: Book, held: seq<set<nat>>, s: Views<V, E>,
                     i: nat, j: nat, hi: set<nat>, hj: set<nat>, t: Views<V, E>)
    requires i < |cells| && j < |cells| && |held| == |cells| == |s| == |t|
    requires before.Sound() && Partition(before, held) && rt.Valid()
    requires forall k, l :: 0 <= k < l < |cells| ==> cells[k] != cells[l]
    requires forall k {:trigger Shows(rt, cells[k], held[k], s[k])} ::
               0 <= k < |cells| && k != i && k != j ==> Shows(rt, cells[k], held[k], s[k])
    requires forall k :: 0 <= k < |cells| && k != i && k != j ==> t[k] == s[k]
    requires Shows(rt, cells[i], hi, t[i]) && Shows(rt, cells[j], hj, t[j])
    requires if i == j then hi == hj else hi !! hj
    requires Settled(before, rt.book, held[i] + held[j], hi + hj)
    ensures Denotes(rt, cells, t)
  {
    var held' := held[i := hi][j := hj];
    SettledKeepsPartition(before, rt.book, held, held', i, j);
    assert ConsistentWith(rt, cells, held', t);
  }

  ghost function Holds<V, E>(c: Expected<V, E>): set<nat>
    reads c
  {
    if c.built && c.Tagged() then {c.ActiveId()} else {}
  }

  method PerformBirth<V, E>(rt: Runtime<V, E>, cells: seq<Expected<V, E>>, op: Op<V, E>, ghost s: Views<V, E>)
    returns (threw: bool)
    requires op.ConstructValue? || op.ConstructError? || op.Destruct?
    requires Denotes(rt, cells, s) && Ready(op, rt.vt, rt.et, s)
    modifies rt, cells
    ensures Denotes(rt, cells, Step(op, threw, rt.vt, rt.et, s))
    ensures rt.Ran(threw, FateOf(op, rt.vt, rt.et, rt.faults, old(rt.clock), s))
  {
    ghost var held := Pick(rt, cells, s, op.i, op.i);
    ghost var before := rt.book;
    threw := false;
    match op {
      case ConstructValue(i, v, nothrow) => threw := cells[i].ConstructValue(v, nothrow);
      case ConstructError(i, e, nothrow) => threw := cells[i].ConstructError(e, nothrow);
      case Destruct(i) => cells[i].Destruct();
    }
    Settle(rt, cells, before, held, s, op.i, op.i, Holds(cells[op.i]), Holds(cells[op.i]),
           Step(op, threw, rt.vt, rt.et, s));
  }

  method PerformConvert<V, E>(rt: Runtime<V, E>, cells: seq<Expected<V, E>>, op: Op<V, E>, ghost s: Views<V, E>)
    returns (threw: bool)
    requires op.AssignValue? || op.AssignError?
    requires Denotes(rt, cells, s) && Ready(op, rt.vt, rt.et, s)
    modifies rt, cells
    ensures Denotes(rt, cells, Step(op, threw, rt.vt, rt.et, s))
    ensures rt.Ran(threw, FateOf(op, rt.vt, rt.et, rt.faults, old(rt.clock), s))
  {
    ghost var held := Pick(rt, cells, s, op.i, op.i);
    ghost var before := rt.book;
    threw := false;
    match op {
      case AssignValue(i, v, c, a) => threw := cells[i].AssignValue(v, c, a);
      case AssignError(i, e, c, a) => threw := cells[i].AssignError(e, c, a);
    }
    Settle(rt, cells, before, held, s, op.i, op.i, Holds(cells[op.i]), Holds(cells[op.i]),
           Step(op, threw, rt.vt, rt.et, s));
  }

  method PerformConstruct<V, E>(rt: Runtime<V, E>, cells: seq<Expected<V, E>>, op: Op<V, E>, ghost s: Views<V, E>)
    returns (threw: bool)
    requires op.CopyConstruct? || op.MoveConstruct?
    requires Denotes(rt, cells, s) && Ready(op, rt.vt, rt.et, s)
    modifies rt, cells
    ensures Denotes(rt, cells, Step(op, threw, rt.vt, rt.et, s))
    ensures rt.Ran(threw, FateOf(op, rt.vt, rt.et, rt.faults, old(rt.clock), s))
  {
    ghost var held := Pick(rt, cells, s, op.i, op.j);
    ghost var before := rt.book;
    threw := false;
    match op {
      case CopyConstruct(i, j) => threw := cells[i].CopyConstruct(cells[j]);
      case MoveConstruct(i, j) => threw := cells[i].MoveConstruct(cells[j]);
    }
    Settle(rt, cells, before, held, s, op.i, op.j, Holds(cells[op.i]), Holds(cells[op.j]),
           Step(op, threw, rt.vt, rt.et, s));
  }

  method PerformCopyAssign<V, E>(rt: Runtime<V, E>, cells: seq<Expected<V, E>>, op: Op<V, E>, ghost s: Views<V, E>)
    returns (threw: bool)
    requires op.CopyAssign?
    requires Denotes(rt, cells, s) && Ready(op, rt.vt, rt.et, s)
    modifies rt, cells
    ensures Denotes(rt, cells, Step(op, threw, rt.vt, rt.et, s))
    ensures rt.Ran(threw, FateOf(op, rt.vt, rt.et, rt.faults, old(rt.clock), s))
  {
    ghost var held := Pick(rt, cells, s, op.i, op.j);
    ghost var before := rt.book;
    threw := false;
    match op {
      case CopyAssign(i, j) => threw := cells[i].CopyAssign(cells[j]);
    }
    Settle(rt, cells, before, held, s, op.i, op.j, Holds(cells[op.i]), Holds(cells[op.j]),
           Step(op, threw, rt.vt, rt.et, s));
  }

  method PerformMoveAssign<V, E>(rt: Runtime<V, E>, cells: seq<Expected<V, E>>, op: Op<V, E>, ghost s: Views<V, E>)
    returns (threw: bool)
    requires op.MoveAssign?
    requires Denotes(rt, cells, s) && Ready(op, rt.vt, rt.et, s)
    modifies rt, cells
    ensures Denotes(rt, cells, Step(op, threw, rt.vt, rt.et, s))
    ensures rt.Ran(threw, FateOf(op, rt.vt, rt.et, rt.faults, old(rt.clock), s))
  {
    ghost var held := Pick(rt, cells, s, op.i, op.j);
    ghost var before := rt.book;
    threw := false;
    match op {
      case MoveAssign(i, j) => threw := cells[i].MoveAssign(cells[j]);
    }
    Settle(rt, cells, before, held, s, op.i, op.j, Holds(cells[op.i]), Holds(cells[op.j]),
           Step(op, threw, rt.vt, rt.et, s));
  }

  method PerformSwap<V, E>(rt: Runtime<V, E>, cells: seq<Expected<V, E>>, op: Op<V, E>, ghost s: Views<V, E>)
    returns (threw: bool)
    requires op.Swap?
    requires Denotes(rt, cells, s) && Ready(op, rt.vt, rt.et, s)
    modifies rt, cells
    ensures Denotes(rt, cells, Step(op, threw, rt.vt, rt.et, s))
    ensures rt.Ran(threw, FateOf(op, rt.vt, rt.et, rt.faults, old(rt.clock), s))
  {
    ghost var held := Pick(rt, cells, s, op.i, op.j);
    ghost var before := rt.book;
    threw := false;
    match op {
      case Swap(i, j) => threw := cells[i].Swap(cells[j]);
    }
    Settle(rt, cells, before, held, s, op.i, op.j, Holds(cells[op.i]), Holds(cells[op.j]),
           Step(op, threw, rt.vt, rt.et, s));
  }

  method Perform<V, E>(rt: Runtime<V, E>, cells: seq<Expected<V, E>>, op: Op<V, E>, ghost s: Views<V, E>)
    returns (threw: bool)
    requires Denotes(rt, cells, s) && Ready(op, rt.vt, rt.et, s)
    modifies rt, cells
    ensures Denotes(rt, cells, Step(op, threw, rt.vt, rt.et, s))
    ensures rt.Ran(threw, FateOf(op, rt.vt, rt.et, rt.faults, old(rt.clock), s))
  {
    if op.CopyConstruct? || op.MoveConstruct? {
      threw := PerformConstruct(rt, cells, op, s);
    } else if op.CopyAssign? {
      threw := PerformCopyAssign(rt, cells, op, s);
    } else if op.MoveAssign? {
      threw := PerformMoveAssign(rt, cells, op, s);
    } else if op.Swap? {
      threw := PerformSwap(rt, cells, op, s);
    } else if op.AssignValue? || op.AssignError? {
      threw := PerformConvert(rt, cells, op, s);
    } else {
      threw := PerformBirth(rt, cells, op, s);
    }
  }

  method IsReady<V, E>(rt: Runtime<V, E>, cells: seq<Expected<V, E>>, op: Op<V, E>, ghost s: Views<V, E>)
    returns (ready: bool)
    requires Denotes(rt, cells, s)
    ensures ready <==> Ready(op, rt.vt, rt.et, s)
  {
    if op.i >= |cells| { return false; }
    ghost var _ := Pick(rt, cells, s, op.i, op.i);
    if op.Constructs() == cells[op.i].built { return false; }
    if op.Binary() {
      if op.j >= |cells| { return false; }
      ghost var _ := Pick(rt, cells, s, op.i, op.j);
      if !cells[op.j].built { return false; }
    }
    ready := Legal(op, rt.vt, rt.et);
  }

  /** Runs a program from any consistent state, under the schedule of throws. Operations that the type
      constraints or the lifetimes rule out are not performed. At the end, and so after every beginning of
      the program, exactly those operations have thrown, exactly as many objects have been constructed, and
      the storages denote exactly what the sum type says; Denotes includes that exactly the flagged members
      are alive. */
  method RunProgram<V, E>(rt: Runtime<V, E>, cells: seq<Expected<V, E>>, ops: seq<Op<V, E>>, ghost s: Views<V, E>)
    returns (threw: seq<bool>)
    requires Denotes(rt, cells, s)
    modifies rt, cells
    ensures var r := Meaning(ops, rt.vt, rt.et, rt.faults, old(Start(rt, s)));
      && threw == r.threw && rt.clock == r.clock && rt.book.born == r.born
      && Denotes(rt, cells, r.views)
  {
    ghost var start := Start(rt, s);
    ghost var r := start;
    threw := [];
    for n := 0 to |ops|
      invariant r == Meaning(ops[..n], rt.vt, rt.et, rt.faults, start)
      invariant threw == r.threw && rt.clock == r.clock && rt.book.born == r.born
      invariant Denotes(rt, cells, r.views)
    {
      var t := false;
      var ready := IsReady(rt, cells, ops[n], r.views);
      if ready {
        t := Perform(rt, cells, ops[n], r.views);
      }
      assert ops[..n + 1][..n] == ops[..n];
      threw := threw + [t];
      r := Meaning(ops[..n + 1], rt.vt, rt.et, rt.faults, start);
    }
    assert ops[..|ops|] == ops;
  }

  lemma NothingElseAlive<V, E>(rt: Runtime<V, E>, cells: seq<Expected<V, E>>, s: Views<V, E>)
    requires Denotes(rt, cells, s) && forall k :: 0 <= k < |s| ==> s[k] == None
    ensures rt.book.alive == {} && forall k :: 0 <= k < |cells| ==> !cells[k].built
  {
    var held :| ConsistentWith(rt, cells, held, s);
    forall k | 0 <= k < |held|
      ensures held[k] == {} && !cells[k].built
    {
      assert Shows(rt, cells[k], held[k], s[k]);
    }
  }

  /** Ends the scope of all the objects. Nothing new is constructed for that, and each object that was alive
      is destroyed; so every object constructed since the ledger was opened, in particular every temporary,
      has then been destroyed exactly once. */
  method TearDown<V, E>(rt: Runtime<V, E>, cells: seq<Expected<V, E>>, ghost s: Views<V, E>)
    requires Denotes(rt, cells, s)
    modifies rt, cells
    ensures forall k :: 0 <= k < |cells| ==> !cells[k].built
    ensures rt.clock == old(rt.clock)
    ensures rt.book == Book(old(rt.book.born), {}, old(rt.book.deaths) + multiset(old(rt.book.alive)))
    ensures forall id: nat :: rt.book.deaths[id] == if id < rt.book.born then 1 else 0
  {
    ghost var before := rt.book;
    ghost var now := s;
    for n := 0 to |cells|
      invariant Denotes(rt, cells, now) && rt.clock == old(rt.clock) && rt.book.born == before.born
      invariant forall k :: 0 <= k < n ==> now[k] == None
    {
      ghost var _ := Pick(rt, cells, now, n, n);
      if cells[n].built {
        var threw := Perform(rt, cells, Destruct(n), now);
        now := Step(Destruct(n), threw, rt.vt, rt.et, now);
      }
    }
    NothingElseAlive(rt, cells, now);
    OnceEach(before, rt.book);
  }

  /** Adding raw storage to a program changes nothing else. */
  lemma OneMore<V, E>(rt: Runtime<V, E>, cells: seq<Expected<V, E>>, c: Expected<V, E>, s: Views<V, E>)
    requires Denotes(rt, cells, s) && c !in cells && Shows(rt, c, {}, None)
    ensures Denotes(rt, cells + [c], s + [None])
  {
    var held :| ConsistentWith(rt, cells, held, s);
    PartitionWithNothing(rt.book, held);
    assert ConsistentWith(rt, cells + [c], held + [{}], s + [None]);
  }

  /** Asks every storage what it denotes. */
  method Observe<V, E>(rt: Runtime<V, E>, cells: seq<Expected<V, E>>, ghost s: Views<V, E>) returns (views: Views<V, E>)
    requires Denotes(rt, cells, s)
    ensures views == s
  {
    views := [];
    for n := 0 to |cells|
      invariant views == s[..n]
    {
      ghost var _ := Pick(rt, cells, s, n, n);
      views := views + [if cells[n].built then Some(cells[n].View()) else None];
    }
  }

  /** A whole program from beginning to end, for any member types, schedule of throws and number of objects.
      What throws and what is observed is what the sum type says; the objects constructed are as many as it
      says, and at the end each one has been destroyed exactly once. */
  method WholeProgram<V, E>(vt: Traits<V>, et: Traits<E>, faults: nat -> bool, size: nat, ops: seq<Op<V, E>>)
    returns (rt: Runtime<V, E>, threw: seq<bool>, views: Views<V, E>)
    ensures rt.vt == vt && rt.et == et && rt.faults == faults
    ensures var r := Meaning(ops, vt, et, faults, Run([], 0, 0, seq(size, _ => None)));
      threw == r.threw && views == r.views && rt.clock == r.clock && rt.book.born == r.born
    ensures rt.book.alive == {}
    ensures forall id: nat :: rt.book.deaths[id] == if id < rt.book.born then 1 else 0
  {
    rt := new Runtime(vt, et, faults);
    var cells: seq<Expected<V, E>> := [];
    ghost var s: Views<V, E> := [];
    assert ConsistentWith(rt, cells, [], s);
    for n := 0 to size
      invariant fresh(rt) && (forall k :: 0 <= k < |cells| ==> fresh(cells[k])) && Denotes(rt, cells, s)
      invariant rt.vt == vt && rt.et == et && rt.faults == faults
      invariant rt.clock == rt.book.born == 0 && s == seq(n, _ => None)
    {
      ghost var held :| ConsistentWith(rt, cells, held, s);
      var c := new Expected(rt);
      OneMore(rt, cells, c, s);
      cells, s := cells + [c], s + [None];
    }
    ghost var r := Meaning(ops, vt, et, faults, Run([], 0, 0, s));
    threw := RunProgram(rt, cells, ops, s);
    views := Observe(rt, cells, r.views);
    TearDown(rt, cells, r.views);
  }

  /** A throw never changes which objects exist or which alternative they hold, and an object whose
      alternative was about to change keeps its value too. */
  lemma ThrowKeepsAlternatives<V, E>(op: Op<V, E>, vt: Traits<V>, et: Traits<E>, s: Views<V, E>, k: nat)
    requires Ready(op, vt, et, s) && k < |s|
    ensures var t := Step(op, true, vt, et, s);
      && |t| == |s|
      && (t[k].Some? <==> s[k].Some?)
      && (s[k].Some? ==> (t[k].value.Val? <==> s[k].value.Val?))
      && (op.AssignValue? && s[op.i].value.Err? ==> t == s)
      && (op.AssignError? && s[op.i].value.Val? ==> t == s)
      && (op.CopyAssign? || op.MoveAssign? || op.Swap? ==>
            s[op.i].value.Val? != s[op.j].value.Val? ==> t == s)
  {
  }
}
