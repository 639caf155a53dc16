/** Whole programs over any number of three-state storages, with throws wherever the schedule puts them. */
module FollyRuns {
  import opened Options
  import opened Lifetimes
  import opened FollyExpected

  datatype Op<V, E> =
    | ConstructEmpty(i: nat)
    | ConstructValue(i: nat, v: V, nothrow: bool)
    | ConstructError(i: nat, e: E, nothrow: bool)
    | RunSpecial(i: nat, j: nat, m: Special)
    | AssignFrom(i: nat, j: nat, move: bool)
    | AssignValue(i: nat, v: V, nothrow: bool)
    | AssignError(i: nat, e: E, nothrow: bool)
    | Clear(i: nat)
    | Destruct(i: nat)
  {
    predicate Constructs() {
      || ConstructEmpty? || ConstructValue? || ConstructError?
      || (RunSpecial? && (m == CopyConstruct || m == MoveConstruct))
    }

    predicate Moves() {
      (RunSpecial? && (m == MoveConstruct || m == MoveAssign)) || (AssignFrom? && move)
    }
  }

  /** What each storage denotes; None where no object has been constructed. */
  type Views<V, E> = seq<Option<State<V, E>>>

  /** How an operation ended: `used` tells whether it consumed its argument before it threw. */
  datatype End = End(threw: bool, used: bool)

  /** The state in which a special member or an assignment finds the storage. */
  function Present<V, E>(view: Option<State<V, E>>): State<V, E> {
    match view
    case Some(s) => s
    case None => Nothing
  }

  /** Which operations a program may perform: constructors need raw storage, the rest need objects, and the
      destroy-and-rebuild fallback, where it would be used, must not be able to throw. */
  predicate Ready<V, E>(op: Op<V, E>, vt: Traits<V>, et: Traits<E>, s: Views<V, E>) {
    && op.i < |s|
    && (op.Constructs() <==> s[op.i].None?)
    && (op.RunSpecial? || op.AssignFrom? ==>
          && op.j < |s| && s[op.j].Some?
          && (op.i == op.j || Permits(op.Moves(), vt, et, Present(s[op.i]), s[op.j].value)))
    && (op.AssignValue? && s[op.i].value.Holds? && s[op.i].value.sum.Val? ==> Replaceable(vt, op.nothrow))
    && (op.AssignError? && s[op.i].value.Holds? && s[op.i].value.sum.Err? ==> Replaceable(et, op.nothrow))
  }

  /** Taking over the state of storage j. */
  function Take<V, E>(i: nat, j: nat, move: bool, end: End, vt: Traits<V>, et: Traits<E>, s: Views<V, E>): Views<V, E>
    requires i < |s| && j < |s| && s[i].Some? && s[j].Some?
  {
    if i == j then s
    else
      var w := s[j].value;
      s[i := Some(AfterAssign(vt, et, s[i].value, w, end.threw, end.used))]
       [j := Some(if move && end.used then SpentState(vt, et, w) else w)]
  }

  /** The meaning of an operation. A throw that interrupts a change of alternative leaves the storage
      empty; one that interrupts an assignment within the alternative leaves the old or a torn value; a
      throwing constructor leaves no object. */
  function Step<V, E>(op: Op<V, E>, end: End, vt: Traits<V>, et: Traits<E>, s: Views<V, E>): Views<V, E> {
    if !Ready(op, vt, et, s) then s
    else match op
      case ConstructEmpty(i) => s[i := Some(Nothing)]
      case ConstructValue(i, v, _) => if end.threw then s else s[i := Some(Holds(Val(v)))]
      case ConstructError(i, e, _) => if end.threw then s else s[i := Some(Holds(Err(e)))]
      case RunSpecial(i, j, m) =>
        if op.Constructs() then
          var t := Take(i, j, op.Moves(), end, vt, et, s[i := Some(Nothing)]);
          if end.threw then t[i := None] else t
        else Take(i, j, op.Moves(), end, vt, et, s)
      case AssignFrom(i, j, move) => Take(i, j, move, end, vt, et, s)
      case AssignValue(i, v, _) => s[i := Some(AfterAssign(vt, et, s[i].value, Holds(Val(v)), end.threw, end.used))]
      case AssignError(i, e, _) => s[i := Some(AfterAssign(vt, et, s[i].value, Holds(Err(e)), end.threw, end.used))]
      case Clear(i) => s[i := Some(Nothing)]
      case Destruct(i) => s[i := None]
  }

  /** How an operation ends under a schedule of throws. */
  function FateOf<V, E>(op: Op<V, E>, vt: Traits<V>, et: Traits<E>, faults: nat -> bool, clock: nat,
                        s: Views<V, E>): Fate {
    if !Ready(op, vt, et, s) then Fate(false, 0, 0)
    else match op
      case ConstructValue(_, _, nothrow) => ConstructFate(nothrow, faults, clock)
      case ConstructError(_, _, nothrow) => ConstructFate(nothrow, faults, clock)
      case AssignValue(i, _, nothrow) =>
        GiveFate(s[i].value.Holds? && s[i].value.sum.Val?, vt, nothrow, faults, clock)
      case AssignError(i, _, nothrow) =>
        GiveFate(s[i].value.Holds? && s[i].value.sum.Err?, et, nothrow, faults, clock)
      case RunSpecial(i, j, _) =>
        if i == j then Fate(false, 0, 0)
        else TakeFate(op.Moves(), vt, et, Present(s[i]), s[j].value, faults, clock)
      case AssignFrom(i, j, move) =>
        if i == j then Fate(false, 0, 0)
        else TakeFate(move, vt, et, s[i].value, s[j].value, faults, clock)
      case _ => Fate(false, 0, 0)
  }

  /** The argument has been consumed exactly if something has been constructed from it. */
  function EndOf(f: Fate): End {
    End(f.threw, f.births > 0)
  }

  /** A program as the three-state type has it: how the operations ended, where the schedule stands, how many
      objects have been constructed, temporaries included, and what every storage denotes. */
  datatype Run<V, E> = Run(ends: seq<End>, clock: nat, born: nat, views: Views<V, E>)

  function Advance<V, E>(op: Op<V, E>, vt: Traits<V>, et: Traits<E>, faults: nat -> bool, r: Run<V, E>): Run<V, E> {
    var f := FateOf(op, vt, et, faults, r.clock, r.views);
    Run(r.ends + [EndOf(f)], r.clock + f.ticks, r.born + f.births, Step(op, EndOf(f), vt, et, r.views))
  }

  function Meaning<V, E>(ops: seq<Op<V, E>>, vt: Traits<V>, et: Traits<E>, faults: nat -> bool,
                         start: Run<V, E>): Run<V, E> {
    if ops == [] then start
    else Advance(ops[|ops| - 1], vt, et, faults, Meaning(ops[..|ops| - 1], vt, et, faults, start))
  }

  /** From the present state of the runtime, with nothing performed yet. */
  function Start<V, E>(rt: Runtime<V, E>, s: Views<V, E>): Run<V, E>
    reads rt
  {
    Run([], rt.clock, rt.book.born, s)
  }

  function Count(ends: seq<End>): nat {
    if ends == [] then 0 else Count(ends[..|ends| - 1]) + if ends[|ends| - 1].threw then 1 else 0
  }

  lemma TakeHasCause<V, E>(move: bool, vt: Traits<V>, et: Traits<E>, s: State<V, E>, w: State<V, E>,
                           faults: nat -> bool, clock: nat)
    ensures var f := TakeFate(move, vt, et, s, w, faults, clock);
            f.threw ==> FaultsIn(faults, clock, f.ticks) > 0
  {
    assert FaultsIn(faults, clock, 1) == if faults(clock) then 1 else 0;
    assert FaultsIn(faults, clock, 2) == FaultsIn(faults, clock, 1) + if faults(clock + 1) then 1 else 0;
  }

  lemma ThrowHasCause<V, E>(op: Op<V, E>, vt: Traits<V>, et: Traits<E>, faults: nat -> bool, clock: nat, s: Views<V, E>)
    ensures var f := FateOf(op, vt, et, faults, clock, s);
            f.threw ==> FaultsIn(faults, clock, f.ticks) > 0
  {
    if Ready(op, vt, et, s) && (op.RunSpecial? || op.AssignFrom?) {
      TakeHasCause(op.Moves(), vt, et, Present(s[op.i]), s[op.j].value, faults, clock);
    } else {
      assert FaultsIn(faults, clock, 1) == if faults(clock) then 1 else 0;
      assert FaultsIn(faults, clock, 2) == FaultsIn(faults, clock, 1) + if faults(clock + 1) then 1 else 0;
    }
  }

  /** Every throw of a program that began at the given clock has a fault of the schedule to itself. */
  predicate Covered<V, E>(faults: nat -> bool, start: nat, r: Run<V, E>) {
    start <= r.clock && Count(r.ends) <= FaultsIn(faults, start, r.clock - start)
  }

  lemma AdvanceIsCovered<V, E>(op: Op<V, E>, vt: Traits<V>, et: Traits<E>, faults: nat -> bool, start: nat,
                               r: Run<V, E>)
    requires Covered(faults, start, r)
    ensures Covered(faults, start, Advance(op, vt, et, faults, r))
  {
    var f := FateOf(op, vt, et, faults, r.clock, r.views);
    ThrowHasCause(op, vt, et, faults, r.clock, r.views);
    FaultsCover(faults, start, r.clock, f.ticks, Count(r.ends), f.threw);
    assert (r.ends + [EndOf(f)])[..|r.ends|] == r.ends;
  }

  lemma {:induction false} ThrowsHaveCauses<V, E>(ops: seq<Op<V, E>>, vt: Traits<V>, et: Traits<E>,
                                                 faults: nat -> bool, start: Run<V, E>)
    requires start.ends == []
    ensures Covered(faults, start.clock, Meaning(ops, vt, et, faults, start))
  {
    if ops != [] {
      var n := |ops| - 1;
      ThrowsHaveCauses(ops[..n], vt, et, faults, start);
      AdvanceIsCovered(ops[n], vt, et, faults, start.clock, Meaning(ops[..n], vt, et, faults, start));
    }
  }

  /** What an assignment from a different object comes to, in terms of the fields: whether it is allowed,
      which is only in doubt within the alternative, and what it leaves. */
  ghost predicate Took<V, E>(i: nat, j: nat, move: bool, end: End, vt: Traits<V>, et: Traits<E>,
                             s: Views<V, E>, t: Views<V, E>)
    requires i < |s| && j < |s| && s[i].Some? && s[j].Some? && i != j
  {
    var x, y := s[i].value, s[j].value;
    var values := x.Holds? && y.Holds? && x.sum.Val? && y.sum.Val?;
    var errors := x.Holds? && y.Holds? && x.sum.Err? && y.sum.Err?;
    var moved := move && end.used;
    if (values ==> vt.assignable || if move then vt.nothrowMove else vt.nothrowCopy)
      && (errors ==> et.assignable || if move then et.nothrowMove else et.nothrowCopy)
    then
      && |t| == |s| && (forall k :: 0 <= k < |s| && k != i && k != j ==> t[k] == s[k])
      && (!end.threw ==> t[i] == s[j])
      && (end.threw && !values && !errors ==> t[i] == Some(Nothing))
      && (end.threw && !end.used && (values || errors) ==> t[i] == s[i])
      && (!moved || y == Nothing ==> t[j] == s[j])
      && (moved && y.Holds? && y.sum.Val? ==> t[j] == Some(Holds(Val(vt.residue(y.sum.v)))))
      && (moved && y.Holds? && y.sum.Err? ==> t[j] == Some(Holds(Err(et.residue(y.sum.e)))))
    else t == s
  }

  /** Which operations of a program have an effect and what it is, with the conditions of the source written
      out. An operation that is not allowed in a state changes nothing. */
  lemma AssignFromStep<V, E>(i: nat, j: nat, move: bool, end: End, vt: Traits<V>, et: Traits<E>, s: Views<V, E>)
    ensures var t := Step(AssignFrom(i, j, move), end, vt, et, s);
      if i < |s| && j < |s| && s[i].Some? && s[j].Some? && i != j then Took(i, j, move, end, vt, et, s, t)
      else t == s
  {
  }

  lemma SpecialAssignStep<V, E>(i: nat, j: nat, m: Special, end: End, vt: Traits<V>, et: Traits<E>, s: Views<V, E>)
    requires m == CopyAssign || m == MoveAssign
    ensures var t := Step(RunSpecial(i, j, m), end, vt, et, s);
      if i < |s| && j < |s| && s[i].Some? && s[j].Some? && i != j
      then Took(i, j, m == MoveAssign, end, vt, et, s, t)
      else t == s
  {
  }

  /** A copy or move construction is allowed for all types, and leaves no object if it throws. */
  lemma SpecialBirthStep<V, E>(i: nat, j: nat, m: Special, end: End, vt: Traits<V>, et: Traits<E>, s: Views<V, E>)
    requires m == CopyConstruct || m == MoveConstruct
    ensures var t := Step(RunSpecial(i, j, m), end, vt, et, s);
      if i < |s| && j < |s| && s[i].None? && s[j].Some? then
        var y, moved := s[j].value, m == MoveConstruct && end.used;
        && |t| == |s| && (forall k :: 0 <= k < |s| && k != i && k != j ==> t[k] == s[k])
        && t[i] == (if end.threw then None else s[j])
        && (!moved || y == Nothing ==> t[j] == s[j])
        && (moved && y.Holds? && y.sum.Val? ==> t[j] == Some(Holds(Val(vt.residue(y.sum.v)))))
        && (moved && y.Holds? && y.sum.Err? ==> t[j] == Some(Holds(Err(et.residue(y.sum.e)))))
      else t == s
  {
  }

  lemma AssignValueStep<V, E>(i: nat, v: V, nothrow: bool, end: End, vt: Traits<V>, et: Traits<E>, s: Views<V, E>)
    ensures var t := Step(AssignValue(i, v, nothrow), end, vt, et, s);
      if i < |s| && s[i].Some? && (s[i].value.Holds? && s[i].value.sum.Val? ==> vt.assignable || nothrow) then
        && |t| == |s| && (forall k :: 0 <= k < |s| && k != i ==> t[k] == s[k])
        && (!end.threw ==> t[i] == Some(Holds(Val(v))))
        && (end.threw && !(s[i].value.Holds? && s[i].value.sum.Val?) ==> t[i] == Some(Nothing))
        && (end.threw && !end.used && s[i].value.Holds? && s[i].value.sum.Val? ==> t == s)
      else t == s
  {
  }

  lemma AssignErrorStep<V, E>(i: nat, e: E, nothrow: bool, end: End, vt: Traits<V>, et: Traits<E>, s: Views<V, E>)
    ensures var t := Step(AssignError(i, e, nothrow), end, vt, et, s);
      if i < |s| && s[i].Some? && (s[i].value.Holds? && s[i].value.sum.Err? ==> et.assignable || nothrow) then
        && |t| == |s| && (forall k :: 0 <= k < |s| && k != i ==> t[k] == s[k])
        && (!end.threw ==> t[i] == Some(Holds(Err(e))))
        && (end.threw && !(s[i].value.Holds? && s[i].value.sum.Err?) ==> t[i] == Some(Nothing))
        && (end.threw && !end.used && s[i].value.Holds? && s[i].value.sum.Err? ==> t == s)
      else t == s
  {
  }

  /** The other constructors, given what they construct, `clear` and the destructor. */
  lemma BirthAndDeathStep<V, E>(op: Op<V, E>, new_: State<V, E>, end: End, vt: Traits<V>, et: Traits<E>,
                                s: Views<V, E>)
    requires match op
             case ConstructEmpty(_) => new_ == Nothing && !end.threw
             case ConstructValue(_, v, _) => new_ == Holds(Val(v))
             case ConstructError(_, e, _) => new_ == Holds(Err(e))
             case Clear(_) => new_ == Nothing && !end.threw
             case _ => op.Destruct? && !end.threw
    ensures var t := Step(op, end, vt, et, s);
            var applies := op.i < |s| && (op.Destruct? || op.Clear? <==> s[op.i].Some?);
      && |t| == |s| && (forall k :: 0 <= k < |s| && k != op.i ==> t[k] == s[k])
      && (applies && !end.threw ==> t[op.i] == if op.Destruct? then None else Some(new_))
      && (!applies || end.threw ==> t == s)
  {
  }

  lemma TakeIsShort<V, E>(move: bool, vt: Traits<V>, et: Traits<E>, s: State<V, E>, w: State<V, E>,
                          faults: nat -> bool, clock: nat)
    ensures var f := TakeFate(move, vt, et, s, w, faults, clock);
            f.ticks <= 2 && (f.threw ==> faults(clock) || faults(clock + 1))
  {
  }

  /** An operation throws only if one of the next two operations of the schedule does, and takes at most
      two. */
  lemma FateIsShort<V, E>(op: Op<V, E>, vt: Traits<V>, et: Traits<E>, faults: nat -> bool, clock: nat, s: Views<V, E>)
    ensures var f := FateOf(op, vt, et, faults, clock, s);
            f.ticks <= 2 && (f.threw ==> faults(clock) || faults(clock + 1))
  {
    if Ready(op, vt, et, s) && (op.RunSpecial? || op.AssignFrom?) {
      TakeIsShort(op.Moves(), vt, et, Present(s[op.i]), s[op.j].value, faults, clock);
    }
  }

  /** From r to q, one operation has been performed: it ended in this way, which takes a fault of the schedule
      within the next two operations if it threw, and the step is the one described above. */
  ghost predicate Follows<V, E>(r: Run<V, E>, q: Run<V, E>, op: Op<V, E>, end: End, vt: Traits<V>, et: Traits<E>,
                                faults: nat -> bool) {
    && q.ends == r.ends + [end]
    && q.views == Step(op, end, vt, et, r.views)
    && r.clock <= q.clock <= r.clock + 2
    && (end.threw ==> faults(r.clock) || faults(r.clock + 1))
    && (end.used <==> q.born > r.born)
  }

  lemma AdvanceFollows<V, E>(op: Op<V, E>, vt: Traits<V>, et: Traits<E>, faults: nat -> bool, r: Run<V, E>)
    returns (end: End)
    ensures Follows(r, Advance(op, vt, et, faults, r), op, end, vt, et, faults)
  {
    end := EndOf(FateOf(op, vt, et, faults, r.clock, r.views));
    FateIsShort(op, vt, et, faults, r.clock, r.views);
  }

  /** Each operation of a program in turn is such a step, from what the operations before it have come to. */
  lemma MeaningOneMore<V, E>(ops: seq<Op<V, E>>, op: Op<V, E>, vt: Traits<V>, et: Traits<E>,
                             faults: nat -> bool, start: Run<V, E>) returns (end: End)
    ensures Follows(Meaning(ops, vt, et, faults, start), Meaning(ops + [op], vt, et, faults, start),
                    op, end, vt, et, faults)
  {
    assert (ops + [op])[..|ops|] == ops;
    end := AdvanceFollows(op, vt, et, faults, Meaning(ops, vt, et, faults, start));
  }

  /** What one storage denotes, and which living object it holds: exactly the
      member that `which` names, and none if no object is there. */
  ghost predicate Shows<V, E>(rt: Runtime<V, E>, c: Storage<V, E>, held: set<nat>, view: Option<State<V, E>>)
    reads c
  {
    && c.rt == rt && c.Tagged() && held == c.Held()
    && view == (if c.built then Some(c.State()) else None)
    && (!c.built ==> c.which == Empty)
  }

  /** Every storage shows its part of s, the living objects are partitioned among the storages, and
      nothing else is alive: no temporary, no leak. */
  ghost predicate ConsistentWith<V, E>(rt: Runtime<V, E>, cells: seq<Storage<V, E>>, held: seq<set<nat>>,
                                       s: Views<V, E>)
    reads rt, cells
  {
    && |s| == |held| == |cells| && rt.Valid() && Partition(rt.book, held)
    && (forall k, l :: 0 <= k < l < |cells| ==> cells[k] != cells[l])
    && (forall k {:trigger Shows(rt, cells[k], held[k], s[k])} ::
          0 <= k < |cells| ==> Shows(rt, cells[k], held[k], s[k]))
  }

  ghost predicate Denotes<V, E>(rt: Runtime<V, E>, cells: seq<Storage<V, E>>, s: Views<V, E>)
    reads rt, cells
  {
    exists held :: ConsistentWith(rt, cells, held, s)
  }

  lemma Pick<V, E>(rt: Runtime<V, E>, cells: seq<Storage<V, E>>, s: Views<V, E>, i: nat, j: nat)
    returns (held: seq<set<nat>>)
    requires Denotes(rt, cells, s) && i < |cells| && j < |cells|
    ensures ConsistentWith(rt, cells, held, s)
    ensures Shows(rt, cells[i], held[i], s[i]) && Shows(rt, cells[j], held[j], s[j])
    ensures cells[i].Valid() && cells[j].Valid()
    ensures i != j ==> cells[i] != cells[j] && held[i] !! held[j]
  {
    held :| ConsistentWith(rt, cells, held, s);
    assert Shows(rt, cells[i], held[i], s[i]) && Shows(rt, cells[j], held[j], s[j]);
  }

  /** After an operation on two storages (or one, named twice) that settled the ledger between their
      objects, the whole program is consistent again. */
  lemma Settle<V, E>(rt: Runtime<V, E>, cells: seq<Storage<V, E>>, before: Book, held: seq<set<nat>>, s: Views<V, E>,
                     i: nat, j: nat, hi: set<nat>, hj: set<nat>, t: Views<V, E>)
    requires i < |cells| && j < |cells| && |held| == |cells| == |s| == |t|
    requires before.Sound() && Partition(before, held) && rt.Valid()
    requires forall k, l :: 0 <= k < l < |cells| ==> cells[k] != cells[l]
    requires forall k {:trigger Shows(rt, cells[k], held[k], s[k])} ::
               0 <= k < |cells| && k != i && k != j ==> Shows(rt, cells[k], held[k], s[k])
    requires forall k :: 0 <= k < |cells| && k != i && k != j ==> t[k] == s[k]
    requires Shows(rt, cells[i], hi, t[i]) && Shows(rt, cells[j], hj, t[j])
    requires if i == j then hi == hj else hi !! hj
    requires Settled(before, rt.book, held[i] + held[j], hi + hj)
    ensures Denotes(rt, cells, t)
  {
    var held' := held[i := hi][j := hj];
    SettledKeepsPartition(before, rt.book, held, held', i, j);
    assert ConsistentWith(rt, cells, held', t);
  }

  method PerformBirth<V, E>(rt: Runtime<V, E>, cells: seq<Storage<V, E>>, op: Op<V, E>, ghost s: Views<V, E>)
    returns (end: End)
    requires op.ConstructEmpty? || op.ConstructValue? || op.ConstructError? || op.Clear? || op.Destruct?
    requires Denotes(rt, cells, s) && Ready(op, rt.vt, rt.et, s)
    modifies rt, cells
    ensures Denotes(rt, cells, Step(op, end, rt.vt, rt.et, s))
    ensures rt.Ran(end.threw, FateOf(op, rt.vt, rt.et, rt.faults, old(rt.clock), s))
    ensures end == EndOf(FateOf(op, rt.vt, rt.et, rt.faults, old(rt.clock), s))
  {
    ghost var held := Pick(rt, cells, s, op.i, op.i);
    ghost var before := rt.book;
    var threw, used := false, false;
    match op {
      case ConstructEmpty(i) => cells[i].ConstructEmpty();
      case ConstructValue(i, v, nothrow) =>
        threw := cells[i].ConstructValue(v, nothrow);
        used := !threw;
      case ConstructError(i, e, nothrow) =>
        threw := cells[i].ConstructError(e, nothrow);
        used := !threw;
      case Clear(i) => cells[i].Clear();
      case Destruct(i) => cells[i].Destruct();
    }
    end := End(threw, used);
    Settle(rt, cells, before, held, s, op.i, op.i, cells[op.i].Held(), cells[op.i].Held(),
           Step(op, end, rt.vt, rt.et, s));
  }

  method PerformConvert<V, E>(rt: Runtime<V, E>, cells: seq<Storage<V, E>>, op: Op<V, E>, ghost s: Views<V, E>)
    returns (end: End)
    requires op.AssignValue? || op.AssignError?
    requires Denotes(rt, cells, s) && Ready(op, rt.vt, rt.et, s)
    modifies rt, cells
    ensures Denotes(rt, cells, Step(op, end, rt.vt, rt.et, s))
    ensures rt.Ran(end.threw, FateOf(op, rt.vt, rt.et, rt.faults, old(rt.clock), s))
    ensures end == EndOf(FateOf(op, rt.vt, rt.et, rt.faults, old(rt.clock), s))
  {
    ghost var held := Pick(rt, cells, s, op.i, op.i);
    ghost var before := rt.book;
    var threw, used := false, false;
    match op {
      case AssignValue(i, v, nothrow) => threw, used := cells[i].AssignValue(v, nothrow);
      case AssignError(i, e, nothrow) => threw, used := cells[i].AssignError(e, nothrow);
    }
    end := End(threw, used);
    Settle(rt, cells, before, held, s, op.i, op.i, cells[op.i].Held(), cells[op.i].Held(),
           Step(op, end, rt.vt, rt.et, s));
  }

  method PerformSpecialBirth<V, E>(rt: Runtime<V, E>, cells: seq<Storage<V, E>>, op: Op<V, E>, ghost s: Views<V, E>)
    returns (end: End)
    requires op.RunSpecial? && op.Constructs()
    requires Denotes(rt, cells, s) && Ready(op, rt.vt, rt.et, s)
    modifies rt, cells
    ensures Denotes(rt, cells, Step(op, end, rt.vt, rt.et, s))
    ensures rt.Ran(end.threw, FateOf(op, rt.vt, rt.et, rt.faults, old(rt.clock), s))
    ensures end == EndOf(FateOf(op, rt.vt, rt.et, rt.faults, old(rt.clock), s))
  {
    ghost var held := Pick(rt, cells, s, op.i, op.j);
    ghost var before := rt.book;
    var threw, used := false, false;
    match op {
      case RunSpecial(i, j, m) => threw, used := cells[i].RunSpecial(m, cells[j]);
    }
    end := End(threw, used);
    Settle(rt, cells, before, held, s, op.i, op.j, cells[op.i].Held(), cells[op.j].Held(),
           Step(op, end, rt.vt, rt.et, s));
  }

  method PerformSpecialAssign<V, E>(rt: Runtime<V, E>, cells: seq<Storage<V, E>>, op: Op<V, E>, ghost s: Views<V, E>)
    returns (end: End)
    requires op.RunSpecial? && !op.Constructs()
    requires Denotes(rt, cells, s) && Ready(op, rt.vt, rt.et, s)
    modifies rt, cells
    ensures Denotes(rt, cells, Step(op, end, rt.vt, rt.et, s))
    ensures rt.Ran(end.threw, FateOf(op, rt.vt, rt.et, rt.faults, old(rt.clock), s))
    ensures end == EndOf(FateOf(op, rt.vt, rt.et, rt.faults, old(rt.clock), s))
  {
    ghost var held := Pick(rt, cells, s, op.i, op.j);
    ghost var before := rt.book;
    var threw, used := false, false;
    match op {
      case RunSpecial(i, j, m) => threw, used := cells[i].RunSpecial(m, cells[j]);
    }
    end := End(threw, used);
    Settle(rt, cells, before, held, s, op.i, op.j, cells[op.i].Held(), cells[op.j].Held(),
           Step(op, end, rt.vt, rt.et, s));
  }

  method PerformAssign<V, E>(rt: Runtime<V, E>, cells: seq<Storage<V, E>>, op: Op<V, E>, ghost s: Views<V, E>)
    returns (end: End)
    requires op.AssignFrom?
    requires Denotes(rt, cells, s) && Ready(op, rt.vt, rt.et, s)
    modifies rt, cells
    ensures Denotes(rt, cells, Step(op, end, rt.vt, rt.et, s))
    ensures rt.Ran(end.threw, FateOf(op, rt.vt, rt.et, rt.faults, old(rt.clock), s))
    ensures end == EndOf(FateOf(op, rt.vt, rt.et, rt.faults, old(rt.clock), s))
  {
    ghost var held := Pick(rt, cells, s, op.i, op.j);
    ghost var before := rt.book;
    var threw, used := false, false;
    match op {
      case AssignFrom(i, j, move) => threw, used := cells[i].Assign(cells[j], move);
    }
    end := End(threw, used);
    Settle(rt, cells, before, held, s, op.i, op.j, cells[op.i].Held(), cells[op.j].Held(),
           Step(op, end, rt.vt, rt.et, s));
  }

  method Perform<V, E>(rt: Runtime<V, E>, cells: seq<Storage<V, E>>, op: Op<V, E>, ghost s: Views<V, E>)
    returns (end: End)
    requires Denotes(rt, cells, s) && Ready(op, rt.vt, rt.et, s)
    modifies rt, cells
    ensures Denotes(rt, cells, Step(op, end, rt.vt, rt.et, s))
    ensures rt.Ran(end.threw, FateOf(op, rt.vt, rt.et, rt.faults, old(rt.clock), s))
    ensures end == EndOf(FateOf(op, rt.vt, rt.et, rt.faults, old(rt.clock), s))
  {
    if op.RunSpecial? && op.Constructs() {
      end := PerformSpecialBirth(rt, cells, op, s);
    } else if op.RunSpecial? {
      end := PerformSpecialAssign(rt, cells, op, s);
    } else if op.AssignFrom? {
      end := PerformAssign(rt, cells, op, s);
    } else if op.AssignValue? || op.AssignError? {
      end := PerformConvert(rt, cells, op, s);
    } else {
      end := PerformBirth(rt, cells, op, s);
    }
  }

  method IsReady<V, E>(rt: Runtime<V, E>, cells: seq<Storage<V, E>>, op: Op<V, E>, ghost s: Views<V, E>)
    returns (ready: bool)
    requires Denotes(rt, cells, s)
    ensures ready <==> Ready(op, rt.vt, rt.et, s)
  {
    if op.i >= |cells| { return false; }
    ghost var _ := Pick(rt, cells, s, op.i, op.i);
    var c := cells[op.i];
    if op.Constructs() == c.built { return false; }
    ready := true;
    if op.RunSpecial? || op.AssignFrom? {
      if op.j >= |cells| { return false; }
      ghost var _ := Pick(rt, cells, s, op.i, op.j);
      ready := cells[op.j].built && (op.i == op.j || Permits(op.Moves(), rt.vt, rt.et, c.State(), cells[op.j].State()));
    } else if op.AssignValue? {
      ready := c.which != Value || Replaceable(rt.vt, op.nothrow);
    } else if op.AssignError? {
      ready := c.which != Error || Replaceable(rt.et, op.nothrow);
    }
  }

  /** Runs a program from any consistent state, under the schedule of throws. Operations that the type
      constraints or the lifetimes rule out are not performed. The operations end, the objects are constructed
      and the storages denote as the three-state type says; Denotes includes that `which` names exactly the
      living member of every storage, and that nothing else is alive. */
  method RunProgram<V, E>(rt: Runtime<V, E>, cells: seq<Storage<V, E>>, ops: seq<Op<V, E>>, ghost s: Views<V, E>)
    returns (ends: seq<End>)
    requires Denotes(rt, cells, s)
    modifies rt, cells
    ensures var r := Meaning(ops, rt.vt, rt.et, rt.faults, old(Start(rt, s)));
      && ends == r.ends && rt.clock == r.clock && rt.book.born == r.born
      && Denotes(rt, cells, r.views)
  {
    ghost var start := Start(rt, s);
    ghost var r := start;
    ends := [];
    for n := 0 to |ops|
      invariant r == Meaning(ops[..n], rt.vt, rt.et, rt.faults, start)
      invariant ends == r.ends && rt.clock == r.clock && rt.book.born == r.born
      invariant Denotes(rt, cells, r.views)
    {
      var end := End(false, false);
      var ready := IsReady(rt, cells, ops[n], r.views);
      if ready {
        end := Perform(rt, cells, ops[n], r.views);
      }
      assert ops[..n + 1][..n] == ops[..n];
      ends := ends + [end];
      r := Meaning(ops[..n + 1], rt.vt, rt.et, rt.faults, start);
    }
    assert ops[..|ops|] == ops;
  }

  lemma NothingElseAlive<V, E>(rt: Runtime<V, E>, cells: seq<Storage<V, E>>, s: Views<V, E>)
    requires Denotes(rt, cells, s) && forall k :: 0 <= k < |s| ==> s[k] == None
    ensures rt.book.alive == {} && forall k :: 0 <= k < |cells| ==> !cells[k].built
  {
    var held :| ConsistentWith(rt, cells, held, s);
    forall k | 0 <= k < |held|
      ensures held[k] == {} && !cells[k].built
    {
      assert Shows(rt, cells[k], held[k], s[k]);
    }
  }

  /** Ends the scope of all the objects: nothing new is constructed, and each object that was alive is
      destroyed; so whatever has been constructed has been destroyed exactly once. */
  method TearDown<V, E>(rt: Runtime<V, E>, cells: seq<Storage<V, E>>, ghost s: Views<V, E>)
    requires Denotes(rt, cells, s)
    modifies rt, cells
    ensures forall k :: 0 <= k < |cells| ==> !cells[k].built
    ensures rt.clock == old(rt.clock)
    ensures rt.book == Book(old(rt.book.born), {}, old(rt.book.deaths) + multiset(old(rt.book.alive)))
    ensures forall id: nat :: rt.book.deaths[id] == if id < rt.book.born then 1 else 0
  {
    ghost var before := rt.book;
    ghost var now := s;
    for n := 0 to |cells|
      invariant Denotes(rt, cells, now) && rt.clock == old(rt.clock) && rt.book.born == before.born
      invariant forall k :: 0 <= k < n ==> now[k] == None
    {
      ghost var _ := Pick(rt, cells, now, n, n);
      if cells[n].built {
        var end := Perform(rt, cells, Destruct(n), now);
        now := Step(Destruct(n), end, rt.vt, rt.et, now);
      }
    }
    NothingElseAlive(rt, cells, now);
    OnceEach(before, rt.book);
  }

  /** Adding raw storage to a program changes nothing else. */
  lemma OneMore<V, E>(rt: Runtime<V, E>, cells: seq<Storage<V, E>>, c: Storage<V, E>, s: Views<V, E>)
    requires Denotes(rt, cells, s) && c !in cells && Shows(rt, c, {}, None)
    ensures Denotes(rt, cells + [c], s + [None])
  {
    var held :| ConsistentWith(rt, cells, held, s);
    PartitionWithNothing(rt.book, held);
    assert ConsistentWith(rt, cells + [c], held + [{}], s + [None]);
  }

  /** Asks every storage what it denotes. */
  method Observe<V, E>(rt: Runtime<V, E>, cells: seq<Storage<V, E>>, ghost s: Views<V, E>) returns (views: Views<V, E>)
    requires Denotes(rt, cells, s)
    ensures views == s
  {
    views := [];
    for n := 0 to |cells|
      invariant views == s[..n]
    {
      ghost var _ := Pick(rt, cells, s, n, n);
      views := views + [if cells[n].built then Some(cells[n].State()) else None];
    }
  }

  /** A whole program from beginning to end, for any member types, schedule of throws and number of objects.
      How operations end and what is observed is what the three-state type says; the objects constructed are
      as many as it says, and at the end each one has been destroyed exactly once. */
  method WholeProgram<V, E>(vt: Traits<V>, et: Traits<E>, faults: nat -> bool, size: nat, ops: seq<Op<V, E>>)
    returns (rt: Runtime<V, E>, ends: seq<End>, views: Views<V, E>)
    ensures rt.vt == vt && rt.et == et && rt.faults == faults
    ensures var r := Meaning(ops, vt, et, faults, Run([], 0, 0, seq(size, _ => None)));
      ends == r.ends && views == r.views && rt.clock == r.clock && rt.book.born == r.born
    ensures rt.book.alive == {}
    ensures forall id: nat :: rt.book.deaths[id] == if id < rt.book.born then 1 else 0
  {
    rt := new Runtime(vt, et, faults);
    var cells: seq<Storage<V, E>> := [];
    ghost var s: Views<V, E> := [];
    assert ConsistentWith(rt, cells, [], s);
    for n := 0 to size
      invariant fresh(rt) && (forall k :: 0 <= k < |cells| ==> fresh(cells[k])) && Denotes(rt, cells, s)
      invariant rt.vt == vt && rt.et == et && rt.faults == faults
      invariant rt.clock == rt.book.born == 0 && s == seq(n, _ => None)
    {
      ghost var held :| ConsistentWith(rt, cells, held, s);
      var c := new Storage(rt);
      OneMore(rt, cells, c, s);
      cells, s := cells + [c], s + [None];
    }
    ghost var r := Meaning(ops, vt, et, faults, Run([], 0, 0, s));
    ends := RunProgram(rt, cells, ops, s);
    views := Observe(rt, cells, r.views);
    TearDown(rt, cells, r.views);
  }

  /** The failure discipline, against that of the other library: a throw costs an object its member
      exactly when the assignment was changing the alternative. */
  lemma ThrowEmptiesExactlyOnSwitch<V, E>(op: Op<V, E>, used: bool, vt: Traits<V>, et: Traits<E>, s: Views<V, E>)
    requires Ready(op, vt, et, s) && !op.Constructs() && !op.Clear? && !op.Destruct?
    requires s[op.i].value.Holds?
    requires op.RunSpecial? || op.AssignFrom? ==> op.i != op.j && s[op.j].value.Holds?
    ensures var arrivesVal := if op.AssignValue? then true else if op.AssignError? then false
                              else s[op.j].value.sum.Val?;
            Step(op, End(true, used), vt, et, s)[op.i] == Some(Nothing) <==> s[op.i].value.sum.Val? != arrivesVal
  {
  }
}
