/** The two trivial storages of Expected_folly.hpp, and when they agree with the union storage. */
module FollyForms {
  import opened Options
  import opened Lifetimes
  import opened FollyExpected
  import opened FollyRuns
  import opened TinyPod

  type PlainViews = Views<Bytes, Bytes>
  type PlainOp = Op<Bytes, Bytes>

  /** The union storage's meaning of an operation on trivial types, of which none throws. */
  function UnionStep(op: PlainOp, s: PlainViews): PlainViews {
    Step(op, End(false, true), Trivial(), Trivial(), s)
  }

  /** The trivial storages' meaning: `clear` does nothing, and hence neither does `assign` from an empty
      storage; the defaulted copies do copy emptiness. */
  function PlainStep(op: PlainOp, s: PlainViews): PlainViews {
    if !Ready(op, Trivial(), Trivial(), s) then s
    else match op
      case RunSpecial(i, j, _) => s[i := s[j]]
      case AssignFrom(i, j, _) => if s[j].value == Nothing then s else s[i := s[j]]
      case Clear(i) => s
      case _ => UnionStep(op, s)
  }

  function UnionMeaning(ops: seq<PlainOp>, s: PlainViews): PlainViews {
    if ops == [] then s else UnionStep(ops[|ops| - 1], UnionMeaning(ops[..|ops| - 1], s))
  }

  function PlainMeaning(ops: seq<PlainOp>, s: PlainViews): PlainViews {
    if ops == [] then s else PlainStep(ops[|ops| - 1], PlainMeaning(ops[..|ops| - 1], s))
  }

  /** Whether the operation would empty, in the union storage only, an object that is not empty. */
  predicate Empties(op: PlainOp, s: PlainViews) {
    && Ready(op, Trivial(), Trivial(), s)
    && (op.Clear? || (op.AssignFrom? && s[op.j].value == Nothing))
    && s[op.i].value != Nothing
  }

  lemma SpendingIsCopying(s: State<Bytes, Bytes>)
    ensures SpentState(Trivial(), Trivial(), s) == s
  {
  }

  /** One step: the forms agree exactly when it empties nothing. */
  lemma StepsAgreeIff(op: PlainOp, s: PlainViews)
    ensures PlainStep(op, s) == UnionStep(op, s) <==> !Empties(op, s)
  {
    if Ready(op, Trivial(), Trivial(), s) {
      match op {
        case RunSpecial(i, j, m) =>
          SpendingIsCopying(s[j].value);
          assert PlainStep(op, s) == UnionStep(op, s);
        case AssignFrom(i, j, move) =>
          SpendingIsCopying(s[j].value);
          assert UnionStep(op, s) == s[i := s[j]];
          assert i == j ==> s[i := s[j]] == s;
          assert s[j].value == Nothing && s[i].value != Nothing ==> UnionStep(op, s)[i] != s[i];
        case Clear(i) =>
          assert UnionStep(op, s)[i] == Some(Nothing);
        case _ =>
      }
    }
  }

  /** Throughout a program, the forms have gone through the same states. */
  predicate SameStates(ops: seq<PlainOp>, s: PlainViews) {
    && PlainMeaning(ops, s) == UnionMeaning(ops, s)
    && (ops != [] ==> SameStates(ops[..|ops| - 1], s))
  }

  /** Throughout a program, the union storage has emptied nothing. */
  predicate NothingEmptied(ops: seq<PlainOp>, s: PlainViews) {
    ops != [] ==>
      && !Empties(ops[|ops| - 1], UnionMeaning(ops[..|ops| - 1], s))
      && NothingEmptied(ops[..|ops| - 1], s)
  }

  /** Whole programs: the forms agree exactly when nothing is emptied. */
  lemma {:induction false} ProgramsAgreeIff(ops: seq<PlainOp>, s: PlainViews)
    ensures SameStates(ops, s) <==> NothingEmptied(ops, s)
  {
    if ops != [] {
      var k := |ops| - 1;
      ProgramsAgreeIff(ops[..k], s);
      StepsAgreeIff(ops[k], UnionMeaning(ops[..k], s));
    }
  }

  ghost predicate NoneEmpty(s: PlainViews) {
    forall k :: 0 <= k < |s| && s[k].Some? ==> s[k].value.Holds?
  }

  /** In particular, programs that never make or clear an empty storage cannot tell the forms apart. */
  lemma {:induction false} NonEmptyProgramsAgree(ops: seq<PlainOp>, s: PlainViews)
    requires NoneEmpty(s)
    requires forall n :: 0 <= n < |ops| ==> !ops[n].ConstructEmpty? && !ops[n].Clear?
    ensures NoneEmpty(UnionMeaning(ops, s)) && SameStates(ops, s)
  {
    if ops != [] {
      var k := |ops| - 1;
      NonEmptyProgramsAgree(ops[..k], s);
      StepsAgreeIff(ops[k], UnionMeaning(ops[..k], s));
    }
  }

  class PlainUnion {
    const z: Sizes
    var built: bool
    var which: Which
    var bytes: Bytes

    constructor (z: Sizes, garbage: Bytes)
      requires |garbage| == z.Whole()
      ensures this.z == z && !built && Valid()
    {
      this.z, built, which, bytes := z, false, Empty, garbage;
    }

    ghost predicate Valid()
      reads this
    {
      |bytes| == z.Whole()
    }

    function State(): State<Bytes, Bytes>
      requires Valid()
      reads this
    {
      match which
      case Empty => Nothing
      case Value => Holds(Val(bytes[..z.value]))
      case Error => Holds(Err(bytes[..z.error]))
    }

    method ConstructEmpty()
      requires Valid()
      modifies this
      ensures Valid() && built && State() == Nothing
    {
      built, which := true, Empty;
    }

    method AssignValue(v: Bytes)
      requires Valid() && |v| == z.value
      modifies this`which, this`bytes
      ensures Valid() && State() == Holds(Val(v))
    {
      bytes := Put(bytes, v);
      which := Value;
    }

    method AssignError(e: Bytes)
      requires Valid() && |e| == z.error
      modifies this`which, this`bytes
      ensures Valid() && State() == Holds(Err(e))
    {
      bytes := Put(bytes, e);
      which := Error;
    }

    /** The trivial `clear` has nothing to destroy and does not touch `which`. */
    method Clear()
      requires Valid()
      ensures Valid() && State() == old(State())
    {
    }

    method Assign(other: PlainUnion)
      requires Valid() && other.Valid() && other.z == z
      modifies this`which, this`bytes
      ensures Valid() && other.Valid()
      ensures State() == if old(other.State()) == Nothing then old(State()) else old(other.State())
    {
      match other.which {
        case Value => AssignValue(other.bytes[..z.value]);
        case Error => AssignError(other.bytes[..z.error]);
        case Empty => Clear();
      }
    }

    /** The defaulted special members copy the representation. */
    method Copy(other: PlainUnion)
      requires other.Valid() && other.z == z && other.built
      modifies this
      ensures Valid() && built && State() == old(other.State())
    {
      built, which, bytes := true, other.which, other.bytes;
    }
  }

  class PlainStruct {
    var built: bool
    var which: Which
    var error: Bytes
    var value: Bytes

    constructor ()
      ensures !built
    {
      built, which, error, value := false, Empty, [], [];
    }

    function State(): State<Bytes, Bytes>
      reads this
    {
      match which
      case Empty => Nothing
      case Value => Holds(Val(value))
      case Error => Holds(Err(error))
    }

    method ConstructEmpty()
      modifies this
      ensures built && State() == Nothing
    {
      built, which := true, Empty;
    }

    method AssignValue(v: Bytes)
      modifies this`which, this`value
      ensures State() == Holds(Val(v))
    {
      value := v;
      which := Value;
    }

    method AssignError(e: Bytes)
      modifies this`which, this`error
      ensures State() == Holds(Err(e))
    {
      error := e;
      which := Error;
    }

    method Clear()
      ensures State() == old(State())
    {
    }

    method Assign(other: PlainStruct)
      modifies this`which, this`value, this`error
      ensures State() == if old(other.State()) == Nothing then old(State()) else old(other.State())
    {
      match other.which {
        case Value => AssignValue(other.value);
        case Error => AssignError(other.error);
        case Empty => Clear();
      }
    }

    method Copy(other: PlainStruct)
      requires other.built
      modifies this
      ensures built && State() == old(other.State())
      ensures value == old(other.value) && error == old(other.error)
    {
      built, which, value, error := true, other.which, other.value, other.error;
    }
  }

  /** The bytes an operation brings in have the sizes of the member types. */
  predicate Fitting(z: Sizes, op: PlainOp) {
    && (op.ConstructValue? || op.AssignValue? ==> |op.v| == z.value)
    && (op.ConstructError? || op.AssignError? ==> |op.e| == z.error)
  }

  ghost predicate PlainUnionDenotes(z: Sizes, cells: seq<PlainUnion>, s: PlainViews)
    reads cells
  {
    && |s| == |cells|
    && (forall k, l :: 0 <= k < l < |cells| ==> cells[k] != cells[l])
    && (forall k :: 0 <= k < |cells| ==>
          && cells[k].z == z && cells[k].Valid()
          && s[k] == if cells[k].built then Some(cells[k].State()) else None)
  }

  ghost predicate PlainStructDenotes(cells: seq<PlainStruct>, s: PlainViews)
    reads cells
  {
    && |s| == |cells|
    && (forall k, l :: 0 <= k < l < |cells| ==> cells[k] != cells[l])
    && (forall k :: 0 <= k < |cells| ==> s[k] == if cells[k].built then Some(cells[k].State()) else None)
  }

  method PerformPlainUnion(z: Sizes, cells: seq<PlainUnion>, op: PlainOp, ghost s: PlainViews)
    requires PlainUnionDenotes(z, cells, s) && Ready(op, Trivial(), Trivial(), s) && Fitting(z, op)
    modifies cells
    ensures PlainUnionDenotes(z, cells, PlainStep(op, s))
  {
    var c := cells[op.i];
    match op
    case ConstructEmpty(i) => c.ConstructEmpty();
    case ConstructValue(i, v, _) => c.AssignValue(v); c.built := true;
    case ConstructError(i, e, _) => c.AssignError(e); c.built := true;
    case RunSpecial(i, j, _) => c.Copy(cells[j]);
    case AssignFrom(i, j, _) => c.Assign(cells[j]);
    case AssignValue(i, v, _) => c.AssignValue(v);
    case AssignError(i, e, _) => c.AssignError(e);
    case Clear(i) => c.Clear();
    case Destruct(i) => c.built := false;
  }

  method PerformPlainStruct(cells: seq<PlainStruct>, op: PlainOp, ghost s: PlainViews)
    requires PlainStructDenotes(cells, s) && Ready(op, Trivial(), Trivial(), s)
    modifies cells
    ensures PlainStructDenotes(cells, PlainStep(op, s))
  {
    var c := cells[op.i];
    match op
    case ConstructEmpty(i) => c.ConstructEmpty();
    case ConstructValue(i, v, _) => c.AssignValue(v); c.built := true;
    case ConstructError(i, e, _) => c.AssignError(e); c.built := true;
    case RunSpecial(i, j, _) => c.Copy(cells[j]);
    case AssignFrom(i, j, _) => c.Assign(cells[j]);
    case AssignValue(i, v, _) => c.AssignValue(v);
    case AssignError(i, e, _) => c.AssignError(e);
    case Clear(i) => c.Clear();
    case Destruct(i) => c.built := false;
  }


  /** Runs one program on the three storages side by side, under every schedule as long as the conversions of
      arguments do not throw: the trivial ones denote what PlainMeaning says, the union storage what
      UnionMeaning says. */
  method RunForms(rt: Runtime<Bytes, Bytes>, storages: seq<Storage<Bytes, Bytes>>,
                  z: Sizes, plainUnions: seq<PlainUnion>, plainStructs: seq<PlainStruct>,
                  ops: seq<PlainOp>, s: PlainViews)
    requires rt.vt == Trivial() && rt.et == Trivial()
    requires forall n :: 0 <= n < |ops| ==> Fitting(z, ops[n]) && (Plain(ops[n]) || rt.Calm())
    requires Denotes(rt, storages, s) && PlainUnionDenotes(z, plainUnions, s) && PlainStructDenotes(plainStructs, s)
    modifies rt, storages, plainUnions, plainStructs
    ensures Denotes(rt, storages, UnionMeaning(ops, s))
    ensures PlainUnionDenotes(z, plainUnions, PlainMeaning(ops, s))
    ensures PlainStructDenotes(plainStructs, PlainMeaning(ops, s))
  {
    RunPlain(z, plainUnions, plainStructs, ops, s);
    RunUnion(rt, storages, ops, s);
  }

  method StepPlain(z: Sizes, plainUnions: seq<PlainUnion>, plainStructs: seq<PlainStruct>, op: PlainOp, s: PlainViews)
    requires Fitting(z, op) && PlainUnionDenotes(z, plainUnions, s) && PlainStructDenotes(plainStructs, s)
    modifies plainUnions, plainStructs
    ensures PlainUnionDenotes(z, plainUnions, PlainStep(op, s))
    ensures PlainStructDenotes(plainStructs, PlainStep(op, s))
  {
    if Ready(op, Trivial(), Trivial(), s) {
      PerformPlainStruct(plainStructs, op, s);
      PerformPlainUnion(z, plainUnions, op, s);
    }
  }

  method RunPlain(z: Sizes, plainUnions: seq<PlainUnion>, plainStructs: seq<PlainStruct>, ops: seq<PlainOp>,
                  s: PlainViews)
    requires forall n :: 0 <= n < |ops| ==> Fitting(z, ops[n])
    requires PlainUnionDenotes(z, plainUnions, s) && PlainStructDenotes(plainStructs, s)
    modifies plainUnions, plainStructs
    ensures PlainUnionDenotes(z, plainUnions, PlainMeaning(ops, s))
    ensures PlainStructDenotes(plainStructs, PlainMeaning(ops, s))
  {
    var now := s;
    for n := 0 to |ops|
      invariant now == PlainMeaning(ops[..n], s)
      invariant PlainUnionDenotes(z, plainUnions, now) && PlainStructDenotes(plainStructs, now)
    {
      StepPlain(z, plainUnions, plainStructs, ops[n], now);
      assert ops[..n + 1][..n] == ops[..n];
      now := PlainStep(ops[n], now);
    }
    assert ops[..|ops|] == ops;
  }

  method RunUnion(rt: Runtime<Bytes, Bytes>, storages: seq<Storage<Bytes, Bytes>>, ops: seq<PlainOp>, s: PlainViews)
    requires rt.vt == Trivial() && rt.et == Trivial() && Denotes(rt, storages, s)
    requires forall n :: 0 <= n < |ops| ==> Plain(ops[n]) || rt.Calm()
    modifies rt, storages
    ensures Denotes(rt, storages, UnionMeaning(ops, s))
  {
    var now := s;
    for n := 0 to |ops|
      invariant now == UnionMeaning(ops[..n], s)
      invariant Denotes(rt, storages, now)
    {
      if Ready(ops[n], Trivial(), Trivial(), now) {
        NothingThrows(ops[n], rt.faults, rt.clock, now);
        var end := Perform(rt, storages, ops[n], now);
        CalmStep(ops[n], end, now);
      }
      assert ops[..n + 1][..n] == ops[..n];
      now := UnionStep(ops[n], now);
    }
    assert ops[..|ops|] == ops;
  }

  /** The conversion of the operation's argument, if it has one, does not throw. */
  predicate Plain(op: PlainOp) {
    op.ConstructValue? || op.ConstructError? || op.AssignValue? || op.AssignError? ==> op.nothrow
  }

  lemma NothingThrows(op: PlainOp, faults: nat -> bool, clock: nat, s: PlainViews)
    requires Plain(op) || forall n :: !faults(n)
    ensures !FateOf(op, Trivial(), Trivial(), faults, clock, s).threw
  {
  }

  /** For trivial types it makes no difference whether the argument counts as consumed. */
  lemma CalmStep(op: PlainOp, end: End, s: PlainViews)
    requires !end.threw
    ensures Step(op, end, Trivial(), Trivial(), s) == UnionStep(op, s)
  {
    if Ready(op, Trivial(), Trivial(), s) {
      match op {
        case RunSpecial(i, j, m) => SpendingIsCopying(s[j].value);
        case AssignFrom(i, j, move) => SpendingIsCopying(s[j].value);
        case _ =>
      }
    }
  }
}
