/** The three storage layouts of `hy::expected` run the same programs to the same observations. */
module TinyLayouts {
  import opened Options
  import opened Lifetimes
  import opened TinyExpected
  import opened TinyRuns
  import opened TinyPod

  ghost predicate UnionDenotes(z: Sizes, cells: seq<PodUnion>, s: Views<Bytes, Bytes>)
    reads cells
  {
    && |s| == |cells|
    && (forall k, l :: 0 <= k < l < |cells| ==> cells[k] != cells[l])
    && (forall k :: 0 <= k < |cells| ==>
          && cells[k].z == z && cells[k].Valid()
          && s[k] == if cells[k].built then Some(cells[k].View()) else None)
  }

  ghost predicate StructDenotes(cells: seq<PodStruct>, s: Views<Bytes, Bytes>)
    reads cells
  {
    && |s| == |cells|
    && (forall k, l :: 0 <= k < l < |cells| ==> cells[k] != cells[l])
    && (forall k :: 0 <= k < |cells| ==> s[k] == if cells[k].built then Some(cells[k].View()) else None)
  }

  /** The sum-type meaning of an operation on trivial types, of which none throws. */
  function TrivialStep(op: Op<Bytes, Bytes>, s: Views<Bytes, Bytes>): Views<Bytes, Bytes> {
    Step(op, false, Trivial(), Trivial(), s)
  }

  function TrivialMeaning(ops: seq<Op<Bytes, Bytes>>, s: Views<Bytes, Bytes>): Views<Bytes, Bytes> {
    if ops == [] then s else TrivialStep(ops[|ops| - 1], TrivialMeaning(ops[..|ops| - 1], s))
  }

  /** The conversion of the operation's argument, if it has one, does not throw. */
  predicate Plain(op: Op<Bytes, Bytes>) {
    && (op.ConstructValue? || op.ConstructError? ==> op.nothrow)
    && (op.AssignValue? || op.AssignError? ==> op.nothrowConstruct && op.nothrowAssign)
  }

  lemma NothingThrows(op: Op<Bytes, Bytes>, faults: nat -> bool, clock: nat, s: Views<Bytes, Bytes>)
    requires Plain(op) || forall n :: !faults(n)
    ensures !Throws(op, Trivial(), Trivial(), faults, clock, s)
  {
  }

  method PerformUnionAlone(z: Sizes, cells: seq<PodUnion>, op: Op<Bytes, Bytes>, ghost s: Views<Bytes, Bytes>)
    requires UnionDenotes(z, cells, s) && Ready(op, Trivial(), Trivial(), s) && Sized(z, op)
    requires !(op.CopyConstruct? || op.MoveConstruct? || op.CopyAssign? || op.MoveAssign? || op.Swap?)
    modifies cells
    ensures UnionDenotes(z, cells, TrivialStep(op, s))
  {
    match op
    case ConstructValue(i, v, _) => cells[i].ConstructValue(v);
    case ConstructError(i, e, _) => cells[i].ConstructError(e);
    case Destruct(i) => cells[i].built := false;
    case AssignValue(i, v, _, _) => cells[i].AssignValue(v);
    case AssignError(i, e, _, _) => cells[i].AssignError(e);
  }

  method PerformUnionCopy(z: Sizes, cells: seq<PodUnion>, op: Op<Bytes, Bytes>, ghost s: Views<Bytes, Bytes>)
    requires UnionDenotes(z, cells, s) && Ready(op, Trivial(), Trivial(), s) && Sized(z, op)
    requires op.CopyConstruct? || op.MoveConstruct? || op.CopyAssign? || op.MoveAssign?
    modifies cells
    ensures UnionDenotes(z, cells, TrivialStep(op, s))
  {
    match op
    case CopyConstruct(i, j) => cells[i].Copy(cells[j]);
    case MoveConstruct(i, j) => cells[i].Copy(cells[j]);
    case CopyAssign(i, j) => cells[i].Copy(cells[j]);
    case MoveAssign(i, j) => cells[i].Copy(cells[j]);
  }

  method PerformOnUnion(z: Sizes, cells: seq<PodUnion>, op: Op<Bytes, Bytes>, ghost s: Views<Bytes, Bytes>)
    requires UnionDenotes(z, cells, s) && Ready(op, Trivial(), Trivial(), s) && Sized(z, op)
    modifies cells
    ensures UnionDenotes(z, cells, TrivialStep(op, s))
  {
    if op.CopyConstruct? || op.MoveConstruct? || op.CopyAssign? || op.MoveAssign? {
      PerformUnionCopy(z, cells, op, s);
    } else if op.Swap? {
      cells[op.i].Swap(cells[op.j]);
    } else {
      PerformUnionAlone(z, cells, op, s);
    }
  }

  method PerformStructAlone(cells: seq<PodStruct>, op: Op<Bytes, Bytes>, ghost s: Views<Bytes, Bytes>)
    requires StructDenotes(cells, s) && Ready(op, Trivial(), Trivial(), s)
    requires !(op.CopyConstruct? || op.MoveConstruct? || op.CopyAssign? || op.MoveAssign? || op.Swap?)
    modifies cells
    ensures StructDenotes(cells, TrivialStep(op, s))
  {
    match op
    case ConstructValue(i, v, _) => cells[i].ConstructValue(v);
    case ConstructError(i, e, _) => cells[i].ConstructError(e);
    case Destruct(i) => cells[i].built := false;
    case AssignValue(i, v, _, _) => cells[i].AssignValue(v);
    case AssignError(i, e, _, _) => cells[i].AssignError(e);
  }

  method PerformStructCopy(cells: seq<PodStruct>, op: Op<Bytes, Bytes>, ghost s: Views<Bytes, Bytes>)
    requires StructDenotes(cells, s) && Ready(op, Trivial(), Trivial(), s)
    requires op.CopyConstruct? || op.MoveConstruct? || op.CopyAssign? || op.MoveAssign?
    modifies cells
    ensures StructDenotes(cells, TrivialStep(op, s))
  {
    match op
    case CopyConstruct(i, j) => cells[i].Copy(cells[j]);
    case MoveConstruct(i, j) => cells[i].Copy(cells[j]);
    case CopyAssign(i, j) => cells[i].Copy(cells[j]);
    case MoveAssign(i, j) => cells[i].Copy(cells[j]);
  }

  method PerformOnStruct(cells: seq<PodStruct>, op: Op<Bytes, Bytes>, ghost s: Views<Bytes, Bytes>)
    requires StructDenotes(cells, s) && Ready(op, Trivial(), Trivial(), s)
    modifies cells
    ensures StructDenotes(cells, TrivialStep(op, s))
  {
    if op.CopyConstruct? || op.MoveConstruct? || op.CopyAssign? || op.MoveAssign? {
      PerformStructCopy(cells, op, s);
    } else if op.Swap? {
      cells[op.i].Swap(cells[op.j]);
    } else {
      PerformStructAlone(cells, op, s);
    }
  }

  method StepPods(z: Sizes, podUnions: seq<PodUnion>, podStructs: seq<PodStruct>,
                  op: Op<Bytes, Bytes>, ghost s: Views<Bytes, Bytes>)
    requires UnionDenotes(z, podUnions, s) && StructDenotes(podStructs, s)
    requires Ready(op, Trivial(), Trivial(), s) && Sized(z, op)
    modifies podUnions, podStructs
    ensures UnionDenotes(z, podUnions, TrivialStep(op, s)) && StructDenotes(podStructs, TrivialStep(op, s))
  {
    PerformOnStruct(podStructs, op, s);
    PerformOnUnion(z, podUnions, op, s);
  }

  method StepLayouts(rt: Runtime<Bytes, Bytes>, unions: seq<Expected<Bytes, Bytes>>,
                     z: Sizes, podUnions: seq<PodUnion>, podStructs: seq<PodStruct>,
                     op: Op<Bytes, Bytes>, s: Views<Bytes, Bytes>)
    requires rt.vt == Trivial() && rt.et == Trivial() && (Plain(op) || rt.Calm()) && Sized(z, op)
    requires Denotes(rt, unions, s) && UnionDenotes(z, podUnions, s) && StructDenotes(podStructs, s)
    modifies rt, unions, podUnions, podStructs
    ensures Denotes(rt, unions, TrivialStep(op, s))
    ensures UnionDenotes(z, podUnions, TrivialStep(op, s))
    ensures StructDenotes(podStructs, TrivialStep(op, s))
  {
    if Ready(op, Trivial(), Trivial(), s) {
      StepPods(z, podUnions, podStructs, op, s);
      NothingThrows(op, rt.faults, rt.clock, s);
      var threw := Perform(rt, unions, op, s);
    }
  }

  /** Runs one program on the three layouts side by side. Trivial types never throw, so this is under every
      schedule as long as the conversions of arguments do not throw. At every step all three denote the same values
      and errors, those of the sum type, whatever the trivial forms keep in their inactive bytes. */
  method RunLayouts(rt: Runtime<Bytes, Bytes>, unions: seq<Expected<Bytes, Bytes>>,
                    z: Sizes, podUnions: seq<PodUnion>, podStructs: seq<PodStruct>,
                    ops: seq<Op<Bytes, Bytes>>, s: Views<Bytes, Bytes>)
    requires rt.vt == Trivial() && rt.et == Trivial()
    requires forall n :: 0 <= n < |ops| ==> Sized(z, ops[n]) && (Plain(ops[n]) || rt.Calm())
    requires Denotes(rt, unions, s) && UnionDenotes(z, podUnions, s) && StructDenotes(podStructs, s)
    modifies rt, unions, podUnions, podStructs
    ensures Denotes(rt, unions, TrivialMeaning(ops, s))
    ensures UnionDenotes(z, podUnions, TrivialMeaning(ops, s))
    ensures StructDenotes(podStructs, TrivialMeaning(ops, s))
  {
    var now := s;
    for n := 0 to |ops|
      invariant now == TrivialMeaning(ops[..n], s)
      invariant Denotes(rt, unions, now) && UnionDenotes(z, podUnions, now) && StructDenotes(podStructs, now)
    {
      StepLayouts(rt, unions, z, podUnions, podStructs, ops[n], now);
      assert ops[..n + 1][..n] == ops[..n];
      now := TrivialStep(ops[n], now);
    }
    assert ops[..|ops|] == ops;
  }
}
