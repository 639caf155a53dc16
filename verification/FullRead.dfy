/** `wrapFull` and `wrapNoEintr` (FileUtilDetail.h) over `read` and `pread`, against an adversary that
    decides at every call whether it is interrupted, fails, or how short the transfer is. */
module FullRead {
  import opened Options

  type Byte = bv8

  /** What the system answers to one call: EINTR, another error, or a transfer. A transfer moves at least
      one byte unless none was asked for or none is left, and at most what was asked for and is left
      (POSIX.1-2017, System Interfaces, `read`); `Data(k)` stands for a transfer of up to k + 1 bytes. */
  datatype Response = Interrupted | Failed(errno: OtherErrno) | Data(k: nat)

  const EINTR: int := 4
  type OtherErrno = e: int | e != EINTR witness 5

  type Schedule = nat -> Response

  function Min(a: nat, b: nat): nat {
    if a < b then a else b
  }

  /** How many bytes a transfer moves when `want` are asked for and `left` are left in the file. */
  function Moved(k: nat, want: nat, left: nat): (n: nat)
    ensures n <= want && n <= left && (n == 0 <==> want == 0 || left == 0)
  {
    Min(k + 1, Min(want, left))
  }

  /** The adversary can make a transfer as short as it likes. */
  lemma TransfersAreArbitrary(want: nat, left: nat, n: nat)
    requires 0 < n <= want && n <= left
    ensures Moved(n - 1, want, left) == n
  {
  }

  /** Every run of consecutive interruptions is finite. */
  ghost predicate Fair(sched: Schedule) {
    forall t: nat :: Answered(sched, t)
  }

  ghost predicate Answered(sched: Schedule, t: nat) {
    exists u: nat :: t <= u && !sched(u).Interrupted?
  }

  predicate Skips(sched: Schedule, i: nat) {
    sched(i).Interrupted?
  }

  function Scan(sched: Schedule, t: nat, u: nat): (a: nat)
    requires t <= u && !sched(u).Interrupted?
    ensures t <= a <= u && !sched(a).Interrupted?
    ensures forall i :: t <= i < a ==> Skips(sched, i)
    decreases u - t
  {
    if sched(t).Interrupted? then Scan(sched, t + 1, u) else t
  }

  /** The first call from t on that is not interrupted. */
  ghost function FirstAnswer(sched: Schedule, t: nat): (a: nat)
    requires Fair(sched)
    ensures t <= a && !sched(a).Interrupted?
    ensures forall i :: t <= i < a ==> Skips(sched, i)
  {
    assert Answered(sched, t);
    var u: nat :| t <= u && !sched(u).Interrupted?;
    Scan(sched, t, u)
  }

  /** How many interruptions come before the next other answer. */
  ghost function Gap(sched: Schedule, t: nat): nat
    requires Fair(sched)
  {
    FirstAnswer(sched, t) - t
  }

  lemma GapShrinks(sched: Schedule, t: nat)
    requires Fair(sched) && sched(t).Interrupted?
    ensures FirstAnswer(sched, t + 1) == FirstAnswer(sched, t)
    ensures Gap(sched, t + 1) < Gap(sched, t)
  {
    var a, b := FirstAnswer(sched, t), FirstAnswer(sched, t + 1);
    assert a > t && !Skips(sched, a) && !Skips(sched, b);
  }

  /** How a full read ends: at which call, after how many bytes, and with which error if any. */
  datatype Outcome = Outcome(tick: nat, moved: nat, error: Option<OtherErrno>)

  function Later(n: nat, o: Outcome): Outcome {
    o.(moved := n + o.moved)
  }

  /** A full read over the raw call, from call t on, with `want` bytes to go and `left` in the file. */
  function Plan(sched: Schedule, t: nat, want: nat, left: nat): Outcome
    requires Fair(sched)
    decreases want, Gap(sched, t)
  {
    match sched(t)
    case Interrupted =>
      if want == 0 then Outcome(t + 1, 0, None)
      else (GapShrinks(sched, t); Plan(sched, t + 1, want, left))
    case Failed(e) => Outcome(t + 1, 0, Some(e))
    case Data(k) =>
      var n := Moved(k, want, left);
      if n == 0 || want == n then Outcome(t + 1, n, None)
      else Later(n, Plan(sched, t + 1, want - n, left - n))
  }

  /** A full read over the call wrapped in `wrapNoEintr`: every answer is a real one. */
  ghost function PlanNoEintr(sched: Schedule, t: nat, want: nat, left: nat): Outcome
    requires Fair(sched)
    decreases want
  {
    var a := FirstAnswer(sched, t);
    match sched(a)
    case Failed(e) => Outcome(a + 1, 0, Some(e))
    case Data(k) =>
      var n := Moved(k, want, left);
      if n == 0 || want == n then Outcome(a + 1, n, None)
      else Later(n, PlanNoEintr(sched, a + 1, want - n, left - n))
  }

  /** With anything to read, the two are indistinguishable: same bytes, same error, same calls used up. */
  lemma {:induction false} WrappingIsInvisible(sched: Schedule, t: nat, want: nat, left: nat)
    requires Fair(sched) && want > 0
    ensures Plan(sched, t, want, left) == PlanNoEintr(sched, t, want, left)
    decreases want, Gap(sched, t)
  {
    match sched(t)
    case Interrupted =>
      GapShrinks(sched, t);
      WrappingIsInvisible(sched, t + 1, want, left);
    case Failed(e) =>
      assert FirstAnswer(sched, t) == t;
    case Data(k) =>
      assert FirstAnswer(sched, t) == t;
      var n := Moved(k, want, left);
      if 0 < n < want {
        WrappingIsInvisible(sched, t + 1, want - n, left - n);
      }
  }

  /** With nothing to read, they agree exactly when the first call is not interrupted. */
  lemma WrappingNothingIff(sched: Schedule, t: nat, left: nat)
    requires Fair(sched)
    ensures Plan(sched, t, 0, left) == PlanNoEintr(sched, t, 0, left) <==> !sched(t).Interrupted?
  {
    if !sched(t).Interrupted? {
      assert FirstAnswer(sched, t) == t;
    }
  }

  /** Whatever the schedule: without an error, all that was asked for and is there has been moved; with
      one, less than that. */
  lemma {:induction false} OutcomeIgnoresSchedule(sched: Schedule, t: nat, want: nat, left: nat)
    requires Fair(sched)
    ensures var o := Plan(sched, t, want, left);
      && (o.error == None ==> o.moved == Min(want, left))
      && (o.error.Some? ==> o.moved <= Min(want, left) && (want > 0 ==> o.moved < want))
    decreases want, Gap(sched, t)
  {
    match sched(t)
    case Interrupted =>
      if want > 0 {
        GapShrinks(sched, t);
        OutcomeIgnoresSchedule(sched, t + 1, want, left);
      }
    case Failed(e) =>
    case Data(k) =>
      var n := Moved(k, want, left);
      if 0 < n < want {
        OutcomeIgnoresSchedule(sched, t + 1, want - n, left - n);
      }
  }

  /** It ends with an error exactly when it meets one: the last call is then the first failed one. */
  lemma {:induction false} ErrorIffLastCallFailed(sched: Schedule, t: nat, want: nat, left: nat)
    requires Fair(sched)
    ensures var o := Plan(sched, t, want, left);
      && t < o.tick
      && (forall i :: t <= i < o.tick - 1 ==> !sched(i).Failed?)
      && (o.error.Some? <==> sched(o.tick - 1).Failed?)
      && (o.error.Some? ==> sched(o.tick - 1) == Failed(o.error.value))
    decreases want, Gap(sched, t)
  {
    match sched(t)
    case Interrupted =>
      if want > 0 {
        GapShrinks(sched, t);
        ErrorIffLastCallFailed(sched, t + 1, want, left);
      }
    case Failed(e) =>
    case Data(k) =>
      var n := Moved(k, want, left);
      if 0 < n < want {
        ErrorIffLastCallFailed(sched, t + 1, want - n, left - n);
      }
  }

  /** The calls from t up to u that were not interrupted. */
  function Answers(sched: Schedule, t: nat, u: nat): nat
    requires t <= u
    decreases u - t
  {
    if t == u then 0 else (if sched(t).Interrupted? then 0 else 1) + Answers(sched, t + 1, u)
  }

  lemma {:induction false} AnswersAreBounded(sched: Schedule, t: nat, want: nat, left: nat)
    requires Fair(sched)
    ensures var o := Plan(sched, t, want, left);
            t < o.tick && Answers(sched, t, o.tick) <= if want == 0 then 1 else want
    decreases want, Gap(sched, t)
  {
    ErrorIffLastCallFailed(sched, t, want, left);
    match sched(t)
    case Interrupted =>
      if want > 0 {
        GapShrinks(sched, t);
        AnswersAreBounded(sched, t + 1, want, left);
      }
    case Failed(e) =>
    case Data(k) =>
      var n := Moved(k, want, left);
      if 0 < n < want {
        AnswersAreBounded(sched, t + 1, want - n, left - n);
      }
  }
}
