/** The loops of FileUtilDetail.h over an open file and a buffer that is filled in place. */
module Descriptor {
  import opened Options
  import opened FullRead

  function Left(file: seq<Byte>, start: nat): nat {
    if start <= |file| then |file| - start else 0
  }

  /** Where the file position is after a call that returned r: only `read` moves it. */
  function Advanced(pos: nat, offset: Option<nat>, r: int): nat {
    if offset.None? && r > 0 then pos + r else pos
  }

  lemma FirstAnswerMoves(sched: Schedule, t: nat)
    requires Fair(sched)
    ensures FirstAnswer(sched, t) == if sched(t).Interrupted? then FirstAnswer(sched, t + 1) else t
  {
    if sched(t).Interrupted? { GapShrinks(sched, t); }
  }

  /** How a full read is to end: over the raw call or over the wrapped one. */
  ghost function Ending(wrapped: bool, sched: Schedule, t: nat, want: nat, left: nat): Outcome
    requires Fair(sched)
  {
    if wrapped then PlanNoEintr(sched, t, want, left) else Plan(sched, t, want, left)
  }

  lemma EndingIgnoresSchedule(wrapped: bool, sched: Schedule, t: nat, want: nat, left: nat)
    requires Fair(sched)
    ensures var o := Ending(wrapped, sched, t, want, left); o.error == None ==> o.moved == Min(want, left)
  {
    if want > 0 { WrappingIsInvisible(sched, t, want, left); }
    OutcomeIgnoresSchedule(sched, t, want, left);
  }

  /** It ends at the first failed call, or without an error. */
  lemma EndingErrorIff(wrapped: bool, sched: Schedule, t: nat, want: nat, left: nat)
    requires Fair(sched)
    ensures var o := Ending(wrapped, sched, t, want, left);
      && t < o.tick
      && (forall i :: t <= i < o.tick - 1 ==> !sched(i).Failed?)
      && (if o.error.Some? then sched(o.tick - 1) == Failed(o.error.value) else !sched(o.tick - 1).Failed?)
  {
    if wrapped && want == 0 {
      forall i | t <= i < FirstAnswer(sched, t)
        ensures !sched(i).Failed?
      {
        assert Skips(sched, i);
      }
    } else {
      if want > 0 { WrappingIsInvisible(sched, t, want, left); }
      ErrorIffLastCallFailed(sched, t, want, left);
    }
  }

  /** One call of a full read: u is the call that answered. */
  lemma EndingUnfolds(wrapped: bool, sched: Schedule, t: nat, want: nat, left: nat, u: nat)
    requires Fair(sched) && u == if wrapped then FirstAnswer(sched, t) else t
    ensures var o := Ending(wrapped, sched, t, want, left);
      match sched(u)
      case Interrupted =>
        o == (if want == 0 then Outcome(u + 1, 0, None) else Ending(wrapped, sched, u + 1, want, left))
      case Failed(e) => o == Outcome(u + 1, 0, Some(e))
      case Data(k) =>
        var n := Moved(k, want, left);
        o == if n == 0 || n == want then Outcome(u + 1, n, None)
             else Later(n, Ending(wrapped, sched, u + 1, want - n, left - n))
  {
  }

  /** An open file: its bytes, the file position that `read` uses, and the adversary's answers. */
  class OpenFile {
    const file: seq<Byte>
    const sched: Schedule
    var tick: nat
    var pos: nat

    constructor (file: seq<Byte>, sched: Schedule)
      ensures this.file == file && this.sched == sched && tick == 0 && pos == 0
    {
      this.file, this.sched, tick, pos := file, sched, 0, 0;
    }

    /** Where a call transfers from: the offset that `pread` is given, or else the file position. */
    function Start(offset: Option<nat>): nat
      reads this
    {
      match offset
      case Some(o) => o
      case None => pos
    }

    /** The bytes b .. b+n-1 of the buffer are those of the file from `start` on; the others are as in
        `before`. */
    ghost predicate Filled(buf: array<Byte>, before: seq<Byte>, b: nat, start: nat, n: nat)
      reads buf
    {
      && |before| == buf.Length && b + n <= buf.Length && n <= Left(file, start)
      && forall i :: 0 <= i < buf.Length ==> buf[i] == if b <= i < b + n then file[start + (i - b)] else before[i]
    }

    /** What the caller of a call sees that was answered by `answer`. */
    ghost predicate Replies(answer: Response, count: nat, left: nat, r: int, errno: int) {
      match answer
      case Interrupted => r == -1 && errno == EINTR
      case Failed(e) => r == -1 && errno == e
      case Data(k) => r == Moved(k, count, left)
    }

    /** `read` or `pread` into the bytes of the buffer from b on. */
    method Call(buf: array<Byte>, b: nat, count: nat, offset: Option<nat>) returns (r: int, errno: int)
      requires b + count <= buf.Length
      modifies this`tick, this`pos, buf
      ensures tick == old(tick) + 1 && pos == Advanced(old(pos), offset, r)
      ensures Replies(sched(old(tick)), count, Left(file, old(Start(offset))), r, errno)
      ensures Filled(buf, old(buf[..]), b, old(Start(offset)), if r > 0 then r else 0)
    {
      var answer := sched(tick);
      tick := tick + 1;
      match answer
      case Interrupted => return -1, EINTR;
      case Failed(e) => return -1, e;
      case Data(k) =>
        var start := Start(offset);
        var n := Moved(k, count, Left(file, start));
        forall i | 0 <= i < n {
          buf[b + i] := file[start + i];
        }
        if offset.None? { pos := pos + n; }
        return n, 0;
    }

    /** `wrapNoEintr` around the call: served by the first answer that is not an interruption. */
    method CallNoEintr(buf: array<Byte>, b: nat, count: nat, offset: Option<nat>) returns (r: int, errno: int)
      requires Fair(sched) && b + count <= buf.Length
      modifies this`tick, this`pos, buf
      ensures tick == FirstAnswer(sched, old(tick)) + 1 && pos == Advanced(old(pos), offset, r)
      ensures Replies(sched(tick - 1), count, Left(file, old(Start(offset))), r, errno)
      ensures Filled(buf, old(buf[..]), b, old(Start(offset)), if r > 0 then r else 0)
    {
      ghost var a := FirstAnswer(sched, tick);
      r, errno := Call(buf, b, count, offset);
      FirstAnswerMoves(sched, tick - 1);
      while r == -1 && errno == EINTR
        invariant 0 < tick <= a + 1 && pos == Advanced(old(pos), offset, r)
        invariant Replies(sched(tick - 1), count, Left(file, old(Start(offset))), r, errno)
        invariant Filled(buf, old(buf[..]), b, old(Start(offset)), if r > 0 then r else 0)
        invariant if sched(tick - 1).Interrupted? then FirstAnswer(sched, tick) == a else tick == a + 1
        decreases a + 1 - tick
      {
        r, errno := Call(buf, b, count, offset);
        FirstAnswerMoves(sched, tick - 1);
      }
    }

    /** One call of the loop of `wrapFull`, after b bytes have been read. */
    method Round(wrapped: bool, buf: array<Byte>, b: nat, left: nat, offset: Option<nat>,
                 ghost before: seq<Byte>, ghost start: nat) returns (r: int, errno: int)
      requires Fair(sched) && b + left <= buf.Length && Start(offset) == start + b
      requires Filled(buf, before, 0, start, b)
      modifies this`tick, this`pos, buf
      ensures pos == Advanced(old(pos), offset, r)
      ensures -1 <= r <= left && r <= Left(file, start + b)
      ensures Filled(buf, before, 0, start, b + if r > 0 then r else 0)
      ensures var rest := Left(file, start + b);
              var o := Ending(wrapped, sched, old(tick), left, rest);
              if r == -1 && errno == EINTR then
                && !wrapped && sched(old(tick)).Interrupted? && tick == old(tick) + 1
                && o == if left == 0 then Outcome(tick, 0, None) else Ending(wrapped, sched, tick, left, rest)
              else if r == -1 then errno != EINTR && o == Outcome(tick, 0, Some(errno))
              else o == if r == 0 || r == left then Outcome(tick, r, None)
                        else Later(r, Ending(wrapped, sched, tick, left - r, rest - r))
    {
      ghost var t := tick;
      if wrapped {
        r, errno := CallNoEintr(buf, b, left, offset);
      } else {
        r, errno := Call(buf, b, left, offset);
      }
      EndingUnfolds(wrapped, sched, t, left, Left(file, start + b), tick - 1);
    }

    /** `wrapFull` over `read` (no offset) or `pread` (with one), with the call raw or wrapped. It delivers
        what the file has from the offset, or else from the file position, up to `count` bytes, and stops
        short of that at the end of the file only; or it fails with the first error that it meets, and n
        bytes have been delivered by then. The result never exceeds `count`, so it fits the return type
        whenever `count` does. */
    method WrapFull(wrapped: bool, buf: array<Byte>, count: nat, offset: Option<nat>)
      returns (ret: int, errno: int, ghost n: nat)
      requires Fair(sched) && count <= buf.Length
      modifies this`tick, this`pos, buf
      ensures var start := if offset.Some? then offset.value else old(pos);
        && n <= count
        && (forall i :: 0 <= i < n ==> start + i < |file| && buf[i] == file[start + i])
        && (forall i :: n <= i < buf.Length ==> buf[i] == old(buf[i]))
        && (ret != -1 ==> ret == n && (n < count ==> start + n >= |file|))
        && pos == (if offset.Some? then old(pos) else old(pos) + n)
      ensures old(tick) < tick && forall i :: old(tick) <= i < tick - 1 ==> !sched(i).Failed?
      ensures match sched(tick - 1) case Failed(e) => ret == -1 && errno == e case _ => ret != -1
      ensures var o := Ending(wrapped, sched, old(tick), count, Left(file, old(Start(offset))));
              tick == o.tick && n == o.moved
    {
      ghost var o := Ending(wrapped, sched, tick, count, Left(file, Start(offset)));
      EndingIgnoresSchedule(wrapped, sched, tick, count, Left(file, Start(offset)));
      EndingErrorIff(wrapped, sched, tick, count, Left(file, Start(offset)));
      ret, errno := RunLoop(wrapped, buf, count, offset);
      n := o.moved;
    }

    /** The loop, against the plan for how it is to end. */
    method RunLoop(wrapped: bool, buf: array<Byte>, count: nat, offset: Option<nat>) returns (ret: int, errno: int)
      requires Fair(sched) && count <= buf.Length
      modifies this`tick, this`pos, buf
      ensures var start := old(Start(offset));
              var o := Ending(wrapped, sched, old(tick), count, Left(file, start));
              && tick == o.tick && o.moved <= count
              && Filled(buf, old(buf[..]), 0, start, o.moved)
              && pos == Advanced(old(pos), offset, o.moved)
              && ret == (if o.error.Some? then -1 else o.moved)
              && (o.error.Some? ==> errno == o.error.value)
      ensures ret != -1 ==> ret == Min(count, Left(file, old(Start(offset))))
    {
      EndingIgnoresSchedule(wrapped, sched, tick, count, Left(file, Start(offset)));
      var b: nat, left: nat, at, more := 0, count, offset, true;
      ghost var start := Start(offset);
      ghost var o := Ending(wrapped, sched, tick, count, Left(file, start));
      ret := 0;
      while more
        invariant ret == b && b + left == count
        invariant at == (if offset.Some? then Some(start + b) else None)
        invariant pos == (if offset.Some? then old(pos) else start + b)
        invariant Filled(buf, old(buf[..]), 0, start, b)
        invariant if more then o == Later(b, Ending(wrapped, sched, tick, left, Left(file, start + b)))
                  else o == Outcome(tick, b, None)
        decreases more, left, if wrapped then 0 else Gap(sched, tick)
      {
        var r;
        r, errno := Round(wrapped, buf, b, left, at, old(buf[..]), start);
        if r == -1 {
          if errno == EINTR {
            GapShrinks(sched, tick - 1);
            more := left != 0;
            continue;
          }
          return -1, errno;
        }
        ret, b, left := ret + r, b + r, left - r;
        if at.Some? { at := Some(at.value + r); }
        more := r != 0 && left != 0;
      }
      errno := 0;
    }
  }
}
