/** Three assignments of `hy::expected` as the source spells them, run without any throw, against what
    they are meant to do, in each of the three layouts. Each is right exactly when a condition holds
    beforehand. */
module TinyAsWritten {
  import opened Options
  import opened Lifetimes
  import opened TinyPod

  /** The union of the non-trivial storage: which members are alive, their values, and what the flag says. */
  datatype Cell<V, E> = Cell(hasVal: bool, val: Option<V>, unex: Option<E>) {
    predicate Tagged() {
      val.Some? == hasVal && unex.Some? == !hasVal
    }

    function View(): Sum<V, E>
      requires Tagged()
    {
      if hasVal then Val(val.value) else Err(unex.value)
    }
  }

  /** An operation finishes, or touches a member that is not alive, or builds over one that is. */
  datatype Outcome<V, E> = Done(cell: Cell<V, E>) | Undefined
  {
    ghost predicate Shows(w: Sum<V, E>) {
      Done? && cell.Tagged() && cell.View() == w
    }

    function SetFlag(hasVal: bool): Outcome<V, E> {
      if Done? then Done(cell.(hasVal := hasVal)) else Undefined
    }
  }

  /** `reinit_expected(val_, unex_, ...)`. */
  function RebuildVal<V, E>(c: Cell<V, E>, from: Option<V>): Outcome<V, E> {
    if c.unex.None? || c.val.Some? || from.None? then Undefined else Done(Cell(c.hasVal, from, None))
  }

  function RebuildUnex<V, E>(c: Cell<V, E>, from: Option<E>): Outcome<V, E> {
    if c.val.None? || c.unex.Some? || from.None? then Undefined else Done(Cell(c.hasVal, None, from))
  }

  function AssignVal<V, E>(c: Cell<V, E>, from: Option<V>): Outcome<V, E> {
    if c.val.None? || from.None? then Undefined else Done(c.(val := from))
  }

  function AssignUnex<V, E>(c: Cell<V, E>, from: Option<E>): Outcome<V, E> {
    if c.unex.None? || from.None? then Undefined else Done(c.(unex := from))
  }

  /** The copy assignment tests this flag twice instead of testing the other's. */
  function CopyAssignWritten<V, E>(c: Cell<V, E>, other: Cell<V, E>): Outcome<V, E> {
    (if c.hasVal then
       if c.hasVal then AssignVal(c, other.val) else RebuildUnex(c, other.unex)
     else if other.hasVal then RebuildVal(c, other.val)
     else AssignUnex(c, other.unex)).SetFlag(other.hasVal)
  }

  /** The value assignment clears the flag after switching to the value. */
  function AssignValueWritten<V, E>(c: Cell<V, E>, v: V): Outcome<V, E> {
    if c.hasVal then AssignVal(c, Some(v)) else RebuildVal(c, Some(v)).SetFlag(false)
  }

  /** The error assignment rebuilds the value out of the error; `convert` is the conversion that runs. */
  function AssignErrorWritten<V, E>(c: Cell<V, E>, e: E, convert: E -> V): Outcome<V, E> {
    if c.hasVal then RebuildVal(c, Some(convert(e))).SetFlag(false) else AssignUnex(c, Some(e))
  }

  /** The copy assignment takes over the other's state unless a value is assigned from an error; then it
      reads a value that is not there. */
  lemma CopyAssignWrittenIsRightIff<V, E>(c: Cell<V, E>, other: Cell<V, E>)
    requires c.Tagged() && other.Tagged()
    ensures CopyAssignWritten(c, other).Shows(other.View()) <==> !c.hasVal || other.hasVal
    ensures CopyAssignWritten(c, other).Undefined? <==> c.hasVal && !other.hasVal
  {
  }

  /** A value assigned to an error does arrive, but the flag then names the error, which is gone. */
  lemma AssignValueWrittenIsRightIff<V, E>(c: Cell<V, E>, v: V)
    requires c.Tagged()
    ensures AssignValueWritten(c, v).Shows(Val(v)) <==> c.hasVal
    ensures AssignValueWritten(c, v).Done? && (AssignValueWritten(c, v).cell.Tagged() <==> c.hasVal)
  {
  }

  /** An error assigned to a value destroys an error that is not there. */
  lemma AssignErrorWrittenIsRightIff<V, E>(c: Cell<V, E>, e: E, convert: E -> V)
    requires c.Tagged()
    ensures AssignErrorWritten(c, e, convert).Shows(Err(e)) <==> !c.hasVal
    ensures AssignErrorWritten(c, e, convert).Undefined? <==> c.hasVal
  {
  }

  /** The trivial union: nothing is undefined, but observers see it. */
  function UnionAssignValueWritten(z: Sizes, u: RawUnion, v: Bytes): RawUnion
    requires Fits(z, u) && |v| == z.value
  {
    if u.hasVal then u.(bytes := Put(u.bytes, v)) else RawUnion(false, Put(u.bytes, v))
  }

  function UnionAssignErrorWritten(z: Sizes, u: RawUnion, e: Bytes, convert: Bytes -> Bytes): RawUnion
    requires Fits(z, u) && |e| == z.error && |convert(e)| == z.value
  {
    if u.hasVal then RawUnion(false, Put(u.bytes, convert(e))) else u.(bytes := Put(u.bytes, e))
  }

  /** A value assigned to an error is not seen. What is seen is the error with the first bytes overwritten:
      the old error exactly if the value happens to have the same bytes there. */
  lemma UnionAssignValueWrittenIsRightIff(z: Sizes, u: RawUnion, v: Bytes)
    requires Fits(z, u) && |v| == z.value
    ensures var t := UnionAssignValueWritten(z, u, v);
            var shared := if z.value < z.error then z.value else z.error;
      && Fits(z, t)
      && (ViewOf(z, t) == Val(v) <==> u.hasVal)
      && (!u.hasVal ==> (ViewOf(z, t) == ViewOf(z, u) <==> v[..shared] == u.bytes[..shared]))
  {
    var t := UnionAssignValueWritten(z, u, v);
    var shared := if z.value < z.error then z.value else z.error;
    if u.hasVal {
      assert t.bytes[..z.value] == v;
    } else {
      assert t.bytes[..z.error] == v[..shared] + u.bytes[shared..z.error];
      assert u.bytes[..z.error] == u.bytes[..shared] + u.bytes[shared..z.error];
      assert t.bytes[..z.error][..shared] == v[..shared];
      assert u.bytes[..z.error][..shared] == u.bytes[..shared];
    }
  }

  /** An error assigned to a value is seen exactly if its conversion to a value has the error's bytes. */
  lemma UnionAssignErrorWrittenIsRightIff(z: Sizes, u: RawUnion, e: Bytes, convert: Bytes -> Bytes)
    requires Fits(z, u) && |e| == z.error && |convert(e)| == z.value
    ensures var t := UnionAssignErrorWritten(z, u, e, convert);
      && Fits(z, t)
      && (ViewOf(z, t) == Err(e) <==> !u.hasVal || Put(u.bytes, convert(e))[..z.error] == e)
  {
    assert Put(u.bytes, e)[..z.error] == e;
  }

  /** In the trivial struct the members keep their old values. */
  datatype Plain<V, E> = Plain(hasVal: bool, val: V, unex: E) {
    function View(): Sum<V, E> {
      if hasVal then Val(val) else Err(unex)
    }
  }

  function PlainAssignValueWritten<V, E>(p: Plain<V, E>, v: V): Plain<V, E> {
    if p.hasVal then p.(val := v) else p.(val := v, hasVal := false)
  }

  function PlainAssignErrorWritten<V, E>(p: Plain<V, E>, e: E, convert: E -> V): Plain<V, E> {
    if p.hasVal then p.(val := convert(e), hasVal := false) else p.(unex := e)
  }

  /** A value assigned to an error is not seen: the error of before still is. */
  lemma PlainAssignValueWrittenIsRightIff<V, E>(p: Plain<V, E>, v: V)
    ensures PlainAssignValueWritten(p, v).View() == Val(v) <==> p.hasVal
    ensures !p.hasVal ==> PlainAssignValueWritten(p, v).View() == p.View()
  {
  }

  /** An error assigned to a value is not seen: a stale error is, and may be equal by chance. */
  lemma PlainAssignErrorWrittenIsRightIff<V, E>(p: Plain<V, E>, e: E, convert: E -> V)
    ensures PlainAssignErrorWritten(p, e, convert).View() == Err(e) <==> !p.hasVal || p.unex == e
  {
  }

  /** The bytes of the double 2.0 and of the int 11, least significant first. */
  const TWO: Bytes := [0, 0, 0, 0, 0, 0, 0, 0x40]
  const ELEVEN: Bytes := [0x0b, 0, 0, 0]

  /** The program of test/test.cc, in the union layout that the source selects for an int of 4 and a double
      of 8 bytes: exp_1 holds some value and exp_2 the error 2.0; after the swap and exp_1 = 11, exp_1 has no
      value, and the error that it has is not 2.0 either. exp_2 has the value. */
  lemma TestProgramAsWritten(exp1: RawUnion, exp2: RawUnion)
    requires var z := Sizes(4, 8);
      && Fits(z, exp1) && Fits(z, exp2) && exp1.hasVal && ViewOf(z, exp2) == Err(TWO)
    ensures var z := Sizes(4, 8);
            var (x, y) := SwapLarger(z, exp1, exp2);
      && Fits(z, x) && Fits(z, y) && ViewOf(z, x) == Err(TWO) && ViewOf(z, y) == ViewOf(z, exp1)
      && var t := UnionAssignValueWritten(z, x, ELEVEN);
         Fits(z, t) && ViewOf(z, t) == Err(ELEVEN + TWO[4..]) && ViewOf(z, t) != Err(TWO)
  {
    var z := Sizes(4, 8);
    SwapLargerIsSwapByTag(z, exp1, exp2);
    var (x, y) := SwapLarger(z, exp1, exp2);
    assert x.bytes == x.bytes[..8] == TWO;
    var t := UnionAssignValueWritten(z, x, ELEVEN);
    assert t.bytes == t.bytes[..8];
    assert (ELEVEN + TWO[4..])[0] != TWO[0];
  }
}
