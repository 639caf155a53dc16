/** The two trivial storages of `hy::expected`: a union of raw bytes and a struct that keeps both
    members. Values and errors are padding-free objects, that is, byte strings of a fixed size. */
module TinyPod {
  import opened Lifetimes
  import opened TinyRuns

  type Bytes = seq<bv8>

  datatype Sizes = Sizes(value: nat, error: nat) {
    function Whole(): nat {
      if value > error then value else error
    }
  }

  /** The object representation of the union storage: its flag and its shared bytes. */
  datatype RawUnion = RawUnion(hasVal: bool, bytes: Bytes)

  ghost predicate Fits(z: Sizes, u: RawUnion) {
    |u.bytes| == z.Whole()
  }

  /** Overwrites the first bytes of a storage. */
  function Put(old_: Bytes, b: Bytes): Bytes
    requires |b| <= |old_|
  {
    b + old_[|b|..]
  }

  function ViewOf(z: Sizes, u: RawUnion): Sum<Bytes, Bytes>
    requires Fits(z, u)
  {
    if u.hasVal then Val(u.bytes[..z.value]) else Err(u.bytes[..z.error])
  }

  /** Exchanges the first k bytes and the flags, whatever the members are. */
  function SwapPrefix(k: nat, a: RawUnion, b: RawUnion): (RawUnion, RawUnion)
    requires k <= |a.bytes| && k <= |b.bytes|
  {
    (RawUnion(b.hasVal, Put(a.bytes, b.bytes[..k])), RawUnion(a.hasVal, Put(b.bytes, a.bytes[..k])))
  }

  /** The trivial union's swap: the member with the larger type, then the flag. */
  function SwapLarger(z: Sizes, a: RawUnion, b: RawUnion): (RawUnion, RawUnion)
    requires Fits(z, a) && Fits(z, b)
  {
    if z.value > z.error then SwapPrefix(z.value, a, b) else SwapPrefix(z.error, a, b)
  }

  /** The non-trivial union's swap, read at the level of bytes: by cases on the two flags. */
  function SwapByTag(z: Sizes, a: RawUnion, b: RawUnion): (RawUnion, RawUnion)
    requires Fits(z, a) && Fits(z, b)
  {
    if a.hasVal && b.hasVal then SwapPrefix(z.value, a, b)
    else if !a.hasVal && !b.hasVal then SwapPrefix(z.error, a, b)
    else if a.hasVal then
      (RawUnion(false, Put(a.bytes, b.bytes[..z.error])), RawUnion(true, Put(b.bytes, a.bytes[..z.value])))
    else
      (RawUnion(true, Put(a.bytes, b.bytes[..z.value])), RawUnion(false, Put(b.bytes, a.bytes[..z.error])))
  }

  /** Swapping the larger member blindly is indistinguishable from swapping by tag. */
  lemma SwapLargerIsSwapByTag(z: Sizes, a: RawUnion, b: RawUnion)
    requires Fits(z, a) && Fits(z, b)
    ensures var (x, y) := SwapLarger(z, a, b);
            var (p, q) := SwapByTag(z, a, b);
            && Fits(z, x) && Fits(z, y) && Fits(z, p) && Fits(z, q)
            && ViewOf(z, x) == ViewOf(z, p) == ViewOf(z, b)
            && ViewOf(z, y) == ViewOf(z, q) == ViewOf(z, a)
  {
    var k := z.Whole();
    assert Put(a.bytes, b.bytes[..k]) == b.bytes && Put(b.bytes, a.bytes[..k]) == a.bytes;
    var (p, q) := SwapByTag(z, a, b);
    assert ViewOf(z, p) == ViewOf(z, b);
    assert ViewOf(z, q) == ViewOf(z, a);
  }

  /** It is an involution on the representation itself, inactive bytes included. */
  lemma SwapLargerTwice(z: Sizes, a: RawUnion, b: RawUnion)
    requires Fits(z, a) && Fits(z, b)
    ensures var (x, y) := SwapLarger(z, a, b);
            Fits(z, x) && Fits(z, y) && SwapLarger(z, x, y) == (a, b)
  {
    var k := z.Whole();
    assert Put(a.bytes, b.bytes[..k]) == b.bytes && Put(b.bytes, a.bytes[..k]) == a.bytes;
    assert SwapLarger(z, a, b) == (b, a);
    assert SwapLarger(z, b, a) == (a, b);
  }

  ghost predicate SwapsViews(z: Sizes, k: nat, a: RawUnion, b: RawUnion)
    requires k <= z.Whole() && Fits(z, a) && Fits(z, b)
  {
    var (x, y) := SwapPrefix(k, a, b);
    ViewOf(z, x) == ViewOf(z, b) && ViewOf(z, y) == ViewOf(z, a)
  }

  /** Nothing shorter than the larger member will do: k blindly swapped bytes exchange every pair of
      states exactly when they cover the whole union. */
  lemma SwapPrefixIsExact(z: Sizes, k: nat)
    requires k <= z.Whole()
    ensures (forall a, b :: Fits(z, a) && Fits(z, b) ==> SwapsViews(z, k, a, b)) <==> k == z.Whole()
  {
    if k == z.Whole() {
      forall a, b | Fits(z, a) && Fits(z, b)
        ensures SwapsViews(z, k, a, b)
      {
        assert SwapPrefix(k, a, b) == SwapLarger(z, a, b);
        SwapLargerIsSwapByTag(z, a, b);
      }
    } else {
      var big := z.value > z.error;
      var a := RawUnion(big, seq(z.Whole(), _ => 0));
      var b := RawUnion(big, seq(z.Whole(), _ => 1));
      var (x, y) := SwapPrefix(k, a, b);
      assert x.bytes[k] == 0 && b.bytes[k] == 1;
      assert x.bytes[..z.Whole()][k] != b.bytes[..z.Whole()][k];
      assert !SwapsViews(z, k, a, b);
    }
  }

  /** Trivial types: nothing throws and a move is a copy. */
  function Trivial(): Traits<Bytes> {
    Traits(true, true, true, true, true, true, (b: Bytes) => b, (b: Bytes, c: Bytes) => c)
  }

  /** The bytes an operation brings in have the sizes of the member types. */
  predicate Sized(z: Sizes, op: Op<Bytes, Bytes>) {
    && (op.ConstructValue? || op.AssignValue? ==> |op.v| == z.value)
    && (op.ConstructError? || op.AssignError? ==> |op.e| == z.error)
  }

  class PodUnion {
    const z: Sizes
    var built: bool
    var hasVal: bool
    var bytes: Bytes

    constructor (z: Sizes, garbage: Bytes)
      requires |garbage| == z.Whole()
      ensures this.z == z && !built && Valid()
    {
      this.z, built, hasVal, bytes := z, false, false, garbage;
    }

    ghost predicate Valid()
      reads this
    {
      |bytes| == z.Whole()
    }

    function Raw(): RawUnion
      reads this
    {
      RawUnion(hasVal, bytes)
    }

    function View(): Sum<Bytes, Bytes>
      requires Valid()
      reads this
    {
      ViewOf(z, Raw())
    }

    method ConstructValue(v: Bytes)
      requires Valid() && |v| == z.value
      modifies this
      ensures Valid() && built && View() == Val(v)
    {
      built, hasVal, bytes := true, true, Put(bytes, v);
    }

    method ConstructError(e: Bytes)
      requires Valid() && |e| == z.error
      modifies this
      ensures Valid() && built && View() == Err(e)
    {
      built, hasVal, bytes := true, false, Put(bytes, e);
    }

    /** The defaulted copy and move operations copy the representation. */
    method Copy(other: PodUnion)
      requires other.Valid() && other.z == z && other.built
      modifies this
      ensures Valid() && built && Raw() == old(other.Raw())
    {
      built, hasVal, bytes := true, other.hasVal, other.bytes;
    }

    method AssignValue(v: Bytes)
      requires Valid() && built && |v| == z.value
      modifies this
      ensures Valid() && built && View() == Val(v)
    {
      if hasVal {
        bytes := Put(bytes, v);
      } else {
        bytes := Put(bytes, v);
        hasVal := true;
      }
    }

    method AssignError(e: Bytes)
      requires Valid() && built && |e| == z.error
      modifies this
      ensures Valid() && built && View() == Err(e)
    {
      if hasVal {
        bytes := Put(bytes, e);
        hasVal := false;
      } else {
        bytes := Put(bytes, e);
      }
    }

    method Swap(other: PodUnion)
      requires Valid() && other.Valid() && other.z == z && built && other.built
      modifies this, other
      ensures Valid() && other.Valid() && built && other.built
      ensures View() == old(other.View()) && other.View() == old(View())
    {
      SwapLargerIsSwapByTag(z, Raw(), other.Raw());
      var k := if z.value > z.error then z.value else z.error;
      var mine, theirs := bytes[..k], other.bytes[..k];
      bytes := Put(bytes, theirs);
      other.bytes := Put(other.bytes, mine);
      hasVal, other.hasVal := other.hasVal, hasVal;
    }
  }

  class PodStruct {
    var built: bool
    var hasVal: bool
    var val: Bytes
    var unex: Bytes

    constructor ()
      ensures !built
    {
      built, hasVal, val, unex := false, false, [], [];
    }

    function View(): Sum<Bytes, Bytes>
      reads this
    {
      if hasVal then Val(val) else Err(unex)
    }

    method ConstructValue(v: Bytes)
      modifies this
      ensures built && View() == Val(v)
    {
      built, hasVal, val := true, true, v;
    }

    method ConstructError(e: Bytes)
      modifies this
      ensures built && View() == Err(e)
    {
      built, hasVal, unex := true, false, e;
    }

    method Copy(other: PodStruct)
      requires other.built
      modifies this
      ensures built && View() == old(other.View())
      ensures val == old(other.val) && unex == old(other.unex)
    {
      built, hasVal, val, unex := true, other.hasVal, other.val, other.unex;
    }

    /** The error that was there stays behind as a stale member. */
    method AssignValue(v: Bytes)
      requires built
      modifies this
      ensures built && View() == Val(v) && unex == old(unex)
    {
      if hasVal {
        val := v;
      } else {
        val := v;
        hasVal := true;
      }
    }

    method AssignError(e: Bytes)
      requires built
      modifies this
      ensures built && View() == Err(e) && val == old(val)
    {
      if hasVal {
        unex := e;
        hasVal := false;
      } else {
        unex := e;
      }
    }

    method Swap(other: PodStruct)
      requires built && other.built
      modifies this, other
      ensures built && other.built
      ensures View() == old(other.View()) && other.View() == old(View())
    {
      hasVal, other.hasVal := other.hasVal, hasVal;
      val, other.val := other.val, val;
      unex, other.unex := other.unex, unex;
    }
  }
}
