/** IPv6 addresses: the bit and byte accessors (IPAddressV6.h, IPAddress_detail.h) against the comparison
    operators, both against the 128-bit number that the address is. */
module AddressV6 {
  import opened Digits

  const BIT_COUNT: nat := 128
  const BYTE_COUNT: nat := 16

  /** `std::size_t` arithmetic wraps around at 64 bits. */
  const SIZE_T: nat := 0x1_0000_0000_0000_0000

  datatype RawAddress = RawAddress(bytes: seq<bv8>, scope: nat)
  type Address = a: RawAddress | |a.bytes| == BYTE_COUNT && a.scope < 0x1_0000
    witness RawAddress(seq(16, _ => 0), 0)

  /** The accessors throw for an index that is too large. */
  datatype Result<+T> = Ok(value: T) | InvalidArgument

  function Mask(k: nat): bv8
    requires k < 8
  {
    (0x80 as bv8) >> k
  }

  function GetNthMSByte(a: Address, i: nat): bv8
    requires i < BYTE_COUNT
  {
    a.bytes[i]
  }

  function GetNthMSBit(a: Address, i: nat): Result<bool> {
    if i >= BIT_COUNT then InvalidArgument
    else Ok((GetNthMSByte(a, i / 8) & Mask(i % 8)) != 0)
  }

  function GetNthLSBit(a: Address, j: nat): Result<bool>
    requires j < SIZE_T
  {
    GetNthMSBit(a, (BIT_COUNT + SIZE_T - j - 1) % SIZE_T)
  }

  function GetNthLSByte(a: Address, j: nat): bv8
    requires j < BYTE_COUNT
  {
    GetNthMSByte(a, BYTE_COUNT - j - 1)
  }

  /** The wrap-around of the index does no harm: exactly the indices from 128 on are refused, and the
      others count from the other end. */
  lemma LSBitCountsFromTheEnd(a: Address, j: nat)
    requires j < 0x1_0000_0000_0000_0000
    ensures GetNthLSBit(a, j) == if j < 128 then GetNthMSBit(a, 127 - j) else InvalidArgument
  {
    if j < BIT_COUNT {
      assert (BIT_COUNT + SIZE_T - j - 1) % SIZE_T == BIT_COUNT - 1 - j;
    } else {
      assert (BIT_COUNT + SIZE_T - j - 1) % SIZE_T == BIT_COUNT + SIZE_T - j - 1;
    }
  }

  function ToDigit(r: Result<bool>): nat {
    if r == Ok(true) then 1 else 0
  }

  function Octets(bytes: seq<bv8>): seq<nat> {
    seq(|bytes|, i requires 0 <= i < |bytes| => bytes[i] as nat)
  }

  /** The address as a big-endian number. */
  function Number(a: Address): nat {
    Value(256, Octets(a.bytes))
  }

  /** The bits in the order of their index, most significant first. */
  function Bits(a: Address): seq<nat> {
    seq(BIT_COUNT, i requires 0 <= i < BIT_COUNT => ToDigit(GetNthMSBit(a, i)))
  }

  function SumOfMSBits(a: Address, n: nat): nat
    requires n <= BIT_COUNT
  {
    if n == 0 then 0 else SumOfMSBits(a, n - 1) + ToDigit(GetNthMSBit(a, n - 1)) * Pow(2, BIT_COUNT - n)
  }

  function SumOfLSBits(a: Address, n: nat): nat
    requires n <= BIT_COUNT
  {
    if n == 0 then 0 else SumOfLSBits(a, n - 1) + ToDigit(GetNthLSBit(a, n - 1)) * Pow(2, n - 1)
  }

  function ByteBits(b: bv8): seq<nat> {
    seq(8, k requires 0 <= k < 8 => if b & Mask(k) != 0 then 1 else 0)
  }

  function BitsOf(bytes: seq<bv8>): seq<nat> {
    if bytes == [] then [] else ByteBits(bytes[0]) + BitsOf(bytes[1..])
  }

  lemma ByteIsItsBits(b: bv8)
    ensures Value(2, ByteBits(b)) == b as nat && Pow(2, 8) == 256
  {
    var s := ByteBits(b);
    assert s == [s[0], s[1], s[2], s[3], s[4], s[5], s[6], s[7]];
    ValueOfEight(s[0], s[1], s[2], s[3], s[4], s[5], s[6], s[7]);
    assert b as nat == 128 * s[0] + 64 * s[1] + 32 * s[2] + 16 * s[3] + 8 * s[4] + 4 * s[5] + 2 * s[6] + s[7];
  }

  lemma ValueOfEight(a: nat, b: nat, c: nat, d: nat, e: nat, f: nat, g: nat, h: nat)
    ensures Value(2, [a, b, c, d, e, f, g, h]) == 128 * a + 64 * b + 32 * c + 16 * d + 8 * e + 4 * f + 2 * g + h
    ensures Pow(2, 8) == 256
  {
    assert Pow(2, 1) == 2 && Pow(2, 2) == 4 && Pow(2, 3) == 8 && Pow(2, 4) == 16;
    assert Pow(2, 5) == 32 && Pow(2, 6) == 64 && Pow(2, 7) == 128;
    assert [a, b, c, d, e, f, g, h][1..] == [b, c, d, e, f, g, h];
    assert [b, c, d, e, f, g, h][1..] == [c, d, e, f, g, h];
    assert [c, d, e, f, g, h][1..] == [d, e, f, g, h];
    assert [d, e, f, g, h][1..] == [e, f, g, h];
    assert [e, f, g, h][1..] == [f, g, h];
    assert [f, g, h][1..] == [g, h];
    assert [g, h][1..] == [h];
    assert Value(2, [h]) == h;
    assert Value(2, [g, h]) == 2 * g + h;
    assert Value(2, [f, g, h]) == 4 * f + 2 * g + h;
    assert Value(2, [e, f, g, h]) == 8 * e + 4 * f + 2 * g + h;
    assert Value(2, [d, e, f, g, h]) == 16 * d + 8 * e + 4 * f + 2 * g + h;
    assert Value(2, [c, d, e, f, g, h]) == 32 * c + 16 * d + 8 * e + 4 * f + 2 * g + h;
    assert Value(2, [b, c, d, e, f, g, h]) == 64 * b + 32 * c + 16 * d + 8 * e + 4 * f + 2 * g + h;
  }

  lemma {:induction false} BitsOfIsNumber(bytes: seq<bv8>)
    ensures |BitsOf(bytes)| == 8 * |bytes|
    ensures Value(2, BitsOf(bytes)) == Value(256, Octets(bytes))
    ensures Pow(2, 8 * |bytes|) == Pow(256, |bytes|)
  {
    if bytes != [] {
      BitsOfIsNumber(bytes[1..]);
      ByteIsItsBits(bytes[0]);
      ValueOfConcat(2, ByteBits(bytes[0]), BitsOf(bytes[1..]));
      PowAdds(2, 8, 8 * |bytes[1..]|);
      assert Octets(bytes)[1..] == Octets(bytes[1..]);
    }
  }

  lemma {:induction false} BitsOfAt(bytes: seq<bv8>, i: nat)
    requires i < 8 * |bytes|
    ensures |BitsOf(bytes)| == 8 * |bytes|
    ensures BitsOf(bytes)[i] == if bytes[i / 8] & Mask(i % 8) != 0 then 1 else 0
  {
    BitsOfIsNumber(bytes);
    if i >= 8 {
      BitsOfAt(bytes[1..], i - 8);
      assert (i - 8) / 8 == i / 8 - 1 && (i - 8) % 8 == i % 8;
    }
  }

  lemma BitsInOrder(a: Address)
    ensures Bits(a) == BitsOf(a.bytes)
  {
    BitsOfAt(a.bytes, 0);
    forall i | 0 <= i < BIT_COUNT
      ensures Bits(a)[i] == BitsOf(a.bytes)[i]
    {
      BitsOfAt(a.bytes, i);
    }
  }

  /** The bits, read as binary digits, are the number. */
  lemma BitsAreNumber(a: Address)
    ensures Value(2, Bits(a)) == Number(a) && Wf(2, Bits(a))
  {
    BitsInOrder(a);
    BitsOfIsNumber(a.bytes);
  }

  /** LS byte j is the digit of the number at 256^j. */
  lemma LSByteIsDigit(a: Address, j: nat)
    requires j < BYTE_COUNT
    ensures Pow(256, j) > 0 && GetNthLSByte(a, j) as nat == Number(a) / Pow(256, j) % 256
  {
    DigitOfValue(256, Octets(a.bytes), j);
  }

  lemma {:induction false} MSPrefix(a: Address, n: nat)
    requires n <= BIT_COUNT
    ensures SumOfMSBits(a, n) == Value(2, Bits(a)[..n]) * Pow(2, BIT_COUNT - n)
  {
    if n > 0 {
      MSPrefix(a, n - 1);
      var s := Bits(a);
      assert s[..n] == s[..n - 1] + [s[n - 1]];
      ValueOfConcat(2, s[..n - 1], [s[n - 1]]);
      assert Value(2, [s[n - 1]]) == s[n - 1] && Pow(2, 1) == 2;
      Doubling(Value(2, s[..n - 1]), s[n - 1], Pow(2, BIT_COUNT - n));
    }
  }

  lemma Doubling(v: nat, d: nat, p: nat)
    ensures (v * 2 + d) * p == v * (2 * p) + d * p
  {
  }

  lemma {:induction false} LSSuffix(a: Address, n: nat)
    requires n <= BIT_COUNT
    ensures SumOfLSBits(a, n) == Value(2, Bits(a)[BIT_COUNT - n..])
  {
    if n > 0 {
      LSSuffix(a, n - 1);
      LSBitCountsFromTheEnd(a, n - 1);
      assert Bits(a)[BIT_COUNT - n..][1..] == Bits(a)[BIT_COUNT - (n - 1)..];
    }
  }

  /** Both ways of indexing weigh the bits to the same number. */
  lemma BitSumsAreNumber(a: Address)
    ensures SumOfMSBits(a, BIT_COUNT) == Number(a)
    ensures SumOfLSBits(a, BIT_COUNT) == Number(a)
  {
    BitsAreNumber(a);
    MSPrefix(a, BIT_COUNT);
    LSSuffix(a, BIT_COUNT);
    assert Bits(a)[..BIT_COUNT] == Bits(a) && Bits(a)[0..] == Bits(a);
  }

  /** `operator<` of std::array. */
  predicate ArrayLess(s: seq<bv8>, t: seq<bv8>)
    requires |s| == |t|
  {
    s != [] && (s[0] < t[0] || (s[0] == t[0] && ArrayLess(s[1..], t[1..])))
  }

  /** The operators compare the tuple of the bytes and the scope. */
  predicate Lt(a: Address, b: Address) {
    ArrayLess(a.bytes, b.bytes) || (!ArrayLess(b.bytes, a.bytes) && a.scope < b.scope)
  }

  predicate Eq(a: Address, b: Address) {
    a.bytes == b.bytes && a.scope == b.scope
  }

  predicate Le(a: Address, b: Address) {
    Lt(a, b) || Eq(a, b)
  }

  predicate Gt(a: Address, b: Address) {
    !Le(a, b)
  }

  predicate Ge(a: Address, b: Address) {
    !Lt(a, b)
  }

  lemma {:induction false} ArrayLessIsLess(s: seq<bv8>, t: seq<bv8>)
    requires |s| == |t|
    ensures ArrayLess(s, t) <==> Less(Octets(s), Octets(t))
    ensures Octets(s) == Octets(t) <==> s == t
  {
    if s != [] {
      ArrayLessIsLess(s[1..], t[1..]);
      assert Octets(s)[1..] == Octets(s[1..]) && Octets(t)[1..] == Octets(t[1..]);
      assert Octets(s)[0] == s[0] as nat && Octets(t)[0] == t[0] as nat;
      assert s == [s[0]] + s[1..] && t == [t[0]] + t[1..];
    }
  }

  /** The operator orders addresses by their number, then by their scope. */
  lemma OrderIsNumeric(a: Address, b: Address)
    ensures Lt(a, b) <==> Number(a) < Number(b) || (Number(a) == Number(b) && a.scope < b.scope)
    ensures Eq(a, b) <==> Number(a) == Number(b) && a.scope == b.scope
  {
    ArrayLessIsLess(a.bytes, b.bytes);
    ArrayLessIsLess(b.bytes, a.bytes);
    LessIsNumeric(256, Octets(a.bytes), Octets(b.bytes));
    LessIsNumeric(256, Octets(b.bytes), Octets(a.bytes));
    if Number(a) == Number(b) {
      ValueIsInjective(256, Octets(a.bytes), Octets(b.bytes));
    }
  }

  /** A strict total order, with which the other four operators agree. */
  lemma StrictTotalOrder(a: Address, b: Address, c: Address)
    ensures !Lt(a, a)
    ensures Lt(a, b) && Lt(b, c) ==> Lt(a, c)
    ensures Lt(a, b) || a == b || Lt(b, a)
    ensures !(Lt(a, b) && Lt(b, a))
    ensures Eq(a, b) <==> a == b
    ensures (Gt(a, b) <==> Lt(b, a)) && (Ge(a, b) <==> Le(b, a))
  {
    OrderIsNumeric(a, a);
    OrderIsNumeric(a, b);
    OrderIsNumeric(b, a);
    OrderIsNumeric(b, c);
    OrderIsNumeric(a, c);
  }

  /** Addresses with different bytes are ordered by the first most significant bit in which they differ. */
  lemma FirstDifferingBitDecides(a: Address, b: Address) returns (i: nat)
    requires a.bytes != b.bytes
    ensures i < BIT_COUNT
    ensures forall k :: 0 <= k < i ==> GetNthMSBit(a, k) == GetNthMSBit(b, k)
    ensures GetNthMSBit(a, i) != GetNthMSBit(b, i)
    ensures Lt(a, b) <==> GetNthMSBit(a, i) == Ok(false)
  {
    BitsAreNumber(a);
    BitsAreNumber(b);
    OrderIsNumeric(a, b);
    if Bits(a) == Bits(b) {
      ArrayLessIsLess(a.bytes, b.bytes);
      ValueIsInjective(256, Octets(a.bytes), Octets(b.bytes));
      assert false;
    }
    i := DifferentHaveFirstDifference(Bits(a), Bits(b));
    LessAtFirstDifference(Bits(a), Bits(b), i);
    LessIsNumeric(2, Bits(a), Bits(b));
    LessIsNumeric(2, Bits(b), Bits(a));
    if Number(a) == Number(b) {
      ValueIsInjective(2, Bits(a), Bits(b));
      assert false;
    }
    forall k | 0 <= k < i
      ensures GetNthMSBit(a, k) == GetNthMSBit(b, k)
    {
      assert Bits(a)[k] == Bits(a)[..i][k] == Bits(b)[..i][k] == Bits(b)[k];
    }
  }
}
