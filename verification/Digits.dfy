/** Numbers written as digit strings, most significant digit first. */
module Digits {

  predicate Wf(base: nat, s: seq<nat>) {
    forall i :: 0 <= i < |s| ==> s[i] < base
  }

  function Pow(base: nat, n: nat): nat {
    if n == 0 then 1 else base * Pow(base, n - 1)
  }

  function Value(base: nat, s: seq<nat>): nat {
    if s == [] then 0 else s[0] * Pow(base, |s| - 1) + Value(base, s[1..])
  }

  /** The order of std::array: decided at the first place where the digits differ. */
  predicate Less(s: seq<nat>, t: seq<nat>)
    requires |s| == |t|
  {
    s != [] && (s[0] < t[0] || (s[0] == t[0] && Less(s[1..], t[1..])))
  }

  lemma {:induction false} ValueIsBounded(base: nat, s: seq<nat>)
    requires Wf(base, s) && base > 0
    ensures Value(base, s) < Pow(base, |s|)
  {
    if s != [] {
      ValueIsBounded(base, s[1..]);
      BelowNextPower(base, s[0], Pow(base, |s| - 1), Value(base, s[1..]));
    }
  }

  lemma BelowNextPower(base: nat, d: nat, p: nat, x: nat)
    requires d < base && x < p
    ensures d * p + x < base * p
  {
    FirstDigitDecides(d, base, p, x, 0);
  }

  /** Comparing digit by digit compares the numbers. */
  lemma {:induction false} LessIsNumeric(base: nat, s: seq<nat>, t: seq<nat>)
    requires |s| == |t| && Wf(base, s) && Wf(base, t) && base > 0
    ensures Less(s, t) <==> Value(base, s) < Value(base, t)
  {
    if s != [] {
      LessIsNumeric(base, s[1..], t[1..]);
      ValueIsBounded(base, s[1..]);
      ValueIsBounded(base, t[1..]);
      FirstDigitDecides(s[0], t[0], Pow(base, |s| - 1), Value(base, s[1..]), Value(base, t[1..]));
    }
  }

  lemma FirstDigitDecides(a: nat, b: nat, p: nat, x: nat, y: nat)
    requires x < p && y < p
    ensures a < b ==> a * p + x < b * p + y
    ensures a > b ==> a * p + x > b * p + y
  {
    if a < b { Apart(a, b, p); }
    if a > b { Apart(b, a, p); }
  }

  lemma Apart(a: nat, b: nat, p: nat)
    requires a < b
    ensures a * p + p <= b * p
  {
    var d: nat := b - a - 1;
    assert b * p == (a + 1 + d) * p == a * p + p + d * p;
  }

  /** Equal numbers have equal digits. */
  lemma {:induction false} ValueIsInjective(base: nat, s: seq<nat>, t: seq<nat>)
    requires |s| == |t| && Wf(base, s) && Wf(base, t) && base > 0
    requires Value(base, s) == Value(base, t)
    ensures s == t
  {
    if s != [] {
      ValueIsBounded(base, s[1..]);
      ValueIsBounded(base, t[1..]);
      FirstDigitDecides(s[0], t[0], Pow(base, |s| - 1), Value(base, s[1..]), Value(base, t[1..]));
      ValueIsInjective(base, s[1..], t[1..]);
    }
  }

  /** The first place where two digit strings differ. */
  predicate FirstDifference(s: seq<nat>, t: seq<nat>, i: nat)
    requires |s| == |t|
  {
    i < |s| && s[..i] == t[..i] && s[i] != t[i]
  }

  lemma {:induction false} LessAtFirstDifference(s: seq<nat>, t: seq<nat>, i: nat)
    requires |s| == |t| && FirstDifference(s, t, i)
    ensures Less(s, t) <==> s[i] < t[i]
  {
    if i > 0 {
      assert s[0] == s[..i][0] == t[..i][0] == t[0];
      assert s[1..][..i - 1] == s[..i][1..] == t[..i][1..] == t[1..][..i - 1];
      LessAtFirstDifference(s[1..], t[1..], i - 1);
    }
  }

  lemma {:induction false} DifferentHaveFirstDifference(s: seq<nat>, t: seq<nat>) returns (i: nat)
    requires |s| == |t| && s != t
    ensures FirstDifference(s, t, i)
  {
    if s[0] != t[0] {
      i := 0;
    } else {
      assert s == [s[0]] + s[1..] && t == [t[0]] + t[1..];
      var j := DifferentHaveFirstDifference(s[1..], t[1..]);
      i := j + 1;
      assert s[..i] == [s[0]] + s[1..][..j] && t[..i] == [t[0]] + t[1..][..j];
    }
  }

  lemma {:induction false} PowAdds(base: nat, m: nat, n: nat)
    ensures Pow(base, m + n) == Pow(base, m) * Pow(base, n)
  {
    if m > 0 {
      PowAdds(base, m - 1, n);
      Regroup(base, Pow(base, m - 1), Pow(base, n));
    }
  }

  lemma Regroup(a: nat, b: nat, c: nat)
    ensures a * (b * c) == (a * b) * c
  {
  }

  lemma {:induction false} ValueOfConcat(base: nat, s: seq<nat>, t: seq<nat>)
    ensures Value(base, s + t) == Value(base, s) * Pow(base, |t|) + Value(base, t)
  {
    if s == [] {
      assert s + t == t;
    } else {
      assert (s + t)[1..] == s[1..] + t;
      ValueOfConcat(base, s[1..], t);
      PowAdds(base, |s| - 1, |t|);
      Distribute(s[0], Pow(base, |s| - 1), Value(base, s[1..]), Pow(base, |t|));
    }
  }

  lemma Distribute(d: nat, p: nat, v: nat, q: nat)
    ensures (d * p + v) * q == d * (p * q) + v * q
  {
    assert d * p * q == d * (p * q);
  }

  lemma QuotientAndRemainder(n: nat, q: nat, p: nat, r: nat)
    requires r < p && n == q * p + r
    ensures n / p == q && n % p == r
  {
    if n / p < q {
      Apart(n / p, q, p);
    }
    if n / p > q {
      Apart(q, n / p, p);
    }
  }

  /** Dividing by a power drops the last digits. */
  lemma DropDigits(base: nat, s: seq<nat>, j: nat)
    requires Wf(base, s) && base > 0 && j <= |s|
    ensures Pow(base, j) > 0 && Value(base, s) / Pow(base, j) == Value(base, s[..|s| - j])
  {
    var hi, lo := s[..|s| - j], s[|s| - j..];
    assert s == hi + lo;
    ValueOfConcat(base, hi, lo);
    ValueIsBounded(base, lo);
    QuotientAndRemainder(Value(base, s), Value(base, hi), Pow(base, j), Value(base, lo));
  }

  lemma LastDigit(base: nat, s: seq<nat>, d: nat)
    requires d < base
    ensures Value(base, s + [d]) % base == d
  {
    ValueOfConcat(base, s, [d]);
    assert Value(base, [d]) == d && Pow(base, 1) == base;
    QuotientAndRemainder(Value(base, s + [d]), Value(base, s), base, d);
  }

  /** Every digit can be read off the number. */
  lemma DigitOfValue(base: nat, s: seq<nat>, j: nat)
    requires Wf(base, s) && base > 0 && j < |s|
    ensures Pow(base, j) > 0 && Value(base, s) / Pow(base, j) % base == s[|s| - 1 - j]
  {
    var k := |s| - 1 - j;
    DropDigits(base, s, j);
    LastDigit(base, s[..k], s[k]);
    assert s[..k + 1] == s[..k] + [s[k]];
  }
}
