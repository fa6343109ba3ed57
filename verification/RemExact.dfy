/** Why a remainder never needs rounding: it is itself a number of the format. */
module RemExact {
  import opened Arith
  import opened Encoding
  import opened Rounding
  import opened RoundPack
  import opened RemCore

  /** Every encoding's value is a significand times a power of two, normalised unless the power is one. */
  lemma EncodedParts(hidden: nat, u: nat) returns (k: nat, i: nat)
    requires hidden > 0
    ensures EncodedValue(hidden, u) == k * Pow2(i) && k < 2 * hidden && (i == 0 || k >= hidden)
  {
    var e := ExpField(hidden, u);
    if e == 0 {
      k, i := u, 0;
      EncodedSmall(hidden, u);
    } else {
      OneMore(e - 1, hidden);
      k, i := u - (e - 1) * hidden, e - 1;
      EncodedAt(hidden, i, k, u);
    }
  }

  /** And every such number has an encoding. */
  lemma {:induction false} EncodingOf(hidden: nat, k: nat, i: nat) returns (u: nat)
    requires hidden > 0 && k < 2 * hidden
    ensures EncodedValue(hidden, u) == k * Pow2(i)
    decreases i
  {
    if k >= hidden {
      u := i * hidden + k;
      EncodedAt(hidden, i, k, u);
    } else if i == 0 {
      u := k;
      EncodedSmall(hidden, k);
    } else {
      u := EncodingOf(hidden, 2 * k, i - 1);
      Assoc(k, 2, Pow2(i - 1));
    }
  }

  /** Of two multiples of p, what the nearest multiple of the second leaves of the first is a
      multiple of p, at most half the second. */
  lemma LeftInUnits(x: nat, y: nat, p: nat, n: int)
    requires p > 0 && NearestQuotient(x * p, y * p, n)
    ensures x * p - n * (y * p) == (x - n * y) * p
    ensures -(y as int) <= 2 * (x - n * y) <= y
  {
    var m := n * y;
    Assoc(n, y, p);
    Difference(x, m, p);
    HalfBound(x - m, y, p);
  }

  lemma Difference(x: int, m: int, p: int)
    ensures (x - m) * p == x * p - m * p
  {
  }

  lemma HalfBound(c: int, y: nat, p: nat)
    requires p > 0 && 0 - y * p <= 2 * (c * p) <= y * p
    ensures -(y as int) <= 2 * c <= y
  {
    Assoc(2, c, p);
    MulLeCancel(2 * c, y, p);
    Difference(0, y, p);
    MulLeCancel(0 - y, 2 * c, p);
  }

  function Abs(x: int): nat { if x < 0 then -x else x }

  lemma AbsTimes(c: int, p: nat)
    ensures Abs(c) * p == Abs(c * p)
  {
    if c < 0 { MulLe(c, 0, p); } else { MulLe(0, c, p); }
  }

  /** The divisor's significand is at least as fine. */
  lemma CoarseDividend(hidden: nat, ka: nat, i: nat, kb: nat, j: nat, n: int) returns (u: nat)
    requires hidden > 0 && kb < 2 * hidden && i >= j && NearestQuotient(ka * Pow2(i), kb * Pow2(j), n)
    ensures EncodedValue(hidden, u) == Abs(ka * Pow2(i) - n * (kb * Pow2(j)))
  {
    var x, p := ka * Pow2(i - j), Pow2(j);
    Pow2Add(i - j, j);
    Assoc(ka, Pow2(i - j), p);
    LeftInUnits(x, kb, p, n);
    var c := x - n * kb;
    u := EncodingOf(hidden, Abs(c), j);
    AbsTimes(c, p);
  }

  lemma FineDividend(hidden: nat, ka: nat, i: nat, kb: nat, j: nat, n: int) returns (u: nat)
    requires hidden > 0 && ka < 2 * hidden && 0 < kb && i < j && NearestQuotient(ka * Pow2(i), kb * Pow2(j), n)
    ensures EncodedValue(hidden, u) == Abs(ka * Pow2(i) - n * (kb * Pow2(j)))
  {
    var y, p := kb * Pow2(j - i), Pow2(i);
    Pow2Add(j - i, i);
    Assoc(kb, Pow2(j - i), p);
    LeftInUnits(ka, y, p, n);
    var c := ka - n * y;
    MulLt(0, kb, Pow2(j - i));
    NoMoreThanDividend(ka, y, n);
    u := EncodingOf(hidden, Abs(c), i);
    AbsTimes(c, p);
  }

  /** What is left is no more than what there was. */
  lemma NoMoreThanDividend(x: nat, y: nat, n: int)
    requires y > 0 && -(y as int) <= 2 * (x - n * y) <= y
    ensures Abs(x - n * y) <= x
  {
    if n < 0 { MulLe(n, -1, y); }
    if n > 0 { MulLe(1, n, y); }
  }

  /** The remainder of two numbers of a format is a number of the format. */
  lemma RemainderIsRepresentable(hidden: nat, ua: nat, ub: nat, n: int) returns (u: nat)
    requires hidden > 0 && EncodedValue(hidden, ub) > 0
             && NearestQuotient(EncodedValue(hidden, ua), EncodedValue(hidden, ub), n)
    ensures EncodedValue(hidden, u) == Abs(EncodedValue(hidden, ua) - n * EncodedValue(hidden, ub)) && u <= ub
  {
    var ka, i := EncodedParts(hidden, ua);
    var kb, j := EncodedParts(hidden, ub);
    if i >= j {
      u := CoarseDividend(hidden, ka, i, kb, j, n);
    } else {
      u := FineDividend(hidden, ka, i, kb, j, n);
    }
    EncodedInOrder(hidden, ub, u);
  }

  /** Numbers of the format round to themselves. */
  lemma RepresentableRounds(hidden: nat, mode: Mode, neg: bool, u: nat, e: nat, v: nat)
    requires hidden > 0 && IsRounding(hidden, mode, neg, EncodedValue(hidden, u), 1, e, v)
    ensures v == EncodedValue(hidden, u) && EncodedValue(hidden, u) % (1 * Pow2(e)) == 0
  {
    var k, i := EncodedParts(hidden, u);
    NoCoarser(hidden, k, i, e);
    var q := k * Pow2(i - e);
    Pow2Add(i - e, e);
    Assoc(k, Pow2(i - e), Pow2(e));
    RoundExact(mode, neg, q, Pow2(e));
    DivIs(q * Pow2(e), Pow2(e), q);
  }

  /** The last place kept is not above the number's own. */
  lemma NoCoarser(hidden: nat, k: nat, i: nat, e: nat)
    requires hidden > 0 && k < 2 * hidden && (e == 0 || hidden * (1 * Pow2(e)) <= k * Pow2(i))
    ensures e <= i
  {
    if e > i {
      Pow2Lt(i, e);
      MulLe(2 * Pow2(i), Pow2(e), hidden);
      MulLt(k, 2 * hidden, Pow2(i));
      Assoc(hidden, 2, Pow2(i));
      assert false;
    }
  }

  /** So packing one raises nothing. */
  lemma PackedExactly(hidden: nat, top: nat, mode: Mode, before: bool, neg: bool, u: nat, z: Packed)
    requires hidden > 0 && top > 2 && u < top * hidden
    requires CorrectlyRounded(hidden, top, mode, before, neg, EncodedValue(hidden, u), 1, z)
    ensures z == Packed(neg, u, false, false, false)
  {
    var e, v :| Rounded(hidden, top, mode, before, neg, EncodedValue(hidden, u), 1, e, v, z);
    RepresentableRounds(hidden, mode, neg, u, e, v);
    EncodingBelowLimit(hidden, top, u);
    EncodedInOrder(hidden, u, z.raw);
  }

  lemma EncodingBelowLimit(hidden: nat, top: nat, u: nat)
    requires hidden > 0 && top > 2 && u < top * hidden
    ensures EncodedValue(hidden, u) < Limit(hidden, top) == EncodedValue(hidden, top * hidden)
  {
    var e := top - 2;
    OneMore(e, hidden);
    OneMore(e + 1, hidden);
    EncodedAt(hidden, e, 2 * hidden, top * hidden);
    EncodedInOrder(hidden, u, top * hidden);
  }

  /** A rounded result is encoded at most as infinity. */
  lemma RawAtMostInfinity(hidden: nat, top: nat, mode: Mode, before: bool, neg: bool, num: nat, den: nat, z: Packed)
    requires hidden > 0 && top > 2 && den > 0 && CorrectlyRounded(hidden, top, mode, before, neg, num, den, z)
    ensures z.raw <= top * hidden && z.sign == neg
  {
    MulLt(0, top, hidden);
    EncodingBelowLimit(hidden, top, 0);
    EncodedInOrder(hidden, z.raw, top * hidden);
  }
}
