/** extF80_roundToInt: a format whose integer bit is stored, so that a carry out of the significand
    has to be put into the exponent by hand. */
module ExtF80RoundToInt {
  import opened Arith
  import opened Words
  import opened Floats
  import opened Encoding
  import opened Rounding
  import opened RoundInt

  /** The value, in units, of an exponent field and a significand with explicit integer bit. */
  function ExtValue(exp: nat, sig: nat): nat { sig * Pow2(if exp == 0 then 0 else exp - 1) }

  /** The value 1: significand 2^63 with exponent field 0x3FFF. */
  function ExtOne(): nat { TWO63 * Pow2(0x3FFE) }

  /** That is the value of one's encoding. */
  lemma OneIsEncoded()
    ensures ExtValue(0x3FFF, 0x8000_0000_0000_0000) == ExtOne()
  {
  }

  /** Encodings the format's arithmetic produces: the integer bit is set unless the exponent field is zero. */
  predicate Canonical(exp: nat, sig: nat) { exp < 0x8000 && sig < TWO64 && (exp == 0 || sig >= TWO63) }

  datatype Result = NaN | Extended(sign: bool, exp: nat, sig: nat, inexact: bool)

  ghost predicate ExtRounded(mode: Mode, exact: bool, sign: bool, exp: nat, sig: nat, z: Result) {
    if exp == 0x7FFF then z == if sig % TWO63 != 0 then NaN else Extended(sign, exp, TWO63, false)
    else
      var V, one := ExtValue(exp, sig), ExtOne();
      && z.Extended? && one > 0 && z.sign == sign && z.exp < 0x7FFF && Canonical(z.exp, z.sig)
      && ExtValue(z.exp, z.sig) == Round(mode, sign, V, one) * one
      && (z.inexact <==> exact && V % one != 0)
  }

  /** Wrapping a sum keeps its bits below 2^64, hence its remainder, its units bit and its masked part. */
  lemma WrappedSum(t: nat, L: nat, m: nat)
    requires L > 0 && m % 2 == 0 && TWO64 == Times(m, L)
    ensures Wrap64(t) % L == t % L && Wrap64(t) / L % 2 == t / L % 2
    ensures t % L <= Wrap64(t) && Wrap64(t) - t % L == Wrap64(t - t % L)
  {
    var c, w := t / TWO64, Wrap64(t);
    LowPart(c, w, L, m, TWO64);
    ModAtMost(w, L);
    ModIs(t - t % L, TWO64, c, w - w % L);
  }

  lemma WrappedParts(q: nat, r: nat, L: nat, m: nat, inc: nat)
    requires L > 0 && m % 2 == 0 && TWO64 == Times(m, L) && r < L && inc <= L
    ensures var w := Wrap64(q * L + r + inc);
            var k := if r + inc >= L then q + 1 else q;
            && w % L <= w && w - w % L == Wrap64(k * L) && w / L % 2 == k % 2
            && w % L == (if r + inc >= L then r + inc - L else r + inc)
  {
    SumParts(q, r, L, inc);
    WrappedSum(q * L + r + inc, L, m);
  }

  /** The number of units the addition and the mask leave of q units and a rest r. */
  ghost function RoundedUnits(mode: Mode, neg: bool, unit: nat, q: nat, r: nat): nat {
    if !mode.Odd? && RaisesUnits(mode, neg, false, unit, q, r) then q + 1 else q
  }

  /** The significand rounded to a multiple of L, all but round-to-odd's last step. */
  method RoundSignificand(mode: Mode, neg: bool, sigA: U64, L: U64, half: nat, ghost m: nat, ghost q: nat,
                          ghost r: nat) returns (sigZ: U64)
    requires L == 2 * half && half > 0 && m % 2 == 0 && TWO64 == Times(m, L) && sigA == q * L + r && r < L
    ensures sigZ == Wrap64(Times(RoundedUnits(mode, neg, L, q, r), L))
  {
    var rest, unitSet;
    ghost var k;
    if mode.NearMaxMag? {
      sigZ, rest, unitSet, k := AddInc(sigA, L, half, m, q, r);
    } else if mode.NearEven? {
      sigZ := ToNearestEven(sigA, L, half, m, q, r);
    } else if mode == (if neg then Min else Max) {
      sigZ, rest, unitSet, k := AddInc(sigA, L, L - 1, m, q, r);
    } else {
      sigZ, rest, unitSet, k := AddInc(sigA, L, 0, m, q, r);
    }
  }

  /** Adds, and splits the word at the units bit. */
  method AddInc(sigA: U64, L: U64, inc: U64, ghost m: nat, ghost q: nat, ghost r: nat)
      returns (sigZ: U64, rest: nat, unitSet: bool, ghost k: nat)
    requires L > 0 && inc <= L && m % 2 == 0 && TWO64 == Times(m, L) && sigA == q * L + r && r < L
    ensures sigZ == Wrap64(Times(k, L)) && k == if r + inc >= L then q + 1 else q
    ensures rest == if r + inc >= L then r + inc - L else r + inc
    ensures (unitSet <==> k % 2 == 1) && (unitSet && rest == 0 ==> sigZ >= L)
  {
    var sum := Wrap64(sigA + inc);
    WrappedParts(q, r, L, m, inc);
    k := if r + inc >= L then q + 1 else q;
    TimesIs(k, L);
    rest, unitSet := sum % L, sum / L % 2 == 1;
    sigZ := sum - rest;
    if unitSet { AtLeastOne(sum, L); }
  }

  method ToNearestEven(sigA: U64, L: U64, half: nat, ghost m: nat, ghost q: nat, ghost r: nat) returns (sigZ: U64)
    requires L == 2 * half && half > 0 && m % 2 == 0 && TWO64 == Times(m, L) && sigA == q * L + r && r < L
    ensures sigZ == Wrap64(Times(if r > half || (r == half && q % 2 == 1) then q + 1 else q, L))
  {
    var rest, unitSet;
    ghost var k;
    sigZ, rest, unitSet, k := AddInc(sigA, L, half, m, q, r);
    if rest == 0 && unitSet {
      WrapLess(Times(k, L), L);
      sigZ := sigZ - L;
    }
  }

  lemma WrapLess(t: nat, x: nat)
    requires x <= t && x <= Wrap64(t)
    ensures Wrap64(t - x) == Wrap64(t) - x
  {
    ModIs(t - x, TWO64, t / TWO64, Wrap64(t) - x);
  }

  /** The units bit of a value with this exponent field, and its place in the word. */
  lemma UnitsBitAt(exp: nat)
    requires 0x3FFF <= exp < 0x403E
    ensures var L, m := Pow2(0x403E - exp), Pow2(exp - 0x3FFE);
            && 1 < L < TWO64 && L % 2 == 0 && m % 2 == 0 && TWO64 == Times(m, L) && L * Pow2(exp - 1) == ExtOne()
  {
    Pow2Of64();
    Pow2Even(0x403E - exp);
    Pow2Even(exp - 0x3FFE);
    Pow2Lt(0x403E - exp, 64);
    SameWeight(exp - 0x3FFE, 0x403E - exp, 0, 64);
    TimesIs(Pow2(exp - 0x3FFE), Pow2(0x403E - exp));
    assert Pow2(64) == 2 * Pow2(63);
    SameWeight(0x403E - exp, exp - 1, 63, 0x3FFE);
  }

  /** Rounding the significand to a multiple of L is rounding the value to an integer. */
  lemma SignificandRounds(mode: Mode, exact: bool, sign: bool, exp: nat, sig: nat, L: nat, z: Result)
    requires 0 < exp < 0x7FFE && TWO63 <= sig < TWO64 && L > 0 && L * Pow2(exp - 1) == ExtOne()
    requires var R := Round(mode, sign, sig, L) * L;
             && TWO63 <= R <= TWO64
             && z == Extended(sign, if R == TWO64 then exp + 1 else exp, if R == TWO64 then TWO63 else R,
                              exact && sig % L != 0)
    ensures ExtRounded(mode, exact, sign, exp, sig, z)
  {
    var p, K := Pow2(exp - 1), Round(mode, sign, sig, L);
    RoundScale(mode, sign, sig, L, p);
    Assoc(K, L, p);
    if K * L == TWO64 {
      assert Pow2(exp) == 2 * p;
      Assoc(TWO63, 2, p);
    }
  }

  /** The multiples of L between the ends of the word. */
  lemma Bounds(sigA: U64, L: nat, m: nat, q: nat, r: nat, k: nat)
    requires TWO63 <= sigA && L > 0 && m % 2 == 0 && TWO64 == Times(m, L) && sigA == q * L + r && r < L
             && q <= k <= q + 1
    ensures TWO63 <= Times(k, L) <= TWO64 && (Times(k, L) == TWO64 <==> k == m) && q < m
    ensures sigA == TWO63 ==> r == 0
    ensures k == q ==> Times(k, L) == sigA - r
    ensures k == q + 1 ==> Times(k, L) == sigA - r + L
  {
    TimesIs(m, L);
    TimesIs(k, L);
    MulLtCancel(q, m, L);
    assert m / 2 * L == TWO63 by { assert m / 2 * L * 2 == m * L; }
    if q < m / 2 { MulLe(q + 1, m / 2, L); OneMore(q, L); assert false; }
    MulLe(m / 2, k, L);
    MulLe(k, m, L);
    if k < m { MulLt(k, m, L); }
    OneMore(q, L);
    if sigA == TWO63 { DivIs(sigA, L, m / 2); DivIs(sigA, L, q); }
  }

  /** Carries a significand that has wrapped to zero into the exponent. */
  method Renormalise(exp: nat, sigZ: U64) returns (exp': nat, sig': U64)
    ensures if sigZ == 0 then exp' == exp + 1 && sig' == TWO63 else exp' == exp && sig' == sigZ
  {
    exp', sig' := exp, sigZ;
    if sigZ == 0 {
      exp', sig' := exp + 1, TWO63;
    }
  }

  method RoundMiddle(mode: Mode, exact: bool, sign: bool, exp: nat, sigA: U64) returns (z: Result)
    requires 0x3FFF <= exp < 0x403E && TWO63 <= sigA
    ensures ExtRounded(mode, exact, sign, exp, sigA, z)
  {
    UnitsBitAt(exp);
    var lastBitMask := Pow2(0x403E - exp);
    ghost var m := Pow2(exp - 0x3FFE);
    var exp', sigZ, changed := RoundAndCarry(mode, sign, exp, sigA, lastBitMask, m);
    z := Extended(sign, exp', sigZ, exact && changed);
    SignificandRounds(mode, exact, sign, exp, sigA, lastBitMask, z);
  }

  method RoundAndCarry(mode: Mode, sign: bool, exp: nat, sigA: U64, L: U64, ghost m: nat)
      returns (exp': nat, sigZ: U64, changed: bool)
    requires TWO63 <= sigA && L > 1 && L % 2 == 0 && m % 2 == 0 && TWO64 == Times(m, L)
    ensures var R := Round(mode, sign, sigA, L) * L;
            && TWO63 <= R <= TWO64 && (changed <==> sigA % L != 0)
            && exp' == (if R == TWO64 then exp + 1 else exp) && sigZ == if R == TWO64 then TWO63 else R
  {
    ghost var q, r := UnitsAndRest(mode, sign, sigA, false, L, 1, 0);
    ghost var k := RoundedUnits(mode, sign, L, q, r);
    sigZ := RoundSignificand(mode, sign, sigA, L, L / 2, m, q, r);
    Bounds(sigA, L, m, q, r, k);
    exp', sigZ := Renormalise(exp, sigZ);
    changed := sigZ != sigA;
    if changed && mode.Odd? {
      sigZ := SetUnit(sigZ, L, m, k);
      k := if k % 2 == 0 then k + 1 else k;
    }
    TimesIs(k, L);
  }

  method SetUnit(sig: U64, L: U64, ghost m: nat, ghost k: nat) returns (sigZ: U64)
    requires L > 0 && m % 2 == 0 && TWO64 == Times(m, L) && sig == Times(k, L)
    ensures sigZ == Times(if k % 2 == 0 then k + 1 else k, L)
  {
    TimesIs(k, L);
    DivIs(sig, L, k);
    sigZ := sig;
    if sigZ / L % 2 == 0 {
      RoomForUnits(sig, L, m, TWO64);
      sigZ := sig + L;
    }
  }

  /** Where a value below one lies. */
  lemma BelowOneBounds(exp: nat, sig: nat)
    requires exp <= 0x3FFE && 0 < sig < TWO64 && (exp > 0 ==> TWO63 <= sig)
    ensures var V, one := ExtValue(exp, sig), ExtOne();
            && 0 < V < one && (2 * V >= one <==> exp == 0x3FFE) && (2 * V == one <==> exp == 0x3FFE && sig == TWO63)
  {
    var e, top := if exp == 0 then 0 else exp - 1, Pow2(0x3FFC);
    assert Pow2(0x3FFD) == 2 * top && Pow2(0x3FFE) == 4 * top;
    MulLt(0, sig, Pow2(e));
    MulLt(sig, TWO64, Pow2(e));
    if exp == 0x3FFE {
      MulLe(TWO63, sig, 2 * top);
      if sig > TWO63 { MulLt(TWO63, sig, 2 * top); }
    } else {
      Pow2Le(e, 0x3FFC);
      MulLe(Pow2(e), top, TWO64);
    }
  }

  method BecomesOne(mode: Mode, sign: bool, exp: int, sigA: U64) returns (mag1: bool)
    ensures mag1 <==> Up(mode, sign, false, false, if exp != 0x3FFE then -1 else if sigA % TWO63 != 0 then 1 else 0)
  {
    mag1 := false;
    if (mode.NearEven? && sigA % TWO63 != 0) || mode.NearMaxMag? {
      mag1 := exp == 0x3FFE;
    } else if mode.Min? {
      mag1 := sign;
    } else if mode.Max? {
      mag1 := !sign;
    } else if mode.Odd? {
      mag1 := true;
    }
  }

  /** Puts the integer bit in place, if it is not; the exponent may go below zero. */
  method Normalise(exp: nat, sig: U64) returns (e: int, s: U64)
    requires sig > 0
    ensures TWO63 <= s && e <= exp
    ensures if e > 0 then ExtValue(e, s) == ExtValue(exp, sig) else exp <= 64
  {
    e, s := exp, sig;
    if sig < TWO63 {
      Pow2Of64();
      assert Pow2(64) == 2 * Pow2(63);
      var zeros := LeadingZeros(sig, 64);
      e, s := exp - zeros, sig * Pow2(zeros);
      if e > 0 {
        Pow2Add(zeros, e - 1);
        Assoc(sig, Pow2(zeros), Pow2(e - 1));
      }
    }
  }

  /** Encodings of one value have the same rounded results. */
  lemma SameValue(mode: Mode, exact: bool, sign: bool, exp: nat, sig: nat, exp': nat, sig': nat, z: Result)
    requires exp < 0x7FFF && exp' < 0x7FFF && ExtValue(exp, sig) == ExtValue(exp', sig')
    requires ExtRounded(mode, exact, sign, exp', sig', z)
    ensures ExtRounded(mode, exact, sign, exp, sig, z)
  {
  }

  /** With a small exponent field a value is far below one half. */
  lemma TinyIs(mode: Mode, exact: bool, sign: bool, exp: nat, sig: nat, mag1: bool)
    requires exp <= 64 && 0 < sig < TWO64 && (mag1 <==> Up(mode, sign, false, false, -1))
    ensures ExtRounded(mode, exact, sign, exp, sig,
                       if mag1 then Extended(sign, 0x3FFF, TWO63, exact) else Extended(sign, 0, 0, exact))
  {
    TinyValue(exp, sig, 0x3FFE);
    SmallRound(mode, sign, ExtValue(exp, sig), ExtOne());
    assert ExtValue(0, 0) == 0;
    assert ExtValue(0x3FFF, TWO63) == ExtOne();
  }

  lemma TinyValue(exp: nat, sig: nat, k: nat)
    requires exp <= 64 && 0 < sig < TWO64 && k > 66
    ensures 0 < ExtValue(exp, sig) && 2 * ExtValue(exp, sig) < TWO63 * Pow2(k)
  {
    var p := Pow2(if exp == 0 then 0 else exp - 1);
    Pow2Le(if exp == 0 then 0 else exp - 1, 63);
    Pow2Le(66, k);
    assert Pow2(66) == 8 * Pow2(63);
    MulLt(0, sig, p);
    MulLt(sig, TWO64, p);
    MulLe(4 * p, Pow2(k), TWO63);
  }

  lemma BelowOneIs(mode: Mode, exact: bool, sign: bool, exp: nat, sig: nat, mag1: bool)
    requires exp <= 0x3FFE && 0 < sig < TWO64 && (exp > 0 ==> TWO63 <= sig)
    requires mag1 <==> Up(mode, sign, false, false, if exp != 0x3FFE then -1 else if sig > TWO63 then 1 else 0)
    ensures ExtRounded(mode, exact, sign, exp, sig,
                       if mag1 then Extended(sign, 0x3FFF, TWO63, exact) else Extended(sign, 0, 0, exact))
  {
    BelowOneBounds(exp, sig);
    SmallRound(mode, sign, ExtValue(exp, sig), ExtOne());
    assert ExtValue(0, 0) == 0;
    assert ExtValue(0x3FFF, TWO63) == ExtOne();
  }

  lemma SmallRound(mode: Mode, sign: bool, V: nat, one: nat)
    requires 0 < V < one
    ensures Round(mode, sign, V, one) == (if Up(mode, sign, false, false, 2 * V - one) then 1 else 0) && V % one == V
  {
    DivIs(V, one, 0);
  }

  lemma LargeIs(mode: Mode, exact: bool, sign: bool, exp: nat, sig: nat)
    requires 0x403E <= exp < 0x7FFF && TWO63 <= sig < TWO64
    ensures ExtRounded(mode, exact, sign, exp, sig, Extended(sign, exp, sig, false))
  {
    var one := ExtOne();
    var k := IntegralValue(exp, sig);
    MulLt(0, TWO63, Pow2(0x3FFE));
    RoundExact(mode, sign, k, one);
    DivIs(k * one, one, k);
  }

  lemma IntegralValue(exp: nat, sig: nat) returns (k: nat)
    requires 0x403E <= exp
    ensures ExtValue(exp, sig) == k * ExtOne()
  {
    k := sig * Pow2(exp - 0x403E);
    Multiple(sig, exp - 0x403E, 0x3FFE);
  }

  lemma Multiple(sig: nat, d: nat, k: nat)
    ensures sig * Pow2(d + 63 + k) == sig * Pow2(d) * (TWO63 * Pow2(k))
  {
    Pow2Of64();
    assert Pow2(64) == 2 * Pow2(63);
    SameWeight(63, k, 0, 63 + k);
    SameWeight(d, 63 + k, 0, d + 63 + k);
    Assoc(sig, Pow2(d), TWO63 * Pow2(k));
  }

  lemma ZeroIs(mode: Mode, exact: bool, sign: bool)
    ensures ExtRounded(mode, exact, sign, 0, 0, Extended(sign, 0, 0, false))
  {
    MulLt(0, TWO63, Pow2(0x3FFE));
    RoundExact(mode, sign, 0, ExtOne());
  }

  /** Every encoding: those without their integer bit have their value, too. */
  method RoundToInt(mode: Mode, exact: bool, sign: bool, exp: nat, sig: U64) returns (z: Result)
    requires exp < 0x8000
    ensures ExtRounded(mode, exact, sign, exp, sig, z)
  {
    if sig < TWO63 && exp != 0x7FFF && sig == 0 {
      ZeroIs(mode, exact, sign);
      SameValue(mode, exact, sign, exp, sig, 0, 0, Extended(sign, 0, 0, false));
      return Extended(sign, 0, 0, false);
    }
    if exp == 0x7FFF {
      return if sig % TWO63 != 0 then NaN else Extended(sign, exp, TWO63, false);
    }
    var e, sigA := Normalise(exp, sig);
    if 0x403E <= e {
      LargeIs(mode, exact, sign, e, sigA);
      z := Extended(sign, e, sigA, false);
    } else if e <= 0x3FFE {
      var mag1 := BecomesOne(mode, sign, e, sigA);
      z := if mag1 then Extended(sign, 0x3FFF, TWO63, exact) else Extended(sign, 0, 0, exact);
      if e <= 0 {
        TinyIs(mode, exact, sign, exp, sig, mag1);
        return;
      }
      BelowOneIs(mode, exact, sign, e, sigA, mag1);
    } else {
      z := RoundMiddle(mode, exact, sign, e, sigA);
    }
    SameValue(mode, exact, sign, exp, sig, e, sigA, z);
  }

  /** Nothing with exponent field zero reaches the value one. */
  lemma SubnormalBelowOne(sig: nat, k: nat)
    requires sig < TWO64 && k > 0
    ensures sig < TWO63 * Pow2(k)
  {
    Pow2Le(1, k);
    MulLe(2, Pow2(k), TWO63);
  }

  /** A canonical multiple of one is zero or has its integer bit set. */
  lemma IntegralForm(exp: nat, sig: nat, k: nat)
    requires Canonical(exp, sig) && ExtValue(exp, sig) == k * ExtOne()
    ensures if k == 0 then exp == 0 && sig == 0 else exp > 0 && TWO63 <= sig
  {
    if k > 0 { MulLe(1, k, ExtOne()); }
    if exp == 0 {
      SubnormalBelowOne(sig, 0x3FFE);
    } else {
      MulLt(0, sig, Pow2(exp - 1));
    }
  }

  /** The canonical form of an integral value is unique. */
  lemma SameIntegral(exp: nat, sig: nat, exp': nat, sig': nat, k: nat)
    requires Canonical(exp, sig) && Canonical(exp', sig')
    requires ExtValue(exp, sig) == k * ExtOne() && ExtValue(exp', sig') == k * ExtOne()
    ensures exp == exp' && sig == sig'
  {
    IntegralForm(exp, sig, k);
    IntegralForm(exp', sig', k);
    if k > 0 {
      var u, u' := (exp - 1) * TWO63 + sig, (exp' - 1) * TWO63 + sig';
      EncodedAt(TWO63, exp - 1, sig, u);
      EncodedAt(TWO63, exp' - 1, sig', u');
      EncodedInOrder(TWO63, u, u');
    }
  }

  /** There is only one such result. */
  lemma ExtRoundedUnique(mode: Mode, exact: bool, sign: bool, exp: nat, sig: nat, z: Result, z': Result)
    requires ExtRounded(mode, exact, sign, exp, sig, z) && ExtRounded(mode, exact, sign, exp, sig, z')
    ensures z == z'
  {
    if exp != 0x7FFF {
      var k := Round(mode, sign, ExtValue(exp, sig), ExtOne());
      SameIntegral(z.exp, z.sig, z'.exp, z'.sig, k);
    }
  }

  /** Rounding a result again, in any mode, returns it and is exact. */
  lemma ExtRoundedIdempotent(mode: Mode, exact: bool, sign: bool, exp: nat, sig: nat, z: Result,
                             mode': Mode, exact': bool, z': Result)
    requires exp < 0x7FFF && ExtRounded(mode, exact, sign, exp, sig, z)
    requires ExtRounded(mode', exact', z.sign, z.exp, z.sig, z')
    ensures z' == Extended(z.sign, z.exp, z.sig, false)
  {
    var k := Round(mode, sign, ExtValue(exp, sig), ExtOne());
    RoundExact(mode', z.sign, k, ExtOne());
    DivIs(k * ExtOne(), ExtOne(), k);
    SameIntegral(z.exp, z.sig, z'.exp, z'.sig, k);
  }
}
