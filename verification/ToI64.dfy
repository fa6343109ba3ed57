/** Truncating conversion of a 128-bit value to a signed 64-bit integer: what it must deliver
    (section 5.8 of IEEE 754-2019), and the integer part of an encoding. */
module ToI64Spec {
  import opened Arith
  import opened Words
  import opened Encoding
  import opened Rounding
  import opened RoundInt

  datatype I64 = I64(value: int, invalid: bool, inexact: bool)

  /** What this platform returns with the invalid exception. */
  function Unconvertible(nan: bool, neg: bool): I64 {
    I64(if nan then TWO63 - 1 else if neg then -(TWO63 as int) else TWO63 - 1, true, false)
  }

  predicate InRange(n: int) { -(TWO63 as int) <= n < TWO63 }

  /** The integer nearest n that a signed 64-bit word can hold. */
  ghost function Clamp(n: int): int {
    if n < -0x8000_0000_0000_0000 then -0x8000_0000_0000_0000
    else if n > 0x7FFF_FFFF_FFFF_FFFF then 0x7FFF_FFFF_FFFF_FFFF
    else n
  }

  /** The value truncated toward zero, as an integer. */
  ghost function Integer(b: Binary, ui: nat): int
    requires b.hidden > 0 && b.bias > 0 && One(b.hidden, b.bias) > 0
  {
    Signed(Negative(b, ui), EncodedValue(b.hidden, Unsigned(b, ui)) / One(b.hidden, b.bias))
  }

  /** The value truncated toward zero and, if that is out of range, brought to the end of the range
      it is beyond; a NaN becomes the largest integer. Invalid exactly for NaNs and out of range, and
      otherwise inexact exactly when asked for and a fraction was dropped. */
  ghost predicate TruncatedIn(b: Binary, ui: nat, exact: bool, z: I64) {
    && b.hidden > 0 && b.bias > 0 && One(b.hidden, b.bias) > 0
    && var nan, n := Unsigned(b, ui) > b.top * b.hidden, Integer(b, ui);
       && z.value == (if nan then 0x7FFF_FFFF_FFFF_FFFF else Clamp(n))
       && (z.invalid <==> nan || n != Clamp(n))
       && (z.inexact <==>
             exact && !z.invalid && EncodedValue(b.hidden, Unsigned(b, ui)) % One(b.hidden, b.bias) != 0)
  }

  ghost predicate Truncated(ui: nat, exact: bool, z: I64) { TruncatedIn(Binary128, ui, exact, z) }

  /** A larger number never becomes a smaller integer. */
  lemma ConversionIsMonotone(b: Binary, x: nat, y: nat, exact: bool, exact': bool, z: I64, z': I64)
    requires Unsigned(b, x) <= b.top * b.hidden && Unsigned(b, y) <= b.top * b.hidden
    requires TruncatedIn(b, x, exact, z) && TruncatedIn(b, y, exact', z')
    requires Signed(Negative(b, x), EncodedValue(b.hidden, Unsigned(b, x)))
          <= Signed(Negative(b, y), EncodedValue(b.hidden, Unsigned(b, y)))
    ensures z.value <= z'.value
  {
    var vx, vy := EncodedValue(b.hidden, Unsigned(b, x)), EncodedValue(b.hidden, Unsigned(b, y));
    var one := One(b.hidden, b.bias);
    QuotientInOrder(vx, vy, one);
    QuotientInOrder(vy, vx, one);
    QuotientInOrder(0, vx, one);
    QuotientInOrder(0, vy, one);
  }

  lemma QuotientInOrder(x: nat, y: nat, d: nat)
    requires d > 0
    ensures x <= y ==> x / d <= y / d
    ensures 0 / d == 0
  {
    var p, q := x / d, y / d;
    DivBounds(x, d);
    DivBounds(y, d);
    DivIs(0, d, 0);
    if x <= y && q < p { MulLe(q + 1, p, d); OneMore(q, d); }
  }

  /** Truncation gives back an integer that a word can hold. */
  lemma IntegersConvertExactly(b: Binary, ui: nat, n: int, exact: bool, z: I64)
    requires TruncatedIn(b, ui, exact, z) && Unsigned(b, ui) <= b.top * b.hidden && InRange(n)
    requires Signed(Negative(b, ui), EncodedValue(b.hidden, Unsigned(b, ui))) == n * One(b.hidden, b.bias)
    ensures z == I64(n, false, false)
  {
    var V, one := EncodedValue(b.hidden, Unsigned(b, ui)), One(b.hidden, b.bias);
    var q := if Negative(b, ui) then 0 - n else n;
    SignedTimes(Negative(b, ui), q, one);
    assert V == q * one;
    if q < 0 { MulLt(q, 0, one); }
    DivIs(V, one, q);
  }

  lemma Pow2Of49()
    ensures Pow2(49) == 0x2_0000_0000_0000
  {
    Pow2Of112();
    assert Pow2(49) == 2 * Pow2(48);
  }

  /** The operand as a significand, its hidden bit in place if it has one. */
  function Significand(u: nat, exp: nat): nat
    requires exp * Binary128.hidden <= u
  {
    u - exp * Binary128.hidden + if exp > 0 then Binary128.hidden else 0
  }

  /** Integer part and fraction of a value that may have one. */
  lemma IntegerPart(u: nat, exp: nat, L: nat)
    requires exp * Binary128.hidden <= u < exp * Binary128.hidden + Binary128.hidden
    requires exp <= 0x406F && L == Pow2(0x406F - exp)
    ensures var V, one := EncodedValue(Binary128.hidden, u), One(Binary128.hidden, Binary128.bias);
            var s := Significand(u, exp);
            one > 0 && V / one == s / L && (V % one == 0 <==> s % L == 0)
  {
    Binary128IsBinary();
    var hidden := Binary128.hidden;
    var s := Significand(u, exp);
    if exp == 0 {
      EncodedSmall(hidden, u);
      SubnormalPart(hidden, u, 0x3FFE, L);
    } else {
      OneMore(exp - 1, hidden);
      EncodedAt(hidden, exp - 1, s, u);
      OneIs(hidden, 112, 0x3FFE, 0x406F - exp, exp - 1);
      RoundScale(MinMag, false, s, L, Pow2(exp - 1));
    }
  }

  lemma OneIs(hidden: nat, F: nat, k: nat, x: nat, y: nat)
    requires hidden == Pow2(F) && F + k == x + y
    ensures hidden * Pow2(k) == Pow2(x) * Pow2(y)
  {
    SameWeight(F, k, x, y);
  }

  lemma SubnormalPart(hidden: nat, u: nat, k: nat, L: nat)
    requires u < hidden && hidden == Pow2(112) && L == Pow2(113 + k)
    ensures hidden * Pow2(k) > 0 && u / (hidden * Pow2(k)) == u / L && (u % (hidden * Pow2(k)) == 0 <==> u % L == 0)
  {
    MulLe(1, Pow2(k), hidden);
    Pow2Lt(112, 113 + k);
    DivIs(u, hidden * Pow2(k), 0);
    DivIs(u, L, 0);
  }

  /** The outcome for an operand whose integer part is known. */
  lemma Delivered(ui: nat, exact: bool, exp: nat, L: nat, absZ: nat, fraction: bool)
    requires HasExponent(Binary128, ui, exp) && exp <= 0x406F && L == Pow2(0x406F - exp)
    requires var s := Significand(Unsigned(Binary128, ui), exp); s / L == absZ && (s % L != 0 <==> fraction)
    ensures var neg := Negative(Binary128, ui);
            Truncated(ui, exact, if InRange(Signed(neg, absZ)) then I64(Signed(neg, absZ), false, exact && fraction)
                                 else Unconvertible(false, neg))
  {
    IntegerPart(Unsigned(Binary128, ui), exp, L);
  }

  /** From 2^64 up, infinities included, nothing fits. */
  lemma TooLarge(ui: nat, exp: nat, exact: bool, z: I64)
    requires HasExponent(Binary128, ui, exp) && 0x403E < exp
    requires z == Unconvertible(Unsigned(Binary128, ui) > Binary128.top * Binary128.hidden, Negative(Binary128, ui))
    ensures Truncated(ui, exact, z)
  {
    Binary128IsBinary();
    var hidden, u := Binary128.hidden, Unsigned(Binary128, ui);
    LargeValue(hidden, u, exp, 0x3FFE);
    MulLt(0, hidden, Pow2(0x3FFE));
    OutOfRange(Negative(Binary128, ui), EncodedValue(hidden, u), One(hidden, 0x3FFF));
  }

  lemma OutOfRange(neg: bool, V: nat, one: nat)
    requires one > 0 && V >= TWO64 * one
    ensures var n := Signed(neg, V / one);
            n != Clamp(n) == if neg then -0x8000_0000_0000_0000 else 0x7FFF_FFFF_FFFF_FFFF
  {
    var q := Floor(V, one);
    DivIs(V, one, q);
    if q < TWO64 { MulLe(q + 1, TWO64, one); OneMore(q, one); assert false; }
  }

  lemma LargeValue(hidden: nat, u: nat, exp: nat, k: nat)
    requires 0 < hidden && exp * hidden <= u && k + 65 <= exp
    ensures EncodedValue(hidden, u) >= TWO64 * (hidden * Pow2(k))
  {
    var e := k + 64;
    MulLe(e + 1, exp, hidden);
    OneMore(e, hidden);
    EncodedAt(hidden, e, hidden, e * hidden + hidden);
    EncodedInOrder(hidden, e * hidden + hidden, u);
    SixtyFourUp(hidden, k);
  }

  lemma SixtyFourUp(hidden: nat, k: nat)
    ensures hidden * Pow2(k + 64) == TWO64 * (hidden * Pow2(k))
  {
    Pow2Of64();
    SameWeight(64, k, 0, k + 64);
    var p := Pow2(k);
    assert hidden * (TWO64 * p) == TWO64 * (hidden * p);
  }
}

/** f128_to_i64_r_minMag: two 64-bit words. */
module F128ToI64 {
  import opened Arith
  import opened Words
  import opened Words128
  import opened Rounding
  import opened RoundInt
  import opened F128RoundToInt
  import opened ToI64Spec

  const TWO49: nat := 0x2_0000_0000_0000

  /** The units bit lies in the low word. */
  lemma LowShift(sig64: nat, sig0: U64, n: nat, p: nat, L: nat)
    requires 1 <= n <= 14 && sig64 < TWO49 && p == Pow2(n) && L == Pow2(64 - n)
    ensures var s := sig64 * TWO64 + sig0;
            && 0 <= sig64 * p && 0 <= sig0 / L && s / L == sig64 * p + sig0 / L < TWO63
            && (s % L == 0 <==> Wrap64(sig0 * p) == 0)
  {
    Pow2Of64();
    SameWeight(n, 64 - n, 0, 64);
    LowQuotient(sig64, sig0, p, L);
    LostBits(sig0, p, L);
    Small(sig64, p, n);
  }

  lemma LowQuotient(hi: nat, lo: nat, p: nat, L: nat)
    requires L > 0 && TWO64 == p * L && lo < TWO64
    ensures 0 <= hi * p && 0 <= lo / L < p
    ensures (hi * TWO64 + lo) / L == hi * p + lo / L && (hi * TWO64 + lo) % L == lo % L
  {
    var q := Floor(lo, L);
    DivIs(lo, L, q);
    MulLtCancel(q, p, L);
    Assoc(hi, p, L);
    Distribute(hi * p, q, L);
    DivIs(hi * TWO64 + lo, L, hi * p + q);
  }

  lemma LostBits(x: nat, p: nat, L: nat)
    requires L > 0 && p > 0 && TWO64 == p * L
    ensures Wrap64(x * p) == 0 <==> x % L == 0
  {
    ModScale(x, p, L);
    if x % L != 0 { MulLt(0, x % L, p); }
  }

  lemma Small(sig64: nat, p: nat, n: nat)
    requires n <= 14 && p == Pow2(n) && sig64 < TWO49
    ensures sig64 * p + p <= TWO63
  {
    Pow2Le(n, 14);
    assert Pow2(7) == 0x80;
    assert Pow2(14) == 0x4000;
    MulLe(sig64 + 1, TWO49, p);
    OneMore(sig64, p);
    MulLe(p, 0x4000, TWO49);
  }

  /** The units bit lies in the high word. */
  lemma HighShift(sig64: nat, sig0: U64, k: nat)
    requires sig64 < TWO49
    ensures var L, L64, s := Pow2(64 + k), Pow2(k), sig64 * TWO64 + sig0;
            && s / L == sig64 / L64 < TWO63
            && (s % L == 0 <==> sig0 == 0 && sig64 / L64 * L64 == sig64)
  {
    Pow2Of64();
    SameWeight(k, 64, 0, 64 + k);
    var q, r := StickyParts(MinMag, false, sig64, TWO64, sig0, Pow2(k));
    DivIs(sig64, Pow2(k), q);
    MulLe(1, Pow2(k), q);
  }

  lemma AllFraction(s: nat, k: nat)
    requires s < TWO49 * TWO64
    ensures s / Pow2(113 + k) == 0 && (s % Pow2(113 + k) == 0 <==> s == 0)
  {
    Pow2Of112();
    assert Pow2(113) == 2 * Pow2(112);
    Pow2Le(113, 113 + k);
    DivIs(s, Pow2(113 + k), 0);
  }

  /** The high word of the significand. */
  function High(w: U128): nat { Fraction64(w) + if Exponent(w) > 0 then TWO48 else 0 }

  lemma SignificandIs(w: U128)
    ensures Exponent(w) * Binary128.hidden <= Unsigned(Binary128, Value(w))
    ensures Significand(Unsigned(Binary128, Value(w)), Exponent(w)) == High(w) * TWO64 + w.v0
  {
    FieldOf(w);
  }

  /** The outcome for an operand whose integer part is known. */
  lemma Conclude(w: U128, exact: bool, L: nat, absZ: nat, fraction: bool)
    requires Exponent(w) <= 0x406F && L == Pow2(0x406F - Exponent(w))
    requires (High(w) * TWO64 + w.v0) / L == absZ && ((High(w) * TWO64 + w.v0) % L != 0 <==> fraction)
    requires InRange(Signed(w.v64 >= TWO63, absZ))
    ensures Truncated(Value(w), exact, I64(Signed(w.v64 >= TWO63, absZ), false, exact && fraction))
  {
    FieldOf(w);
    SignificandIs(w);
    Delivered(Value(w), exact, Exponent(w), L, absZ, fraction);
  }

  /** Exponent 0x403E: only -2^63, with any fraction, fits. */
  lemma AtTheEdge(w: U128, exact: bool)
    requires Exponent(w) == 0x403E
    ensures var n := Significand(Unsigned(Binary128, Value(w)), 0x403E) / TWO49;
            && n >= TWO63 && (n == TWO63 <==> Fraction64(w) == 0 && w.v0 < TWO49)
    ensures Significand(Unsigned(Binary128, Value(w)), 0x403E) >= TWO63 * TWO49 + w.v0
  {
    FieldOf(w);
    var s := Significand(Unsigned(Binary128, Value(w)), 0x403E);
    assert s == (TWO48 + Fraction64(w)) * TWO64 + w.v0;
    DivBounds(s, TWO49);
  }

  predicate MostNegative(w: U128) { w.v64 == 0xC03E_0000_0000_0000 && w.v0 < TWO49 }

  lemma Edge(w: U128, exact: bool, z: I64)
    requires Exponent(w) == 0x403E
    requires z == if MostNegative(w) then I64(-(TWO63 as int), false, exact && w.v0 != 0)
             else Unconvertible(false, w.v64 >= TWO63)
    ensures Truncated(Value(w), exact, z)
  {
    FieldOf(w);
    AtTheEdge(w, exact);
    Pow2Of49();
    var u := Unsigned(Binary128, Value(w));
    IntegerPart(u, 0x403E, TWO49);
    if MostNegative(w) {
      ModIs(Significand(u, 0x403E), TWO49, TWO63, w.v0);
    }
  }

  method Convert(w: U128, exact: bool) returns (z: I64)
    ensures TruncatedIn(Binary(112, 0x3FFF, 0x7FFF, 0x1_0000_0000_0000_0000_0000_0000_0000,
                               0x8000_0000_0000_0000_0000_0000_0000_0000),
                        Value(w), exact, z)
  {
    FieldOf(w);
    var exp, sign := Exponent(w), w.v64 >= TWO63;
    var sig64, sig0 := Fraction64(w), w.v0;
    var shiftDist: int := -(exp as int) + 0x402F;
    if shiftDist < -14 {
      if MostNegative(w) {
        z := I64(-(TWO63 as int), false, exact && sig0 != 0);
      } else {
        z := Unconvertible(exp == 0x7FFF && (sig64 != 0 || sig0 != 0), sign);
      }
      if exp == 0x403E { Edge(w, exact, z); } else { TooLarge(Value(w), exp, exact, z); }
    } else if shiftDist < 0 {
      z := ConvertLow(w, exact, exp, 0 - shiftDist);
    } else {
      z := ConvertHigh(w, exact, exp, shiftDist);
    }
  }

  method ConvertLow(w: U128, exact: bool, exp: nat, n: nat) returns (z: I64)
    requires exp == Exponent(w) && exp == 0x402F + n && 1 <= n <= 14
    ensures Truncated(Value(w), exact, z)
  {
    var absZ, fraction := ShiftLow(Fraction64(w) + TWO48, w.v0, n, Pow2(n), Pow2(64 - n));
    Conclude(w, exact, Pow2(64 - n), absZ, fraction);
    z := I64(Signed(w.v64 >= TWO63, absZ), false, exact && fraction);
  }

  method ShiftLow(sig64: U64, sig0: U64, n: nat, p: nat, L: nat) returns (absZ: nat, fraction: bool)
    requires 1 <= n <= 14 && sig64 < TWO49 && p == Pow2(n) && L == Pow2(64 - n)
    ensures absZ == (sig64 * TWO64 + sig0) / L < TWO63
    ensures fraction <==> (sig64 * TWO64 + sig0) % L != 0
  {
    LowShift(sig64, sig0, n, p, L);
    var high, low := sig64 * p, sig0 / L;
    var lost := Wrap64(sig0 * p);
    absZ, fraction := high + low, lost != 0;
  }

  lemma OnlyFraction(w: U128, exact: bool, shiftDist: nat, nonzero: bool)
    requires 49 <= shiftDist && shiftDist == 0x402F - Exponent(w)
    requires nonzero <==> Exponent(w) != 0 || Fraction64(w) != 0 || w.v0 != 0
    ensures Truncated(Value(w), exact, I64(0, false, exact && nonzero))
  {
    AllFraction(High(w) * TWO64 + w.v0, shiftDist - 49);
    Conclude(w, exact, Pow2(64 + shiftDist), 0, nonzero);
  }

  method ConvertHigh(w: U128, exact: bool, exp: nat, shiftDist: nat) returns (z: I64)
    requires exp == Exponent(w) && shiftDist == 0x402F - exp
    ensures Truncated(Value(w), exact, z)
  {
    var sig64 := Fraction64(w);
    if 49 <= shiftDist {
      var nonzero := exp != 0 || sig64 != 0 || w.v0 != 0;
      OnlyFraction(w, exact, shiftDist, nonzero);
      return I64(0, false, exact && nonzero);
    }
    sig64 := sig64 + TWO48;
    HighShift(sig64, w.v0, shiftDist);
    var absZ := sig64 / Pow2(shiftDist);
    var fraction := w.v0 != 0 || absZ * Pow2(shiftDist) != sig64;
    Conclude(w, exact, Pow2(64 + shiftDist), absZ, fraction);
    z := I64(Signed(w.v64 >= TWO63, absZ), false, exact && fraction);
  }
}

/** f128M_to_i64_r_minMag: four 32-bit words. */
module F128MToI64 {
  import opened Arith
  import opened Words
  import opened WordArrays
  import opened Rounding
  import opened RoundInt
  import opened RoundPack
  import opened WordShifts
  import opened ToI64Spec
  import opened F128MRoundToInt

  /** The fraction field, and the significand with its hidden bit if there is one. */
  function Frac96(ui96: U32): nat { ui96 % 0x1_0000 }

  function Number(w3: nat, w2: nat, w1: nat, w0: nat): nat {
    w3 * 0x1_0000_0000_0000_0000_0000_0000 + w2 * TWO64 + w1 * TWO32 + w0
  }

  ghost function SignificandOf(a: array<U32>): nat
    requires a.Length == 4
    reads a
  {
    Number(Frac96(a[3]) + (if Exponent(a[3]) > 0 then 0x1_0000 else 0), a[2], a[1], a[0])
  }

  lemma SignificandIs(a: array<U32>)
    requires a.Length == 4
    ensures var u, exp := Unsigned(Binary128, Num(a[..])), Exponent(a[3]);
            exp * Binary128.hidden <= u && Significand(u, exp) == SignificandOf(a)
  {
    FieldOf(a);
    Num4(a[..]);
  }

  /** 32 bits kept below the integer: the low word tells whether there is a fraction. */
  lemma JamSplits(x: nat, P: nat, D: nat)
    requires P > 0 && D == P * TWO32
    ensures D > 0 && Jam(x, P) / TWO32 == x / D && (Jam(x, P) % TWO32 == 0 <==> x % D == 0)
  {
    var n := Jam(x, P) / TWO32;
    DivBounds(Jam(x, P), TWO32);
    JamAround(x, P, n * TWO32);
    Regroup(n, P, D);
    DivIs(x, D, n);
  }

  lemma JamAround(x: nat, P: nat, p: nat)
    requires P > 0 && p % 2 == 0
    ensures Jam(x, P) >= p <==> x >= p * P
    ensures Jam(x, P) == p <==> x == p * P
    ensures Jam(x, P) < p + TWO32 <==> x < (p + TWO32) * P
  {
    JamCompares(x, P, p);
    JamCompares(x, P, p + TWO32);
  }

  lemma Regroup(n: nat, P: nat, D: nat)
    requires D == P * TWO32
    ensures n * TWO32 * P == n * D && (n * TWO32 + TWO32) * P == n * D + D
  {
    assert n * TWO32 * P == n * (P * TWO32);
    Distribute(n * TWO32, TWO32, P);
  }

  /** The significand shifted, the low word holding what is below the units. */
  method ShiftedSignificand(a: array<U32>, shiftDist: nat, ghost L: nat) returns (uiZ: U64, low: U32)
    requires a.Length == 4 && Exponent(a[3]) <= 0x403E && shiftDist == 0x403E - Exponent(a[3])
             && L == Pow2(shiftDist + 49)
    ensures uiZ == SignificandOf(a) / L && (low != 0 <==> SignificandOf(a) % L != 0)
  {
    var sig := new U32[4];
    sig[3] := Frac96(a[3]) + if Exponent(a[3]) != 0 then 0x1_0000 else 0;
    sig[2] := a[2];
    sig[1] := a[1];
    sig[0] := a[0];
    Num4(sig[..]);
    ghost var s := Num(sig[..]);
    ShiftRightJamM(sig, shiftDist + 17);
    uiZ, low := sig[2] * TWO32 + sig[1], sig[0];
    Num4(sig[..]);
    IntegerWords(s, shiftDist, L, sig[3], sig[2], sig[1], sig[0]);
  }

  lemma IntegerWords(s: nat, shiftDist: nat, L: nat, w3: U32, w2: U32, w1: U32, w0: U32)
    requires s < 0x2_0000 * 0x1_0000_0000_0000_0000_0000_0000 && L == Pow2(shiftDist + 49)
    requires Number(w3, w2, w1, w0) == Jam(s, Pow2(shiftDist + 17))
    ensures w2 * TWO32 + w1 == s / L && (w0 != 0 <==> s % L != 0)
  {
    var P := Pow2(shiftDist + 17);
    Pow2Of32();
    SameWeight(shiftDist + 17, 32, 0, shiftDist + 49);
    JamSplits(s, P, L);
    SmallShifted(s, shiftDist);
    var J := Jam(s, P);
    ModIs(J, TWO32, w3 * TWO64 + w2 * TWO32 + w1, w0);
  }

  lemma SmallShifted(s: nat, shiftDist: nat)
    requires s < 0x2_0000 * 0x1_0000_0000_0000_0000_0000_0000
    ensures Jam(s, Pow2(shiftDist + 17)) < 0x1_0000_0000_0000_0000_0000_0000
  {
    assert Pow2(8) == 0x100;
    assert Pow2(17) == 0x2_0000;
    Pow2Le(17, shiftDist + 17);
    var P, top := Pow2(shiftDist + 17), 0x1_0000_0000_0000_0000_0000_0000;
    MulLe(0x2_0000, P, top);
    JamCompares(s, P, top);
  }

  /** Without the inexact exception to report, the bits below the units are not looked at. */
  method IntegerBits(a: array<U32>, shiftDist: nat, ghost L: nat) returns (uiZ: U64)
    requires a.Length == 4 && Exponent(a[3]) <= 0x403E && shiftDist == 0x403E - Exponent(a[3]) && shiftDist < 64
    requires L == Pow2(shiftDist + 49)
    ensures uiZ == SignificandOf(a) / L && (shiftDist > 0 ==> uiZ < TWO63)
    ensures shiftDist == 0 ==> uiZ == TWO63 + Upper(Frac96(a[3]), a[2], a[1])
  {
    UpperBits(Frac96(a[3]), a[2], a[1], a[0]);
    uiZ := Upper(Frac96(a[3]), a[2], a[1]) + TWO63;
    Pow2Of49();
    SameWeight(49, shiftDist, 0, shiftDist + 49);
    DivDiv(SignificandOf(a), Pow2(49), Pow2(shiftDist));
    Halves(uiZ, shiftDist);
    uiZ := uiZ / Pow2(shiftDist);
  }

  /** The fraction's upper 63 bits. */
  function Upper(f: nat, w2: nat, w1: nat): nat { f * 0x8000_0000_0000 + w2 * 0x8000 + w1 / 0x2_0000 }

  lemma UpperBits(f: nat, w2: U32, w1: U32, w0: U32)
    requires f < 0x1_0000
    ensures Number(f + 0x1_0000, w2, w1, w0) / 0x2_0000_0000_0000 == TWO63 + Upper(f, w2, w1)
    ensures Upper(f, w2, w1) < TWO63
  {
    ModIs(Number(f + 0x1_0000, w2, w1, w0), 0x2_0000_0000_0000, TWO63 + Upper(f, w2, w1), w1 % 0x2_0000 * TWO32 + w0);
  }

  lemma Halves(x: U64, k: nat)
    requires TWO63 <= x
    ensures 0 <= x / Pow2(k) < TWO64 && (k == 0 ==> x / Pow2(k) == x) && (k > 0 ==> x / Pow2(k) < TWO63)
  {
    var q := Floor(x, Pow2(k));
    DivIs(x, Pow2(k), q);
    MulLe(1, Pow2(k), q);
    if k > 0 { Pow2Le(1, k); MulLe(2, Pow2(k), q); }
  }

  /** The word's two's complement, read as signed. */
  lemma Negated(uiZ: U64)
    ensures uiZ <= TWO63 ==> Signed64(Wrap64(0 - uiZ)) == 0 - uiZ
  {
    if 0 < uiZ <= TWO63 { ModIs(0 - uiZ, TWO64, -1, TWO64 - uiZ); }
  }

  function AsSigned(sign: bool, uiZ: U64): int { Signed64(if sign then Wrap64(0 - uiZ) else uiZ) }

  lemma AsSignedIs(sign: bool, uiZ: U64)
    requires InRange(Signed(sign, uiZ))
    ensures AsSigned(sign, uiZ) == Signed(sign, uiZ)
  {
    Negated(uiZ);
  }

  method ConvertExact(a: array<U32>, shiftDist: nat) returns (z: I64)
    requires a.Length == 4 && Exponent(a[3]) <= 0x403E && shiftDist == 0x403E - Exponent(a[3])
    ensures Truncated(Num(a[..]), true, z)
  {
    FieldOf(a);
    SignificandIs(a);
    var sign := a[3] >= TWO31;
    var uiZ, low := ShiftedSignificand(a, shiftDist, Pow2(shiftDist + 49));
    Delivered(Num(a[..]), true, Exponent(a[3]), Pow2(shiftDist + 49), uiZ, low != 0);
    if uiZ >= TWO63 && (!sign || uiZ != TWO63) {
      return Unconvertible(false, sign);
    }
    AsSignedIs(sign, uiZ);
    z := I64(AsSigned(sign, uiZ), false, low != 0);
  }

  method ConvertInexact(a: array<U32>, shiftDist: nat) returns (z: I64)
    requires a.Length == 4 && Exponent(a[3]) <= 0x403E && shiftDist == 0x403E - Exponent(a[3])
    ensures Truncated(Num(a[..]), false, z)
  {
    FieldOf(a);
    SignificandIs(a);
    var sign := a[3] >= TWO31;
    ghost var s, L := SignificandOf(a), Pow2(shiftDist + 49);
    if 64 <= shiftDist {
      NoInteger(s, shiftDist - 64);
      Delivered(Num(a[..]), false, Exponent(a[3]), L, 0, s % L != 0);
      return I64(0, false, false);
    }
    var uiZ := IntegerBits(a, shiftDist, L);
    Delivered(Num(a[..]), false, Exponent(a[3]), L, uiZ, s % L != 0);
    if shiftDist == 0 {
      if Upper(Frac96(a[3]), a[2], a[1]) != 0 || !sign {
        return Unconvertible(false, sign);
      }
    }
    AsSignedIs(sign, uiZ);
    z := I64(AsSigned(sign, uiZ), false, false);
  }

  lemma NoInteger(s: nat, k: nat)
    requires s < 0x2_0000 * 0x1_0000_0000_0000_0000_0000_0000
    ensures s / Pow2(k + 113) == 0
  {
    Pow2Of112();
    assert Pow2(113) == 2 * Pow2(112);
    Pow2Le(113, k + 113);
    DivIs(s, Pow2(k + 113), 0);
  }

  method Convert(a: array<U32>, exact: bool) returns (z: I64)
    requires a.Length == 4
    ensures TruncatedIn(Binary(112, 0x3FFF, 0x7FFF, 0x1_0000_0000_0000_0000_0000_0000_0000,
                               0x8000_0000_0000_0000_0000_0000_0000_0000),
                        Num(a[..]), exact, z)
  {
    FieldOf(a);
    var exp := Exponent(a[3]);
    if exp > 0x403E {
      z := Unconvertible(exp == 0x7FFF && (Frac96(a[3]) != 0 || a[2] != 0 || a[1] != 0 || a[0] != 0), a[3] >= TWO31);
      TooLarge(Num(a[..]), exp, exact, z);
    } else if exact {
      z := ConvertExact(a, 0x403E - exp);
    } else {
      z := ConvertInexact(a, 0x403E - exp);
    }
  }
}
