/** Rounding an encoding to an integral value by adding to it and masking: why that is right. */
module RoundInt {
  import opened Arith
  import opened Encoding
  import opened Rounding

  /** The value 1, in units, of a format whose exponent bias is `bias`. */
  function One(hidden: nat, bias: nat): nat
    requires bias > 0
  {
    hidden * Pow2(bias - 1)
  }

  /** How a conversion to an integral value ends: with a NaN, or with an encoding. */
  datatype Outcome = PropagateNaN | Encoded(ui: nat, inexact: bool)

  /** An interchange format: F fraction bits, exponent bias, the exponent field of infinities, the
      weights of the hidden bit and of the sign bit. */
  datatype Binary = Binary(F: nat, bias: nat, top: nat, hidden: nat, signBit: nat)

  const Binary32: Binary := Binary(23, 0x7F, 0xFF, 0x80_0000, 0x8000_0000)
  const Binary128: Binary :=
    Binary(112, 0x3FFF, 0x7FFF, 0x1_0000_0000_0000_0000_0000_0000_0000, 0x8000_0000_0000_0000_0000_0000_0000_0000)

  predicate IsBinary(b: Binary) {
    && b.hidden == Pow2(b.F) && b.F > 0 && b.signBit == (b.top + 1) * b.hidden
    && b.bias > 2 && b.bias % 2 == 1 && b.bias + b.F < b.top && b.top % 2 == 1
  }

  lemma Binary32IsBinary()
    ensures IsBinary(Binary32)
  {
    assert Pow2(7) == 0x80;
    assert Pow2(15) == 0x8000;
    assert Pow2(23) == 0x80_0000;
  }

  lemma Binary128IsBinary()
    ensures IsBinary(Binary128)
  {
    Pow2Of112();
  }

  predicate Negative(b: Binary, ui: nat) { ui >= b.signBit }

  function Unsigned(b: Binary, ui: nat): nat { if Negative(b, ui) then ui - b.signBit else ui }

  /** Section 5.9 of IEEE 754-2019, for an encoding ui: NaNs propagate, infinities stay, and every
      other value is rounded as the mode says, keeping its sign; inexact is raised only if asked
      for, and then exactly when the value changes. */
  ghost predicate RoundedToInt(b: Binary, mode: Mode, exact: bool, ui: nat, z: Outcome)
    requires b.hidden > 0 && b.bias > 0
  {
    var neg, u, one := Negative(b, ui), Unsigned(b, ui), One(b.hidden, b.bias);
    if u > b.top * b.hidden then z == PropagateNaN
    else if u == b.top * b.hidden then z == Encoded(ui, false)
    else z.Encoded? && one > 0 && z.ui < 2 * b.signBit && (Negative(b, z.ui) <==> neg)
         && Unsigned(b, z.ui) < b.top * b.hidden
         && EncodedValue(b.hidden, Unsigned(b, z.ui)) == Round(mode, neg, EncodedValue(b.hidden, u), one) * one
         && (z.inexact <==> exact && EncodedValue(b.hidden, u) % one != 0)
  }

  /** There is only one such outcome. */
  lemma RoundedToIntUnique(b: Binary, mode: Mode, exact: bool, ui: nat, z: Outcome, z': Outcome)
    requires b.hidden > 0 && b.bias > 0
    requires RoundedToInt(b, mode, exact, ui, z) && RoundedToInt(b, mode, exact, ui, z')
    ensures z == z'
  {
    if z.Encoded? && z'.Encoded? {
      EncodedInOrder(b.hidden, Unsigned(b, z.ui), Unsigned(b, z'.ui));
    }
  }

  /** Rounding again, in any mode, changes nothing and is exact. */
  lemma RoundedToIntIdempotent(b: Binary, mode: Mode, exact: bool, ui: nat, z: Outcome, mode': Mode, exact': bool,
                               z': Outcome)
    requires b.hidden > 0 && b.bias > 0 && Unsigned(b, ui) < b.top * b.hidden
    requires RoundedToInt(b, mode, exact, ui, z) && RoundedToInt(b, mode', exact', z.ui, z')
    ensures z' == Encoded(z.ui, false)
  {
    var neg, one := Negative(b, ui), One(b.hidden, b.bias);
    var k := Round(mode, neg, EncodedValue(b.hidden, Unsigned(b, ui)), one);
    RoundExact(mode', neg, k, one);
    DivIs(k * one, one, k);
    EncodedInOrder(b.hidden, Unsigned(b, z.ui), Unsigned(b, z'.ui));
  }

  /** Rounding a number of which only the part above B, and whether anything is below it, is looked at. */
  lemma StickyParts(mode: Mode, neg: bool, v: nat, B: nat, lo: nat, M: nat) returns (q: nat, r: nat)
    requires M > 0 && lo < B
    ensures M * B > 0 && v == q * M + r && r < M
    ensures Round(mode, neg, v * B + lo, M * B)
            == if Up(mode, neg, q % 2 == 1, r == 0 && lo == 0, 2 * (r * B + lo) - M * B) then q + 1 else q
    ensures (v * B + lo) % (M * B) == 0 <==> r == 0 && lo == 0
  {
    q := Floor(v, M);
    r := v - q * M;
    SplitAt(v, B, lo, M, q, r);
    DivIs(v * B + lo, M * B, q);
  }

  lemma SplitAt(v: nat, B: nat, lo: nat, M: nat, q: nat, r: nat)
    requires v == q * M + r && r < M && lo < B
    ensures v * B + lo == q * (M * B) + (r * B + lo) && r * B + lo < M * B
    ensures r * B + lo == 0 <==> r == 0 && lo == 0
  {
    assert v * B == q * M * B + r * B;
    Assoc(q, M, B);
    MulLe(r + 1, M, B);
    if r > 0 { MulLe(1, r, B); }
  }

  /** Against half the unit, only the upper part counts, except for a tie. */
  lemma HalfTest(r: nat, B: nat, lo: nat, M: nat)
    requires lo < B && M % 2 == 0
    ensures 2 * (r * B + lo) >= M * B <==> r >= M / 2
    ensures 2 * (r * B + lo) == M * B <==> r == M / 2 && lo == 0
  {
    var h := M / 2;
    assert M * B == 2 * (h * B);
    if r >= h { MulLe(h, r, B); }
    if r > h { MulLe(h + 1, r, B); }
    if r < h { MulLe(r + 1, h, B); }
  }

  /** A word with more above the part that matters: an even number of units is kept as it is. */
  lemma RoundAbove(mode: Mode, neg: bool, u: nat, L: nat, k: nat)
    requires L > 0 && k % 2 == 0
    ensures Round(mode, neg, u + k * L, L) * L == Round(mode, neg, u, L) * L + k * L
    ensures (u + k * L) % L == 0 <==> u % L == 0
  {
    RoundShift(mode, neg, u, L, k);
    Distribute(Round(mode, neg, u, L), k, L);
    ModShift(u, k, L);
  }

  lemma RoundBetween(mode: Mode, neg: bool, s: nat, L: nat, P: nat)
    requires L > 0 && P * L <= s < 2 * (P * L)
    ensures P * L <= Round(mode, neg, s, L) * L <= 2 * (P * L)
  {
    var q := Floor(s, L);
    DivIs(s, L, q);
    if q < P { MulLe(q + 1, P, L); Distribute(q, 1, L); assert false; }
    Assoc(2, P, L);
    MulLtCancel(q, 2 * P, L);
    MulLe(P, Round(mode, neg, s, L), L);
    MulLe(Round(mode, neg, s, L), 2 * P, L);
  }

  /** The heart of it. A significand s with exponent e has its units bit at L; rounding the encoding
      e*hidden + s to a multiple of L rounds the value s*2^e to an integer, carries included, because
      e*hidden is an even number of units. */
  lemma EncodingRounds(hidden: nat, mode: Mode, neg: bool, e: nat, s: nat, L: nat, P: nat)
    requires hidden == P * L && L > 0 && hidden <= s < 2 * hidden && e * P % 2 == 0
    ensures var u, one := e * hidden + s, L * Pow2(e);
            && one > 0 && EncodedValue(hidden, u) == s * Pow2(e)
            && EncodedValue(hidden, Round(mode, neg, u, L) * L) == Round(mode, neg, EncodedValue(hidden, u), one) * one
            && (u % L == 0 <==> EncodedValue(hidden, u) % one == 0)
            && Round(mode, neg, u, L) * L <= e * hidden + 2 * hidden
  {
    var R := Round(mode, neg, s, L) * L;
    Assoc(e, P, L);
    RoundAbove(mode, neg, s, L, e * P);
    RoundBetween(mode, neg, s, L, P);
    EncodedAt(hidden, e, s, e * hidden + s);
    EncodedAt(hidden, e, R, e * hidden + R);
    RoundScale(mode, neg, s, L, Pow2(e));
    Assoc(Round(mode, neg, s, L), L, Pow2(e));
  }

  /** The encoding's exponent field. */
  predicate HasExponent(b: Binary, ui: nat, exp: nat) {
    exp * b.hidden <= Unsigned(b, ui) < exp * b.hidden + b.hidden
  }

  /** The weight of the units bit of a value whose exponent field is exp. */
  function LastBit(b: Binary, exp: nat): nat
    requires exp <= b.bias + b.F
  {
    Pow2(b.bias + b.F - exp)
  }

  lemma UnitsBit(b: Binary, exp: nat)
    requires IsBinary(b) && b.bias <= exp < b.bias + b.F
    ensures var L, P := LastBit(b, exp), Pow2(exp - b.bias);
            L % 2 == 0 && b.hidden == P * L && (exp - 1) * P % 2 == 0 && One(b.hidden, b.bias) == L * Pow2(exp - 1)
  {
    ShlAgain(Pow2(exp - b.bias), 1, exp - b.bias, b.bias + b.F - exp) by { ShlIs(1, exp - b.bias); }
    ShlIs(1, b.F);
    Pow2Even(b.bias + b.F - exp);
    SameWeight(b.F, b.bias - 1, b.bias + b.F - exp, exp - 1);
    EvenOffset(b, exp);
  }

  lemma EvenOffset(b: Binary, exp: nat)
    requires IsBinary(b) && b.bias <= exp
    ensures (exp - 1) * Pow2(exp - b.bias) % 2 == 0
  {
    if exp > b.bias {
      Pow2Even(exp - b.bias);
      EvenTimes(exp - 1, Pow2(exp - b.bias));
    }
  }

  lemma EvenTimes(x: nat, y: nat)
    requires y % 2 == 0
    ensures x * y % 2 == 0
  {
    assert x * y == x * (y / 2) * 2;
  }

  /** A finite operand's outcome, from its unsigned part. */
  lemma Assemble(b: Binary, mode: Mode, exact: bool, ui: nat, r: nat, inexact: bool)
    requires b.hidden > 0 && b.bias > 0 && Unsigned(b, ui) < b.top * b.hidden && r < b.top * b.hidden < b.signBit
    requires var neg, V, one := Negative(b, ui), EncodedValue(b.hidden, Unsigned(b, ui)), One(b.hidden, b.bias);
             && one > 0 && EncodedValue(b.hidden, r) == Round(mode, neg, V, one) * one
             && (inexact <==> exact && V % one != 0)
    ensures RoundedToInt(b, mode, exact, ui, Encoded(if Negative(b, ui) then r + b.signBit else r, inexact))
  {
  }

  /** Values from one up to where every encoding is integral: rounding the whole word, sign bit
      included, to a multiple of the units bit. */
  lemma MiddleRange(b: Binary, mode: Mode, exact: bool, ui: nat, exp: nat, z: Outcome)
    requires IsBinary(b) && HasExponent(b, ui, exp) && b.bias <= exp < b.bias + b.F
    requires LastBit(b, exp) > 0
    requires z == Encoded(Round(mode, Negative(b, ui), ui, LastBit(b, exp)) * LastBit(b, exp),
                          exact && ui % LastBit(b, exp) != 0)
    ensures RoundedToInt(b, mode, exact, ui, z)
  {
    var neg, u, L := Negative(b, ui), Unsigned(b, ui), LastBit(b, exp);
    MiddleUnsigned(b, mode, neg, u, exp);
    SignKept(b, mode, ui, exp);
    Assemble(b, mode, exact, ui, Round(mode, neg, u, L) * L, exact && u % L != 0);
  }

  lemma MiddleUnsigned(b: Binary, mode: Mode, neg: bool, u: nat, exp: nat)
    requires IsBinary(b) && b.bias <= exp < b.bias + b.F && exp * b.hidden <= u < exp * b.hidden + b.hidden
    ensures var L, one, V := LastBit(b, exp), One(b.hidden, b.bias), EncodedValue(b.hidden, u);
            && L > 0 && one > 0 && u < b.top * b.hidden < b.signBit && Round(mode, neg, u, L) * L < b.top * b.hidden
            && EncodedValue(b.hidden, Round(mode, neg, u, L) * L) == Round(mode, neg, V, one) * one
            && (u % L == 0 <==> V % one == 0)
  {
    UnitsBit(b, exp);
    NextFields(b.hidden, exp, b.top);
    EncodingRounds(b.hidden, mode, neg, exp - 1, u - (exp - 1) * b.hidden, LastBit(b, exp), Pow2(exp - b.bias));
  }

  lemma SignKept(b: Binary, mode: Mode, ui: nat, exp: nat)
    requires IsBinary(b) && b.bias <= exp < b.bias + b.F && LastBit(b, exp) > 0
    ensures var neg, u, L := Negative(b, ui), Unsigned(b, ui), LastBit(b, exp);
            && Round(mode, neg, ui, L) * L == Round(mode, neg, u, L) * L + (if neg then b.signBit else 0)
            && (ui % L == 0 <==> u % L == 0)
  {
    UnitsBit(b, exp);
    if Negative(b, ui) {
      SignAbove(b, mode, Unsigned(b, ui), LastBit(b, exp), Pow2(exp - b.bias));
    }
  }

  /** The sign bit is an even number of units. */
  lemma SignAbove(b: Binary, mode: Mode, u: nat, L: nat, P: nat)
    requires b.hidden == P * L && L > 0 && b.signBit == (b.top + 1) * b.hidden && b.top % 2 == 1
    ensures Round(mode, true, u + b.signBit, L) * L == Round(mode, true, u, L) * L + b.signBit
    ensures (u + b.signBit) % L == 0 <==> u % L == 0
  {
    var k := EvenUnits(b.top + 1, b.hidden, P, L);
    RoundAbove(mode, true, u, L, k);
  }

  lemma EvenUnits(n: nat, hidden: nat, P: nat, L: nat) returns (k: nat)
    requires hidden == P * L && n % 2 == 0
    ensures n * hidden == k * L && k % 2 == 0
  {
    k := n / 2 * P * 2;
    assert n * hidden == n / 2 * 2 * (P * L);
    assert k * L == n / 2 * 2 * (P * L);
  }

  lemma NextFields(hidden: nat, exp: nat, top: nat)
    requires 0 < exp && exp + 1 <= top
    ensures exp * hidden == (exp - 1) * hidden + hidden
    ensures (exp - 1) * hidden + 2 * hidden <= top * hidden && (top + 1) * hidden == top * hidden + hidden
    ensures exp * hidden + hidden <= top * hidden
    ensures exp + 1 < top && hidden > 0 ==> exp * hidden + hidden < top * hidden
  {
    Distribute(exp - 1, 1, hidden);
    Distribute(exp, 1, hidden);
    Distribute(top, 1, hidden);
    MulLe(exp + 1, top, hidden);
    if exp + 1 < top && hidden > 0 { MulLt(exp + 1, top, hidden); }
  }

  /** Values whose encodings are all integral are returned. */
  lemma LargeRange(b: Binary, mode: Mode, exact: bool, ui: nat, exp: nat, z: Outcome)
    requires IsBinary(b) && HasExponent(b, ui, exp) && b.bias + b.F <= exp < b.top
    requires z == Encoded(ui, false)
    ensures ui < 2 * b.signBit ==> RoundedToInt(b, mode, exact, ui, z)
  {
    var u, one := Unsigned(b, ui), One(b.hidden, b.bias);
    NextFields(b.hidden, exp, b.top);
    var k := IntegralValue(b, u, exp);
    MulLt(0, b.hidden, Pow2(b.bias - 1));
    RoundExact(mode, Negative(b, ui), k, one);
    DivIs(k * one, one, k);
  }

  lemma IntegralValue(b: Binary, u: nat, exp: nat) returns (k: nat)
    requires IsBinary(b) && exp * b.hidden <= u < exp * b.hidden + b.hidden && b.bias + b.F <= exp < b.top
    ensures EncodedValue(b.hidden, u) == k * One(b.hidden, b.bias)
  {
    var d := exp - b.bias - b.F;
    NextFields(b.hidden, exp, b.top);
    var s := u - (exp - 1) * b.hidden;
    EncodedAt(b.hidden, exp - 1, s, u);
    k := s * Pow2(d);
    ShlIs(1, exp - 1);
    ShlIs(1, d);
    ShlAgain(Pow2(d), 1, d, b.F);
    ShlAgain(Pow2(d) * b.hidden, 1, d + b.F, b.bias - 1);
    Regroup(s, Pow2(d), b.hidden, Pow2(b.bias - 1));
  }

  lemma Regroup(s: nat, p: nat, h: nat, q: nat)
    ensures s * (p * h * q) == s * p * (h * q)
  {
    Assoc(s * p, h, q);
    Assoc(s, p * h, q);
    Assoc(s, p, h);
  }

  lemma SpecialRange(b: Binary, mode: Mode, exact: bool, ui: nat, z: Outcome)
    requires IsBinary(b) && Unsigned(b, ui) >= b.top * b.hidden
    requires z == if Unsigned(b, ui) > b.top * b.hidden then PropagateNaN else Encoded(ui, false)
    ensures RoundedToInt(b, mode, exact, ui, z)
  {
  }

  /** Whether a nonzero magnitude below one becomes one. */
  predicate BecomesOne(b: Binary, mode: Mode, neg: bool, exp: nat, hasFraction: bool) {
    match mode
      case NearEven => exp == b.bias - 1 && hasFraction
      case NearMaxMag => exp == b.bias - 1
      case Min => neg
      case Max => !neg
      case Odd => true
      case MinMag => false
  }

  lemma SmallRange(b: Binary, mode: Mode, exact: bool, ui: nat, exp: nat, z: Outcome)
    requires IsBinary(b) && ui < 2 * b.signBit && HasExponent(b, ui, exp) && exp < b.bias
    requires var neg, u := Negative(b, ui), Unsigned(b, ui);
             z == if u == 0 then Encoded(ui, false)
                  else Encoded((if neg then b.signBit else 0)
                               + (if BecomesOne(b, mode, neg, exp, u != exp * b.hidden) then b.bias * b.hidden else 0),
                               exact)
    ensures RoundedToInt(b, mode, exact, ui, z)
  {
    var neg, u, one := Negative(b, ui), Unsigned(b, ui), One(b.hidden, b.bias);
    OneEncoded(b);
    EncodedSmall(b.hidden, 0);
    BelowOneRounds(b, mode, neg, u, exp);
    var up := u != 0 && BecomesOne(b, mode, neg, exp, u != exp * b.hidden);
    Assemble(b, mode, exact, ui, if up then b.bias * b.hidden else 0, exact && u != 0);
  }

  lemma BelowOneRounds(b: Binary, mode: Mode, neg: bool, u: nat, exp: nat)
    requires IsBinary(b) && exp * b.hidden <= u < exp * b.hidden + b.hidden && exp < b.bias
    ensures var V, one := EncodedValue(b.hidden, u), One(b.hidden, b.bias);
            && one > 0 && u < b.bias * b.hidden && (V % one == 0 <==> u == 0)
            && Round(mode, neg, V, one) == if u != 0 && BecomesOne(b, mode, neg, exp, u != exp * b.hidden) then 1 else 0
  {
    BelowOne(b, u, exp);
    DivIs(EncodedValue(b.hidden, u), One(b.hidden, b.bias), 0);
  }

  lemma OneEncoded(b: Binary)
    requires IsBinary(b)
    ensures One(b.hidden, b.bias) > 0 && EncodedValue(b.hidden, b.bias * b.hidden) == One(b.hidden, b.bias)
    ensures b.bias * b.hidden < b.top * b.hidden < b.signBit
  {
    NextFields(b.hidden, b.bias, b.top);
    EncodedAt(b.hidden, b.bias - 1, b.hidden, b.bias * b.hidden);
    MulLt(0, b.hidden, Pow2(b.bias - 1));
  }

  lemma BelowOne(b: Binary, u: nat, exp: nat)
    requires IsBinary(b) && exp * b.hidden <= u < exp * b.hidden + b.hidden && exp < b.bias
    ensures var V, one := EncodedValue(b.hidden, u), One(b.hidden, b.bias);
            && V < one && (V == 0 <==> u == 0) && u < b.bias * b.hidden
            && (2 * V >= one <==> exp == b.bias - 1) && (2 * V == one <==> exp == b.bias - 1 && u == exp * b.hidden)
  {
    var half := b.bias - 1;
    OneEncoded(b);
    NextFields(b.hidden, half, b.top);
    EncodedAt(b.hidden, half - 1, b.hidden, half * b.hidden);
    HalfOfOne(b.hidden, b.bias);
    Distribute(exp, 1, b.hidden);
    MulLe(exp + 1, b.bias, b.hidden);
    if exp < half { MulLe(exp + 1, half, b.hidden); }
    EncodedInOrder(b.hidden, u, b.bias * b.hidden);
    EncodedInOrder(b.hidden, u, half * b.hidden);
    EncodedSmall(b.hidden, 0);
    EncodedInOrder(b.hidden, 0, u);
  }

  lemma HalfOfOne(hidden: nat, bias: nat)
    requires bias > 1
    ensures One(hidden, bias) == 2 * (hidden * Pow2(bias - 2))
  {
  }

  /** The quotient and remainder of a sum. */
  lemma SumParts(q: nat, r: nat, unit: nat, inc: nat)
    requires r < unit && inc <= unit
    ensures var t := q * unit + r + inc;
            if r + inc >= unit then t / unit == q + 1 && t % unit == r + inc - unit && t - t % unit == (q + 1) * unit
            else t / unit == q && t % unit == r + inc && t - t % unit == q * unit
  {
    Distribute(q, 1, unit);
    DivIs(q * unit + r + inc, unit, if r + inc >= unit then q + 1 else q);
  }

  /** Whether q whole units, r more, and possibly something below go up. */
  predicate RaisesUnits(mode: Mode, neg: bool, below: bool, unit: nat, q: nat, r: nat) {
    match mode
      case NearMaxMag => r >= unit / 2
      case NearEven => r > unit / 2 || (r == unit / 2 && (below || q % 2 == 1))
      case MinMag => false
      case Min => neg && (r > 0 || below)
      case Max => !neg && (r > 0 || below)
      case Odd => q % 2 == 0 && (r > 0 || below)
  }

  /** The words that the three kinds of mode mask: the operand, or the operand plus half the units
      bit with a tie's odd result lowered, or the operand plus just less than the units bit. */
  method AddIncrement(mode: Mode, neg: bool, v: nat, below: bool, unit: nat, ghost q: nat, ghost r: nat)
      returns (z: nat)
    requires unit > 0 && unit % 2 == 0 && v == q * unit + r && r < unit
    ensures z - z % unit == if !mode.Odd? && RaisesUnits(mode, neg, below, unit, q, r) then (q + 1) * unit else q * unit
  {
    z := v;
    SumParts(q, r, unit, 0);
    if mode.NearMaxMag? || mode.NearEven? {
      z := AddHalf(mode.NearEven?, v, below, unit, q, r);
    } else if mode == (if neg then Min else Max) {
      StickyIncrement(q, r, unit, below);
      z := (if below && z % 2 == 0 then z + 1 else z) + (unit - 1);
    }
  }

  method AddHalf(even: bool, v: nat, below: bool, unit: nat, ghost q: nat, ghost r: nat) returns (z: nat)
    requires unit > 0 && unit % 2 == 0 && v == q * unit + r && r < unit
    ensures z - z % unit
         == if r > unit / 2 || (r == unit / 2 && (!even || below || q % 2 == 1)) then (q + 1) * unit else q * unit
  {
    SumParts(q, r, unit, unit / 2);
    z := v + unit / 2;
    if even && z % unit == 0 && !below {
      ClearBit(q + 1, unit);
      z := z - (if z / unit % 2 == 1 then unit else 0);
    }
  }

  lemma ClearBit(k: nat, unit: nat)
    requires unit > 0 && k > 0
    ensures (k * unit - unit) % unit == 0 && k * unit - unit == (k - 1) * unit
  {
    Distribute(k - 1, 1, unit);
    DivIs((k - 1) * unit, unit, k - 1);
  }

  lemma StickyIncrement(q: nat, r: nat, unit: nat, below: bool)
    requires unit % 2 == 0 && r < unit
    ensures var v := q * unit + r;
            var t := (if below && v % 2 == 0 then v + 1 else v) + (unit - 1);
            t - t % unit == if r > 0 || below then (q + 1) * unit else q * unit
  {
    EvenTimes(q, unit);
    SameParity(q * unit, r);
    var r' := SetSticky(r, unit, below);
    SumParts(q, r', unit, unit - 1);
  }

  /** Below an even unit there is room for the sticky bit. */
  lemma SetSticky(r: nat, unit: nat, below: bool) returns (r': nat)
    requires unit % 2 == 0 && r < unit
    ensures r' == if below && r % 2 == 0 then r + 1 else r
    ensures r' < unit && (r' > 0 <==> r > 0 || below)
  {
    r' := if below && r % 2 == 0 then r + 1 else r;
  }

  lemma SameParity(x: nat, r: nat)
    requires x % 2 == 0
    ensures (x + r) % 2 == r % 2
  {
  }

  /** Adding, masking, and for round-to-odd setting the units bit, given the number above B and
      whether anything is below it; `unit` is the units bit in the upper number. */
  method AddAndMask(mode: Mode, neg: bool, v: nat, below: bool, unit: nat, ghost B: nat, ghost lo: nat)
      returns (z: nat, changed: bool)
    requires unit > 0 && unit % 2 == 0 && lo < B && (below <==> lo != 0)
    ensures unit * B > 0 && z * B == Round(mode, neg, v * B + lo, unit * B) * (unit * B)
    ensures changed <==> (v * B + lo) % (unit * B) != 0
  {
    ghost var q, r := UnitsAndRest(mode, neg, v, below, unit, B, lo);
    z, changed := RoundUnits(mode, neg, v, below, unit, q, r);
    Assoc(if RaisesUnits(mode, neg, below, unit, q, r) then q + 1 else q, unit, B);
  }

  method RoundUnits(mode: Mode, neg: bool, v: nat, below: bool, unit: nat, ghost q: nat, ghost r: nat)
      returns (z: nat, changed: bool)
    requires unit > 0 && unit % 2 == 0 && v == q * unit + r && r < unit
    ensures z == (if RaisesUnits(mode, neg, below, unit, q, r) then q + 1 else q) * unit
    ensures changed <==> r != 0 || below
  {
    z := AddIncrement(mode, neg, v, below, unit, q, r);
    z := z - z % unit;
    OneMore(q, unit);
    changed := z != v || below;
    if changed && mode.Odd? {
      z := SetUnits(z, unit, q);
    }
  }

  /** Rounding, in terms of the parts of the upper number. */
  lemma UnitsAndRest(mode: Mode, neg: bool, v: nat, below: bool, unit: nat, B: nat, lo: nat) returns (q: nat, r: nat)
    requires unit > 0 && unit % 2 == 0 && lo < B && (below <==> lo != 0)
    ensures unit * B > 0 && v == q * unit + r && r < unit
    ensures Round(mode, neg, v * B + lo, unit * B) == if RaisesUnits(mode, neg, below, unit, q, r) then q + 1 else q
    ensures (v * B + lo) % (unit * B) == 0 <==> r == 0 && !below
  {
    q, r := StickyParts(mode, neg, v, B, lo, unit);
    HalfTest(r, B, lo, unit);
  }

  /** Sets the units bit. */
  method SetUnits(v: nat, unit: nat, ghost q: nat) returns (z: nat)
    requires unit > 0 && v == q * unit
    ensures z == if q % 2 == 0 then (q + 1) * unit else q * unit
  {
    DivIs(v, unit, q);
    OneMore(q, unit);
    z := if v / unit % 2 == 0 then v + unit else v;
  }

  /** A bit that is set can be subtracted. */
  lemma AtLeastOne(x: nat, L: nat)
    requires L > 0 && x / L % 2 == 1
    ensures x >= L
  {
    if x < L { DivIs(x, L, 0); }
  }

  /** A clear bit can be set without leaving a word of size W. */
  lemma RoomForUnits(x: nat, L: nat, m: nat, W: nat)
    requires L > 0 && m % 2 == 0 && W == Times(m, L) && x < W && x / L % 2 == 0
    ensures x - x % L + L < W
  {
    var q := Floor(x, L);
    TimesIs(m, L);
    DivIs(x, L, q);
    MulLtCancel(q, m, L);
    MulLe(q + 2, m, L);
    Distribute(q, 2, L);
  }

  /** Remainder and parity with respect to a bit of the low word x can be read off that word. */
  lemma LowPart(h: nat, x: nat, L: nat, m: nat, W: nat)
    requires L > 0 && W == Times(m, L)
    ensures (h * W + x) % L == x % L
    ensures m % 2 == 0 ==> (h * W + x) / L % 2 == x / L % 2
    ensures m == 1 && x < W ==> (h * W + x) / L == h
  {
    var k := h * m;
    var q := Floor(x, L);
    TimesIs(m, L);
    Assoc(h, m, L);
    DivIs(x, L, q);
    Distribute(k, q, L);
    DivIs(h * W + x, L, k + q);
    if m % 2 == 0 { EvenTimes(h, m); SameParity(k, q); }
  }
}
