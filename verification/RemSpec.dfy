/** What a remainder routine must deliver (section 5.3.1 of IEEE 754-2019), and how a remainder of
    significands becomes a remainder of values. */
module RemSpec {
  import opened Arith
  import opened Floats
  import opened Encoding
  import opened RemCore

  /** How a routine ends: with a NaN, the invalid exception, its first operand unchanged, or a
      sign, exponent and significand for the packing helper. */
  datatype Outcome = PropagateNaN | Invalid | ReturnFirst | Pack(sign: bool, exp: int, sig: nat)

  /** sig * 2^(exp-unit) units is a - n*b for the integer n nearest a/b, ties to even; `unit` is
      the number of bits below the last fraction bit that the packing helper expects. */
  ghost predicate IsRemainder(F: nat, unit: nat, a: nat, b: nat, exp: int, sig: int)
    requires exp + F >= 0
  {
    exists n: int :: NearestQuotient(a, b, n) && sig * Pow2(exp + F) == Pow2(unit + F) * (a - n * b)
  }

  lemma ScaledDifference(N: int, D: int, k: int, C: int, a: int, b: int, n: int)
    requires N * k == a * C && D * k == b * C
    ensures (N - n * D) * k == (a - n * b) * C
  {
    Assoc(n, D, k);
    Assoc(n, b, C);
  }

  /** Comparing with half the divisor survives rescaling. */
  lemma SameSide(x: int, y: int, k: int, C: int, x': int, y': int)
    requires k > 0 && C > 0 && x * k == x' * C && y * k == y' * C
    ensures x <= y <==> x' <= y'
  {
    if x <= y {
      MulLe(x, y, k);
      MulLeCancel(x', y', C);
    }
    if x' <= y' {
      MulLe(x', y', C);
      MulLeCancel(x, y, k);
    }
  }

  lemma SameQuotient(N: int, D: int, k: int, C: int, a: int, b: int, n: int)
    requires k > 0 && C > 0 && N * k == a * C && D * k == b * C && NearestQuotient(N, D, n)
    ensures NearestQuotient(a, b, n)
  {
    var R, r := N - n * D, a - n * b;
    ScaledDifference(N, D, k, C, a, b, n);
    Assoc(2, R, k);
    Assoc(2, r, C);
    SameSide(2 * R, D, k, C, 2 * r, b);
    SameSide(D, 2 * R, k, C, b, 2 * r);
    SameSide(2 * R, -D, k, C, 2 * r, -b);
    SameSide(-D, 2 * R, k, C, -b, 2 * r);
  }

  /** The scale of the significands does not matter. */
  lemma RemainderOfValues(F: nat, scale: nat, a: nat, b: nat, exp: int, N: nat, D: nat, R: int)
    requires exp >= 1 - F && IeeeRemainder(N, D, R)
    requires N * Pow2(exp - 1 + F) == Pow2(scale + F) * a
    requires D * Pow2(exp - 1 + F) == Pow2(scale + F) * b
    ensures IsRemainder(F, scale, a, b, exp - 1, R) && IsRemainder(F, scale + 1, a, b, exp, R)
  {
    var n := SomeQuotient(N, D, R);
    var k, C := Pow2(exp - 1 + F), Pow2(scale + F);
    SameQuotient(N, D, k, C, a, b, n);
    ScaledDifference(N, D, k, C, a, b, n);
    assert Pow2(exp + F) == 2 * k && Pow2(scale + 1 + F) == 2 * C;
    Doubled(R, k, C, a - n * b);
  }

  lemma Doubled(R: int, k: int, C: int, r: int)
    requires R * k == r * C
    ensures R * (2 * k) == 2 * C * r
  {
  }

  /** Numerator and divisor of the significand problem, as values. */
  lemma ScaledSignificand(F: nat, scale: nat, n: Normal, v: nat, exp: int)
    requires Normalised(F, n) && StandsFor(F, n, v)
    requires 1 - F <= exp <= n.exp
    ensures n.sig * Pow2(scale) * Pow2(n.exp - exp) * Pow2(exp - 1 + F) == Pow2(scale + F) * v
  {
    Pow2Add(n.exp - exp, exp - 1 + F);
    Pow2Add(scale, F);
    Regroup(n.sig, Pow2(scale), Pow2(n.exp - exp), Pow2(exp - 1 + F), v, Pow2(F));
  }

  lemma Regroup(sig: nat, s: nat, d: nat, e: nat, v: nat, f: nat)
    requires v * f == sig * (d * e)
    ensures sig * s * d * e == s * f * v
  {
    assert sig * s * d * e == s * (sig * (d * e));
  }

  /** Operands whose exponents differ by two or more: the first is its own remainder. */
  lemma FarBelow(F: nat, a: nat, b: nat, na: Normal, nb: Normal)
    requires Normalised(F, na) && Normalised(F, nb) && StandsFor(F, na, a) && StandsFor(F, nb, b)
    requires na.exp + 2 <= nb.exp
    ensures NearestQuotient(a, b, 0) && 2 * a < b
  {
    Pow2Le(na.exp + 1 + F, nb.exp - 1 + F);
    Pow2Add(2, na.exp - 1 + F);
    FourTimes(a, b, na.sig, nb.sig, Pow2(F), Pow2(na.exp - 1 + F), Pow2(nb.exp - 1 + F));
  }

  lemma FourTimes(a: nat, b: nat, sa: nat, sb: nat, f: nat, pa: nat, pb: nat)
    requires f > 0 && pa > 0 && a * f == sa * pa && b * f == sb * pb
    requires sa < 2 * f && f <= sb && 4 * pa <= pb
    ensures 2 * a < b
  {
    MulLt(sa, 2 * f, pa);
    MulLe(f, sb, pb);
    MulLe(4 * pa, pb, f);
    assert 2 * a * f < b * f;
    MulLtCancel(2 * a, b, f);
  }

  /** The whole contract of a remainder routine for a format with F fraction bits and largest
      exponent field `top`. */
  ghost predicate Correct(F: nat, top: nat, unit: nat, a: Fields, b: Fields, z: Outcome) {
    var nan := IsNaN(top, a) || IsNaN(top, b);
    var va, vb := Magnitude(F, a), Magnitude(F, b);
    && (z.PropagateNaN? <==> nan)
    && (z.Invalid? <==> !nan && (IsInfinite(top, a) || vb == 0))
    && (z.ReturnFirst? ==> a.exp < top && (IsInfinite(top, b) || NearestQuotient(va, vb, 0)))
    && (z.Pack? ==>
          && a.exp < top && b.exp < top && z.exp + F >= 0
          && IsRemainder(F, unit, va, vb, z.exp, if z.sign == a.sign then z.sig else 0 - z.sig)
          && (z.sig == 0 ==> z.sign == a.sign))
  }

  /** A raw exponent two or more below the divisor's also means the first operand is its own remainder. */
  lemma RawFarBelow(F: nat, a: Fields, b: Fields)
    requires a.frac < Pow2(F) && a.exp + 1 < b.exp
    ensures Magnitude(F, b) > 0 && NearestQuotient(Magnitude(F, a), Magnitude(F, b), 0)
  {
    var pb := Pow2(b.exp - 1);
    if a.exp == 0 {
      Pow2Le(1, b.exp - 1);
      SmallBelow(Pow2(F), a.frac, b.frac, pb);
    } else {
      Pow2Le(a.exp + 1, b.exp - 1);
      LargeBelow(Pow2(F), a.frac, b.frac, Pow2(a.exp - 1), pb);
    }
  }

  lemma SmallBelow(f: nat, fracA: nat, fracB: nat, pb: nat)
    requires fracA < f && 2 <= pb
    ensures 2 * fracA < (f + fracB) * pb
  {
    MulLe(2, pb, f + fracB);
  }

  lemma LargeBelow(f: nat, fracA: nat, fracB: nat, pa: nat, pb: nat)
    requires fracA < f && 0 < pa && 4 * pa <= pb
    ensures 2 * ((f + fracA) * pa) < (f + fracB) * pb
  {
    MulLt(f + fracA, 2 * f, pa);
    MulLe(4 * pa, pb, f + fracB);
    MulLe(f, f + fracB, 4 * pa);
    Assoc(2, f, pa);
    Assoc(f, 4, pa);
  }

  // ----- The same, of the words

  ghost function UnsignedWord(signBit: nat, x: nat): nat { if x >= signBit then x - signBit else x }

  /** The contract on words: `infinity` and `signBit` are the encodings of infinity and of negative zero. */
  ghost predicate CorrectOnWords(F: nat, infinity: nat, signBit: nat, unit: nat, x: nat, y: nat, z: Outcome) {
    var u, v := UnsignedWord(signBit, x), UnsignedWord(signBit, y);
    var vx, vy := ValueOf(Pow2(F), u), ValueOf(Pow2(F), v);
    && (z.PropagateNaN? <==> u > infinity || v > infinity)
    && (z.Invalid? <==> u <= infinity && v <= infinity && (u == infinity || v == 0))
    && (z.ReturnFirst? ==> u < infinity && (v == infinity || NearestQuotient(vx, vy, 0)))
    && (z.Pack? ==>
          && u < infinity && v < infinity && z.exp + F >= 0
          && IsRemainder(F, unit, vx, vy, z.exp, if z.sign == (x >= signBit) then z.sig else 0 - z.sig)
          && (z.sig == 0 ==> z.sign == (x >= signBit)))
  }

  /** The word is put together from the fields. */
  ghost predicate PutTogether(hidden: nat, top: nat, signBit: nat, x: nat, a: Fields) {
    && a.exp <= top && a.frac < hidden
    && x == (if a.sign then signBit else 0) + a.exp * hidden + a.frac
  }

  lemma ClassifiedWord(F: nat, hidden: nat, top: nat, infinity: nat, signBit: nat, x: nat, a: Fields)
    requires hidden == Pow2(F) && top > 0 && infinity == top * hidden && signBit == infinity + hidden
    requires PutTogether(hidden, top, signBit, x, a)
    ensures a.sign <==> x >= signBit
    ensures UnsignedWord(signBit, x) > infinity <==> IsNaN(top, a)
    ensures UnsignedWord(signBit, x) == infinity <==> IsInfinite(top, a)
    ensures UnsignedWord(signBit, x) == 0 <==> Magnitude(F, a) == 0
    ensures ValueOf(hidden, UnsignedWord(signBit, x)) == Magnitude(F, a)
  {
    var u := a.exp * hidden + a.frac;
    OneMore(a.exp, hidden);
    if a.exp < top { MulLe(a.exp + 1, top, hidden); }
    if a.exp > 0 { MulLe(1, a.exp, hidden); }
    assert UnsignedWord(signBit, x) == u;
    RawIs(F, u, a);
    ValueOfIs(hidden, u);
    ZeroMagnitude(F, a);
  }

  lemma OnWords(F: nat, hidden: nat, top: nat, infinity: nat, signBit: nat, unit: nat, x: nat, y: nat,
                a: Fields, b: Fields, z: Outcome)
    requires hidden == Pow2(F) && top > 0 && infinity == top * hidden && signBit == infinity + hidden
    requires PutTogether(hidden, top, signBit, x, a) && PutTogether(hidden, top, signBit, y, b)
    requires Correct(F, top, unit, a, b, z)
    ensures CorrectOnWords(F, infinity, signBit, unit, x, y, z)
  {
    ClassifiedWord(F, hidden, top, infinity, signBit, x, a);
    ClassifiedWord(F, hidden, top, infinity, signBit, y, b);
  }
}
