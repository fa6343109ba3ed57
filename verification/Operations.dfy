/** What multiplication and division deliver (sections 5.4.1, 6.3, 7.2 and 7.3 of IEEE 754-2019),
    and how significands that stand in for a product or quotient become values. */
module Operations {
  import opened Arith
  import opened Floats
  import opened Sticky
  import opened Rounding
  import opened RoundPack

  /** How an operation ends. */
  datatype Answer =
    | PropagateNaN
    | Invalid
    | Infinity(sign: bool, divideByZero: bool)
    | Zero(sign: bool)
    | Finite(packed: Packed)

  /** The format's parameters in both vocabularies; one is 2^unitExp units. */
  datatype Kind = Kind(fmt: Format, F: nat, guard: nat, unitExp: nat)

  const Double: Kind := Kind(F64, 52, 10, 1074)
  const Single: Kind := Kind(F32, 23, 7, 149)

  predicate IsKind(k: Kind) {
    WellFormed(k.fmt) && k.fmt.hidden == Pow2(k.F) && 2 * k.fmt.half == Pow2(k.guard)
  }

  lemma DoubleIsKind()
    ensures IsKind(Double)
  {
    Pow2Of64();
    Pow2Of32();
    assert Pow2(10) == 0x400;
    assert Pow2(20) == 0x10_0000;
    Pow2Add(20, 32);
  }

  lemma SingleIsKind()
    ensures IsKind(Single)
  {
    Pow2Of32();
    assert Pow2(7) == 0x80;
    assert Pow2(15) == 0x8000;
    assert Pow2(23) == 0x80_0000;
  }

  predicate IsZero(x: Fields) { x.exp == 0 && x.frac == 0 }

  predicate IsFiniteNonzero(top: nat, x: Fields) { x.exp != top && !IsZero(x) }

  ghost predicate QuotientRounded(k: Kind, mode: Mode, before: bool, a: Fields, b: Fields, z: Packed)
    requires IsKind(k) && !IsZero(b)
  {
    ZeroMagnitude(k.F, b);
    CorrectlyRounded(k.fmt.hidden, k.fmt.top, mode, before, a.sign != b.sign, Magnitude(k.F, a) * Pow2(k.unitExp),
        Magnitude(k.F, b), z)
  }

  ghost predicate ProductRounded(k: Kind, mode: Mode, before: bool, a: Fields, b: Fields, z: Packed)
    requires k.fmt.hidden > 0 && k.fmt.top > 1
  {
    CorrectlyRounded(k.fmt.hidden, k.fmt.top, mode, before, a.sign != b.sign, Magnitude(k.F, a) * Magnitude(k.F, b),
        Pow2(k.unitExp), z)
  }

  /** Whether an operation on these operands needs arithmetic. */
  predicate Ordinary(top: nat, a: Fields, b: Fields) {
    !(IsNaN(top, a) || IsNaN(top, b) || IsInfinite(top, a) || IsInfinite(top, b) || IsZero(a) || IsZero(b))
  }

  predicate DivideFixed(top: nat, a: Fields, b: Fields, z: Answer) {
    var sign := a.sign != b.sign;
    if IsNaN(top, a) || IsNaN(top, b) then z == PropagateNaN
    else if (IsInfinite(top, a) && IsInfinite(top, b)) || (IsZero(a) && IsZero(b)) then z == Invalid
    else if IsInfinite(top, a) then z == Infinity(sign, false)
    else if IsZero(b) then z == Infinity(sign, true)
    else z == Zero(sign)
  }

  predicate MultiplyFixed(top: nat, a: Fields, b: Fields, z: Answer) {
    var sign := a.sign != b.sign;
    var infinite := IsInfinite(top, a) || IsInfinite(top, b);
    if IsNaN(top, a) || IsNaN(top, b) then z == PropagateNaN
    else if infinite && (IsZero(a) || IsZero(b)) then z == Invalid
    else if infinite then z == Infinity(sign, false)
    else z == Zero(sign)
  }

  ghost predicate DivideCorrect(k: Kind, mode: Mode, before: bool, a: Fields, b: Fields, z: Answer)
    requires IsKind(k)
  {
    if Ordinary(k.fmt.top, a, b) then z.Finite? && QuotientRounded(k, mode, before, a, b, z.packed)
    else DivideFixed(k.fmt.top, a, b, z)
  }

  ghost predicate MultiplyCorrect(k: Kind, mode: Mode, before: bool, a: Fields, b: Fields, z: Answer)
    requires IsKind(k)
  {
    if Ordinary(k.fmt.top, a, b) then z.Finite? && ProductRounded(k, mode, before, a, b, z.packed)
    else MultiplyFixed(k.fmt.top, a, b, z)
  }

  /** The cases of a division that need no arithmetic. */
  method DivideSpecial(k: Kind, mode: Mode, before: bool, a: Fields, b: Fields) returns (special: bool, z: Answer)
    requires IsKind(k)
    ensures special ==> DivideCorrect(k, mode, before, a, b, z)
    ensures special <==> !(IsFiniteNonzero(k.fmt.top, a) && IsFiniteNonzero(k.fmt.top, b))
  {
    var signZ := a.sign != b.sign;
    special := true;
    if a.exp == k.fmt.top {
      if a.frac != 0 { return true, PropagateNaN; }
      if b.exp == k.fmt.top {
        return true, if b.frac != 0 then PropagateNaN else Invalid;
      }
      return true, Infinity(signZ, false);
    }
    if b.exp == k.fmt.top {
      return true, if b.frac != 0 then PropagateNaN else Zero(signZ);
    }
    if b.exp == 0 && b.frac == 0 {
      return true, if a.exp == 0 && a.frac == 0 then Invalid else Infinity(signZ, true);
    }
    if a.exp == 0 && a.frac == 0 {
      return true, Zero(signZ);
    }
    return false, PropagateNaN;
  }

  /** The cases of a multiplication that need no arithmetic. */
  method MultiplySpecial(k: Kind, mode: Mode, before: bool, a: Fields, b: Fields) returns (special: bool, z: Answer)
    requires IsKind(k)
    ensures special ==> MultiplyCorrect(k, mode, before, a, b, z)
    ensures special <==> !(IsFiniteNonzero(k.fmt.top, a) && IsFiniteNonzero(k.fmt.top, b))
  {
    var signZ := a.sign != b.sign;
    if a.exp == k.fmt.top {
      if a.frac != 0 || (b.exp == k.fmt.top && b.frac != 0) { return true, PropagateNaN; }
      return true, if b.exp == 0 && b.frac == 0 then Invalid else Infinity(signZ, false);
    }
    if b.exp == k.fmt.top {
      if b.frac != 0 { return true, PropagateNaN; }
      return true, if a.exp == 0 && a.frac == 0 then Invalid else Infinity(signZ, false);
    }
    if a.exp == 0 && a.frac == 0 {
      return true, Zero(signZ);
    }
    if b.exp == 0 && b.frac == 0 {
      return true, Zero(signZ);
    }
    return false, PropagateNaN;
  }

  /** A significand faithful to a quotient of significands stands in for the quotient of values. */
  lemma QuotientStandsIn(k: Kind, na: Normal, nb: Normal, va: nat, vb: nat, t: nat, exp: int, sig: nat)
    requires IsKind(k) && vb > 0
    requires Normalised(k.F, na) && Normalised(k.F, nb) && StandsFor(k.F, na, va) && StandsFor(k.F, nb, vb)
    requires Faithful(k.fmt.half, sig, na.sig * Pow2(t), nb.sig)
    requires t + exp - k.guard == na.exp - nb.exp + k.unitExp
    ensures StandsIn(k.fmt.half, exp, sig, va * Pow2(k.unitExp), vb)
  {
    var p, n := if exp >= 0 then exp else 0, if exp >= 0 then 0 else 0 - exp;
    var j := nb.exp - 1 + k.F + p;
    ScaledNumerator(k, na, va, t, j, n);
    ScaledDenominator(k, nb, vb, p);
    FaithfulRescale(k.fmt.half, sig, na.sig * Pow2(t), nb.sig,
                    va * Pow2(k.unitExp) * Pow2(k.guard) * Pow2(n), vb * Pow2(p), Pow2(j), Pow2(k.F));
  }

  lemma ScaledNumerator(k: Kind, na: Normal, va: nat, t: nat, j: nat, n: nat)
    requires Normalised(k.F, na) && StandsFor(k.F, na, va)
    requires t + j == k.unitExp + k.guard + n + na.exp - 1 + k.F
    ensures na.sig * Pow2(t) * Pow2(j) == va * Pow2(k.unitExp) * Pow2(k.guard) * Pow2(n) * Pow2(k.F)
  {
    var e, d := na.exp - 1 + k.F, k.unitExp + k.guard + n;
    ShlIs(na.sig, t);
    ShlAgain(na.sig * Pow2(t), na.sig, t, j);
    FourShifts(va, k.unitExp, k.guard, n, k.F);
    SameShifted(k, na, va, d);
  }

  lemma FourShifts(v: nat, a: nat, b: nat, c: nat, d: nat)
    ensures v * Pow2(a) * Pow2(b) * Pow2(c) * Pow2(d) == Shl(v, a + b + c + d)
  {
    ShlIs(v, a);
    var w := v * Pow2(a);
    ShlAgain(w, v, a, b);
    ShlAgain(w * Pow2(b), v, a + b, c);
    ShlAgain(w * Pow2(b) * Pow2(c), v, a + b + c, d);
  }

  lemma SameShifted(k: Kind, n: Normal, v: nat, d: nat)
    requires Normalised(k.F, n) && StandsFor(k.F, n, v)
    ensures Shl(v, d + k.F) == Shl(n.sig, n.exp - 1 + k.F + d)
  {
    ShlSame(v, n.sig, k.F, n.exp - 1 + k.F, d);
  }

  lemma ScaledDenominator(k: Kind, nb: Normal, vb: nat, p: nat)
    requires Normalised(k.F, nb) && StandsFor(k.F, nb, vb)
    ensures nb.sig * Pow2(nb.exp - 1 + k.F + p) == vb * Pow2(p) * Pow2(k.F)
  {
    ShlIs(nb.sig, nb.exp - 1 + k.F + p);
    ShlIs(vb, p);
    ShlAgain(vb * Pow2(p), vb, p, k.F);
    SameShifted(k, nb, vb, p);
  }

  /** A significand faithful to a product of significands stands in for the product of values. */
  lemma ProductStandsIn(k: Kind, na: Normal, nb: Normal, va: nat, vb: nat, t: nat, exp: int, sig: nat)
    requires IsKind(k)
    requires Normalised(k.F, na) && Normalised(k.F, nb) && StandsFor(k.F, na, va) && StandsFor(k.F, nb, vb)
    requires Faithful(k.fmt.half, sig, na.sig * nb.sig, Pow2(t))
    requires exp - k.guard - t == na.exp + nb.exp - 2 - k.unitExp
    ensures StandsIn(k.fmt.half, exp, sig, va * vb, Pow2(k.unitExp))
  {
    var p, n := if exp >= 0 then exp else 0, if exp >= 0 then 0 else 0 - exp;
    var e := na.exp - 1 + k.F + nb.exp - 1 + k.F;
    var j := e + k.guard + n;
    ScaledProduct(k, na, nb, va, vb, k.guard + n);
    ShlIs(na.sig * nb.sig, j);
    ThreeShifts(va * vb, k.guard, n, 2 * k.F);
    ShlIs(1, t);
    ShlAgain(Pow2(t), 1, t, j);
    ShlIs(1, k.unitExp);
    ShlAgain(Pow2(k.unitExp), 1, k.unitExp, p);
    ShlAgain(Pow2(k.unitExp) * Pow2(p), 1, k.unitExp + p, 2 * k.F);
    FaithfulRescale(k.fmt.half, sig, na.sig * nb.sig, Pow2(t),
                    va * vb * Pow2(k.guard) * Pow2(n), Pow2(k.unitExp) * Pow2(p), Pow2(j), Pow2(2 * k.F));
  }

  lemma ThreeShifts(v: nat, a: nat, b: nat, c: nat)
    ensures v * Pow2(a) * Pow2(b) * Pow2(c) == Shl(v, a + b + c)
  {
    ShlIs(v, a);
    ShlAgain(v * Pow2(a), v, a, b);
    ShlAgain(v * Pow2(a) * Pow2(b), v, a + b, c);
  }

  lemma ScaledProduct(k: Kind, na: Normal, nb: Normal, va: nat, vb: nat, d: nat)
    requires Normalised(k.F, na) && Normalised(k.F, nb) && StandsFor(k.F, na, va) && StandsFor(k.F, nb, vb)
    ensures Shl(va * vb, d + 2 * k.F) == Shl(na.sig * nb.sig, na.exp - 1 + k.F + nb.exp - 1 + k.F + d)
  {
    var ea, eb := na.exp - 1 + k.F, nb.exp - 1 + k.F;
    SameShifted(k, na, va, 0);
    SameShifted(k, nb, vb, 0);
    ShlProduct(va, vb, k.F, k.F);
    ShlProduct(na.sig, nb.sig, ea, eb);
    ShlAdd(va * vb, k.F + k.F, d);
    ShlAdd(na.sig * nb.sig, ea + eb, d);
  }
}
