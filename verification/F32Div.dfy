/** The two compile-time alternatives of f32_div's quotient: one 64-bit division, or a reciprocal
    and a correction. */
module F32DivSignificand {
  import opened Arith
  import opened Words
  import opened Sticky

  /** Exact division; the sticky bit is needed only on a multiple of 64. */
  method ExactQuotient(num: U64, sigB: U32) returns (sigZ: U64)
    requires sigB > 0 && num < sigB * TWO31
    ensures Faithful(0x40, sigZ, num, sigB)
  {
    sigZ := Floor64(num, sigB);
    QuotientCell(num, sigB, sigZ);
    if sigZ % 0x40 == 0 {
      if sigB * sigZ != num {
        sigZ := sigZ + 1;
      }
    }
  }

  method Floor64(num: U64, sigB: U32) returns (q: U64)
    requires sigB > 0 && num < sigB * TWO31
    ensures q < TWO31 && q * sigB <= num < q * sigB + sigB
  {
    q := num / sigB;
    DivBounds(num, sigB);
    MulLtCancel(q, TWO31, sigB);
  }

  lemma QuotientCell(num: nat, sb: nat, q: nat)
    requires sb > 0 && q * sb <= num < q * sb + sb
    ensures q % 0x40 != 0 ==> Faithful(0x40, q, num, sb)
    ensures q % 0x40 == 0 ==> if sb * q == num then Faithful(0x40, q, num, sb) else Faithful(0x40, q + 1, num, sb)
  {
    var M := q - q % 0x40;
    MulLe(M, q, sb);
    MulLe(q + 1, M + 0x40, sb);
    assert (q + 1) * sb == q * sb + sb;
    if sb * q == num {
      FaithfulAt(0x40, q, num, sb);
    } else {
      if M < q { MulLt(M, q, sb); }
      FaithfulBetween(0x40, M, if q == M then q + 1 else q, num, sb);
    }
    if M < q {
      MulLt(M, q, sb);
      FaithfulBetween(0x40, M, q, num, sb);
    }
  }

  const SLACK: nat := 0x2_0000_0000

  /** A reciprocal with this much slack is enough. */
  predicate Reciprocal(b: nat, r: nat) { r * b < TWO63 <= r * b + SLACK }

  /** So is one that is at most two units too small. */
  lemma TwoUnitsAreEnough(b: nat, r: nat)
    requires b < TWO32 && r * b < TWO63 <= (r + 2) * b
    ensures Reciprocal(b, r)
  {
    Distribute(r, 2, b);
  }

  lemma Estimate(sa: nat, sb: nat, r: nat, z: nat)
    requires 0 < sa < sb && Reciprocal(sb, r) && z * TWO32 <= sa * r < z * TWO32 + TWO32
    ensures z * sb < sa * TWO31 < z * sb + 3 * sb
  {
    MulLe(z * TWO32, sa * r, sb);
    MulLt(sa * r, z * TWO32 + TWO32, sb);
    MulLt(r * sb, TWO63, sa);
    MulLe(TWO63, r * sb + SLACK, sa);
    Distribute(z * TWO32, TWO32, sb);
    Distribute(r * sb, SLACK, sa);
    EstimateParts(sa, sb, r, z);
  }

  lemma EstimateParts(sa: nat, sb: nat, r: nat, z: nat)
    ensures z * TWO32 * sb == z * sb * TWO32 && sa * r * sb == r * sb * sa
  {
  }

  /** The estimate two higher: only just above a multiple of 64 is a correction needed. */
  lemma AwayFromBoundary(z: nat, num: nat, sb: nat)
    requires sb > 0 && (z + 2) % 0x40 >= 2 && z * sb < num < z * sb + 3 * sb
    ensures Faithful(0x40, z + 2, num, sb)
  {
    var M := z + 2 - (z + 2) % 0x40;
    MulLe(M, z, sb);
    Distribute(z, 3, sb);
    MulLe(z + 3, M + 0x40, sb);
    FaithfulBetween(0x40, M, z + 2, num, sb);
  }

  lemma AtBoundary(M: nat, rem: int, num: nat, sb: nat, sigZ: int)
    requires sb > 0 && M % 0x40 == 0 && num == M * sb + rem && 0 < rem + 2 * sb && rem < 2 * sb
    requires sigZ == if rem < 0 then M - 4 else if rem == 0 then M else M + 1
    ensures Faithful(0x40, sigZ, num, sb)
  {
    assert (M - 0x40) * sb == M * sb - 0x40 * sb;
    assert (M + 0x40) * sb == M * sb + 0x40 * sb;
    if rem < 0 {
      FaithfulBetween(0x40, M - 0x40, sigZ, num, sb);
    } else if rem == 0 {
      FaithfulAt(0x40, sigZ, num, sb);
    } else {
      FaithfulBetween(0x40, M, sigZ, num, sb);
    }
  }

  /** The remainder at sigZ, or twice it where 64-bit shifts are slow: zero and sign agree. */
  method RemainderAt(sa: U32, sb: U32, sigZ: U32, fastInt64: bool, ghost exact: int) returns (rem: U64)
    requires sigZ < TWO31 && exact == sa * TWO31 - sigZ * sb
             && -(0x4000_0000_0000_0000 as int) < exact < 0x4000_0000_0000_0000
    ensures rem >= TWO63 <==> exact < 0
    ensures rem == 0 <==> exact == 0
  {
    if fastInt64 {
      rem := Minus64(sa * TWO31, sigZ * sb);
    } else {
      var doubled: U32 := sigZ * 2;
      Doubled(sa, sb, sigZ, exact);
      rem := Minus64(sa * TWO32, doubled * sb);
    }
  }

  lemma Doubled(sa: nat, sb: nat, sigZ: nat, exact: int)
    requires exact == sa * TWO31 - sigZ * sb
    ensures sa * TWO32 - sigZ * 2 * sb == 2 * exact
  {
    assert sigZ * 2 * sb == 2 * (sigZ * sb);
  }

  /** Dividend and divisor as aligned: the divisor's top bit is set, the quotient is in [1/2, 1). */
  predicate Aligned(sa: nat, sb: nat) { TWO31 <= sb < TWO32 && sa + 0x80 <= sb <= 2 * sa }

  method Guess(sa: U32, sb: U32, recip: U32) returns (z: U32)
    requires Aligned(sa, sb) && Reciprocal(sb, recip)
    ensures z < TWO31 && z * sb < sa * TWO31 < z * sb + 3 * sb
  {
    var product := sa * recip;
    z := product / TWO32;
    DivBounds(product, TWO32);
    Estimate(sa, sb, recip, z);
    MulLt(sa, sb, TWO31);
    MulLtCancel(z, TWO31, sb);
  }

  /** The quotient from any reciprocal with that slack. */
  method ReciprocalQuotient(sa: U32, sb: U32, recip: U32, fastInt64: bool) returns (sigZ: U32)
    requires Aligned(sa, sb) && Reciprocal(sb, recip)
    ensures Faithful(0x40, sigZ, sa * TWO31, sb)
  {
    var z := Guess(sa, sb, recip);
    sigZ := z + 2;
    if sigZ % 0x40 < 2 {
      LowBits(sigZ);
      sigZ := Correct(sa, sb, sigZ - sigZ % 4, z, fastInt64);
    } else {
      AwayFromBoundary(z, sa * TWO31, sb);
    }
  }

  lemma LowBits(sigZ: nat)
    requires sigZ % 0x40 < 2
    ensures sigZ % 4 == sigZ % 0x40 && (sigZ - sigZ % 4) % 0x40 == 0
  {
    assert sigZ == 4 * (16 * (sigZ / 0x40)) + sigZ % 0x40;
  }

  method Correct(sa: U32, sb: U32, M: U32, ghost z: nat, fastInt64: bool) returns (sigZ: U32)
    requires Aligned(sa, sb) && M % 0x40 == 0 && z + 1 <= M <= z + 2
    requires z * sb < sa * TWO31 < z * sb + 3 * sb
    ensures Faithful(0x40, sigZ, sa * TWO31, sb)
  {
    sigZ := M;
    ghost var exact := sa * TWO31 - M * sb;
    SmallRemainder(sa, sb, M, z);
    var rem := RemainderAt(sa, sb, M, fastInt64, exact);
    AtBoundary(M, exact, sa * TWO31, sb, if exact < 0 then M - 4 else if exact == 0 then M else M + 1);
    if rem >= TWO63 {
      sigZ := sigZ - 4;
    } else if rem != 0 {
      sigZ := sigZ + 1;
    }
  }

  lemma SmallRemainder(sa: nat, sb: nat, M: nat, z: nat)
    requires sa + 0x80 <= sb < TWO32 && z + 1 <= M <= z + 2
    requires z * sb < sa * TWO31 < z * sb + 3 * sb
    ensures var exact := sa * TWO31 - M * sb; 0 < exact + 2 * sb && exact < 2 * sb
    ensures M < TWO31
  {
    Distribute(z, M - z, sb);
    MulLe(M - z, 2, sb);
    MulLe(1, M - z, sb);
    MulLt(sb, TWO32, 0x40);
    Distribute(TWO31, -0x40, sb);
    MulLtCancel(z, TWO31 - 0x40, sb);
  }
}

/** The reciprocal where a 64-bit division is slow: a table entry, and two steps of refinement. */
module ReciprocalTable {
  import opened Arith
  import opened Words
  import opened F32DivSignificand

  const k0s: seq<nat> := [
    0xFFC4, 0xF0BE, 0xE363, 0xD76F, 0xCCAD, 0xC2F0, 0xBA16, 0xB201,
    0xAA97, 0xA3C6, 0x9D7A, 0x97A6, 0x923C, 0x8D32, 0x887E, 0x8417]

  const k1s: seq<nat> := [
    0xF0F1, 0xD62C, 0xBFA1, 0xAC77, 0x9C0A, 0x8DDB, 0x8185, 0x76BA,
    0x6D3B, 0x64D4, 0x5D5C, 0x56B1, 0x50B6, 0x4B55, 0x4679, 0x4211]

  function Entry(a: U32): nat {
    var index, eps := a / 0x800_0000 % 16, a / 0x800 % 0x1_0000;
    (k0s[index] - k1s[index] * eps / 0x10_0000) % 0x1_0000
  }

  function Residue(r0: nat, a: U32): nat { TWO32 - 1 - r0 * a / 0x80 % TWO32 }

  function Refined(r0: nat, sigma0: nat): U32 {
    var r := r0 * 0x1_0000 + r0 * sigma0 / 0x100_0000;
    var sqrSigma0 := sigma0 * sigma0 / TWO32;
    Wrap32(r + Wrap32(r) * sqrSigma0 / 0x1_0000_0000_0000)
  }

  function ApproxRecip(a: U32): U32 { Refined(Entry(a), Residue(Entry(a), a)) }

  /** The documentation allows an error of a little over two units, and there is one: this divisor,
      which f32_div aligns, misses the simpler bound of two units and is within the slack. */
  lemma MoreThanTwoUnits()
    ensures exists sigB: nat ::
              && 0x80_0000 <= sigB < 0x100_0000
              && var a, r := sigB * 0x100, ApproxRecip(sigB * 0x100); (r + 2) * a < TWO63 && Reciprocal(a, r)
  {
    var sigB: nat := 0x80_28C0;
    assert sigB * 0x100 == 0x8028_C000;
    FirstStep();
    SecondStep();
    LastStep();
    assert Reciprocal(sigB * 0x100, ApproxRecip(sigB * 0x100));
  }

  lemma FirstStep()
    ensures Entry(0x8028_C000) == 0xFF78
  {
    var index, eps := 0x8028_C000 / 0x800_0000 % 16, 0x8028_C000 / 0x800 % 0x1_0000;
    assert index == 0 && eps == 0x518;
  }

  lemma SecondStep()
    ensures Residue(0xFF78, 0x8028_C000) == 0x36AB4BFF
  {
  }

  lemma LastStep()
    ensures Refined(0xFF78, 0x36AB4BFF) == 0xFFAE99E8
  {
    DivIs(0xFF78 * 0x36AB4BFF, 0x100_0000, 0x368E40);
    DivIs(0x36AB4BFF * 0x36AB4BFF, TWO32, 0xBACB6AE);
    ModIs(0xFFAE8E40, TWO32, 0, 0xFFAE8E40);
    DivIs(0xFFAE8E40 * 0xBACB6AE, 0x1_0000_0000_0000, 0xBA8);
    ModIs(0xFFAE99E8, TWO32, 0, 0xFFAE99E8);
  }
}

/** f32_div as a whole. */
module F32Div {
  import opened Arith
  import opened Words
  import opened Floats
  import opened Formats
  import opened Sticky
  import opened Rounding
  import opened RoundPack
  import opened Operations
  import opened WordResults
  import opened WordForms
  import opened F32DivSignificand

  const HIDDEN: nat := 0x80_0000

  method ByDivision(sigA: U32, sigB: U32, expDiff: int) returns (expZ: int, sigZ: U64, ghost t: nat)
    requires HIDDEN <= sigA < 2 * HIDDEN && HIDDEN <= sigB < 2 * HIDDEN
    ensures t + expZ == expDiff + 156 && Faithful(0x40, sigZ, sigA * Pow2(t), sigB)
    ensures HIDDEN * 0x80 <= sigZ < 2 * HIDDEN * 0x80
  {
    expZ := expDiff + 0x7E;
    var sig64A: U64;
    Pow2Of31();
    if sigA < sigB {
      expZ := expZ - 1;
      sig64A := sigA * TWO31;
      t := 31;
    } else {
      sig64A := sigA * 0x4000_0000;
      t := 30;
    }
    sigZ := ExactQuotient(sig64A, sigB);
    InRange(sigZ, sig64A, sigB);
  }

  /** For any reciprocal that has the slack on aligned divisors. */
  method ByReciprocal(sigA: U32, sigB: U32, expDiff: int, approxRecip: U32 -> U32, fastInt64: bool)
      returns (expZ: int, sigZ: U64, ghost t: nat)
    requires HIDDEN <= sigA < 2 * HIDDEN && HIDDEN <= sigB < 2 * HIDDEN
    requires Reciprocal(sigB * 0x100, approxRecip(sigB * 0x100))
    ensures t + expZ == expDiff + 156 && Faithful(0x40, sigZ, sigA * Pow2(t), sigB)
    ensures HIDDEN * 0x80 <= sigZ < 2 * HIDDEN * 0x80
  {
    expZ := expDiff + 0x7E;
    var sa: U32;
    Pow2Of31();
    if sigA < sigB {
      expZ := expZ - 1;
      sa := sigA * 0x100;
      t := 31;
    } else {
      sa := sigA * 0x80;
      t := 30;
    }
    sigZ := ReciprocalQuotient(sa, sigB * 0x100, approxRecip(sigB * 0x100), fastInt64);
    InRange(sigZ, sa * TWO31, sigB * 0x100);
    FaithfulRescale(0x40, sigZ, sa * TWO31, sigB * 0x100, sigA * Pow2(t), sigB, 1, 0x100);
  }

  lemma Pow2Of31()
    ensures Pow2(30) == 0x4000_0000 && Pow2(31) == TWO31
  {
    Pow2Of29();
    assert Pow2(30) == 2 * Pow2(29);
    assert Pow2(31) == 2 * Pow2(30);
  }

  /** A faithful significand of a quotient in [1/2, 1) fills 31 bits exactly. */
  lemma InRange(sigZ: int, num: nat, den: nat)
    requires den > 0 && Faithful(0x40, sigZ, num, den) && 0x4000_0000 * den <= num < TWO31 * den
    ensures HIDDEN * 0x80 <= sigZ < 2 * HIDDEN * 0x80
  {
    assert ComparesAlike(0x40 * 0x100_0000, sigZ, num, den);
    assert ComparesAlike(0x40 * 0x200_0000, sigZ, num, den);
  }

  /** All the divisors that the routine aligns have a reciprocal with the slack. */
  ghost predicate GoodReciprocals(approxRecip: U32 -> U32) {
    forall sigB: U32 :: HIDDEN <= sigB < 2 * HIDDEN ==> Reciprocal(sigB * 0x100, approxRecip(sigB * 0x100))
  }

  /** fastDiv64To32 and fastInt64 are the compile-time choices; the first decides which alternative
      there is, and the other one uses the reciprocal given. */
  method DivideSignificands(sigA: U32, sigB: U32, expDiff: int, fastDiv64To32: bool, approxRecip: U32 -> U32,
                            fastInt64: bool)
      returns (expZ: int, sigZ: U64, ghost t: nat)
    requires HIDDEN <= sigA < 2 * HIDDEN && HIDDEN <= sigB < 2 * HIDDEN
    requires fastDiv64To32 || GoodReciprocals(approxRecip)
    ensures t + expZ == expDiff + 156 && Faithful(0x40, sigZ, sigA * Pow2(t), sigB)
    ensures HIDDEN * 0x80 <= sigZ < 2 * HIDDEN * 0x80
  {
    if fastDiv64To32 {
      expZ, sigZ, t := ByDivision(sigA, sigB, expDiff);
    } else {
      expZ, sigZ, t := ByReciprocal(sigA, sigB, expDiff, approxRecip, fastInt64);
    }
  }

  method FiniteDiv(mode: Mode, before: bool, a: Fields, b: Fields, fastDiv64To32: bool, approxRecip: U32 -> U32,
                   fastInt64: bool)
      returns (z: Packed)
    requires IsKind(Single) && a.frac < Pow2(23) && b.frac < Pow2(23)
    requires IsFiniteNonzero(0xFF, a) && IsFiniteNonzero(0xFF, b) && (fastDiv64To32 || GoodReciprocals(approxRecip))
    ensures QuotientRounded(Single, mode, before, a, b, z)
  {
    ZeroMagnitude(23, a);
    ZeroMagnitude(23, b);
    var na, nb := Normalise(23, 32, a), Normalise(23, 32, b);
    ghost var va, vb := Magnitude(23, a), Magnitude(23, b);
    var expZ, sigZ;
    ghost var t;
    expZ, sigZ, t := DivideSignificands(na.sig, nb.sig, na.exp - nb.exp, fastDiv64To32, approxRecip, fastInt64);
    QuotientStandsIn(Single, na, nb, va, vb, t, expZ, sigZ);
    z := RoundPack.RoundPack(F32, mode, before, a.sign != b.sign, expZ, sigZ, va * Pow2(149), vb);
  }

  method Answered(mode: Mode, before: bool, uiA: U32, uiB: U32, fastDiv64To32: bool, approxRecip: U32 -> U32,
                  fastInt64: bool)
      returns (z: Answer)
    requires fastDiv64To32 || GoodReciprocals(approxRecip)
    ensures IsKind(Single) && DivideCorrect(Single, mode, before, Fields32(uiA), Fields32(uiB), z)
  {
    SingleIsKind();
    var a, b := Fields32(uiA), Fields32(uiB);
    var special;
    special, z := DivideSpecial(Single, mode, before, a, b);
    if !special {
      var packed := FiniteDiv(mode, before, a, b, fastDiv64To32, approxRecip, fastInt64);
      z := Finite(packed);
    }
  }

  /** The word returned and the exceptions raised, for every pair of words. */
  method Div(mode: Mode, before: bool, uiA: U32, uiB: U32, fastDiv64To32: bool, approxRecip: U32 -> U32,
             fastInt64: bool)
      returns (z: Returned)
    requires fastDiv64To32 || GoodReciprocals(approxRecip)
    ensures IsQuotient(Layout(0x80_0000, 0xFF, 0x3F80_0000, 0x7F80_0000, 0x8000_0000),
                       mode, before, uiA, uiB, z)
  {
    var answer := Answered(mode, before, uiA, uiB, fastDiv64To32, approxRecip, fastInt64);
    z := ReturnQuotient32(mode, before, uiA, uiB, answer);
  }
}
