/** The significand part of f64_rem: from normalised significands and their exponent difference
    to the signed remainder that is handed on for packing. */
module F64RemLoop {
  import opened Arith
  import opened Words
  import opened RemCore

  const S: nat := 0x4000_0000

  /** rem * 2^29 - q * sigB in 64-bit arithmetic; the two shifts are the two compile-time forms. */
  method NextRemainder(rem: U64, q: U32, sigB: U64, fastInt64: bool) returns (r: U64)
    requires rem % 8 == 0
    ensures r == Wrap64(rem * 0x2000_0000 - q * sigB)
  {
    var shifted: U64;
    if fastInt64 {
      shifted := Wrap64(rem * 0x2000_0000);
    } else {
      shifted := rem / 8 % TWO32 * TWO32;
      assert shifted == Wrap64(rem * 0x2000_0000);
    }
    WrapDifference64(rem * 0x2000_0000, q * sigB);
    r := Wrap64(shifted - Wrap64(q * sigB));
  }

  /** The product of the remainder's head with the reciprocal. */
  function HeadProduct(rem: U64, recip32: nat): nat { rem / TWO32 * recip32 }

  /** What holds of that product for a remainder below 2*B and the reciprocal of B's head. */
  lemma Estimate(B: nat, rem: nat)
    requires 0x2000_0000_0000_0000 <= B < 0x4000_0000_0000_0000 && rem < 2 * B
    ensures var a := B / S;
            var d := HeadProduct(rem, ApproxRecip32(a));
            && 0x8000_0000 <= a < TWO32 && rem / TWO32 < TWO31 && d < TWO63
            && d * B <= rem * 0x2000_0000_0000_0000 + 0x8000_0000 * B
            && 4 * (d * B) >= rem * 0x8000_0000_0000_0000 - rem * a - S * 0x2_0000_0000_0000_0000
            && d * B > rem * 0x2000_0000_0000_0000 - 0x1_4000_0000 * B
  {
    var a := Floor(B, S);
    var h := Floor(rem, 4 * S);
    DivIs(B, S, a);
    DivIs(rem, TWO32, h);
    EstimateOfHeads(B, rem, a, h, ApproxRecip32(a));
  }

  lemma EstimateOfHeads(B: nat, rem: nat, a: nat, h: nat, r: nat)
    requires 0x2000_0000_0000_0000 <= B < 0x4000_0000_0000_0000 && rem < 2 * B
    requires a * S <= B < a * S + S && h * (4 * S) <= rem < h * (4 * S) + 4 * S
    requires 0x8000_0000 <= a < TWO32 ==> r == ApproxRecip32(a)
    ensures 0x8000_0000 <= a < TWO32 && h < TWO31 && h * r < TWO63
    ensures h * r * B <= rem * 0x2000_0000_0000_0000 + 0x8000_0000 * B
    ensures 4 * (h * r * B) >= rem * 0x8000_0000_0000_0000 - rem * a - S * 0x2_0000_0000_0000_0000
    ensures h * r * B > rem * 0x2000_0000_0000_0000 - 0x1_4000_0000 * B
  {
    RecipBounds(a);
    MulLe(h, TWO31 - 1, r);
    DigitEstimate(S, B, a, r, rem, h, h * r);
  }

  /** A quotient digit rounded to nearest; it may be one too large. */
  method Digit(B: U64, rem: U64, q64: U64) returns (q: U32)
    requires 0x2000_0000_0000_0000 <= B < 0x4000_0000_0000_0000 && rem < 2 * B
    requires q64 == HeadProduct(rem, ApproxRecip32(B / S))
    ensures 0 <= rem * 0x2000_0000 - q * B + B && rem * 0x2000_0000 - q * B < 2 * B
  {
    Estimate(B, rem);
    q := (q64 + 0x8000_0000) / TWO32;
    LoopDigit(B, rem, q64, q);
  }

  /** The sign bit of the wrapped difference tells which case it is. */
  lemma CorrectedDifference(t: int, B: U64)
    requires 0 <= t + B && t < 2 * B && B < 0x4000_0000_0000_0000
    ensures Wrap64(t) >= TWO63 <==> t < 0
    ensures t >= 0 ==> Wrap64(t) == t
    ensures t < 0 ==> Wrap64(Wrap64(t) + B) == t + B
  {
  }

  /** Subtracts a digit's multiple of the divisor, and adds the divisor back once if that was too much. */
  method Turn(B: U64, rem: U64, q: U32, fastInt64: bool) returns (rem': U64, ghost digit: int)
    requires B < 0x4000_0000_0000_0000 && B % 8 == 0 && rem % 8 == 0
    requires 0 <= rem * 0x2000_0000 - q * B + B && rem * 0x2000_0000 - q * B < 2 * B
    ensures rem' < 2 * B && rem' == rem * 0x2000_0000 - digit * B
  {
    rem' := NextRemainder(rem, q, B, fastInt64);
    CorrectedDifference(rem * 0x2000_0000 - q * B, B);
    digit := q;
    if rem' >= TWO63 {
      rem' := Wrap64(rem' + B);
      digit := q - 1;
      assert (q - 1) * B == q * B - B;
    }
  }

  lemma StaysMultipleOf8(B: nat, rem: nat, digit: int, rem': int)
    requires B % 8 == 0 && rem' == rem * 0x2000_0000 - digit * B
    ensures rem' % 8 == 0
  {
    assert digit * B == digit * (B / 8) * 8;
  }

  /** The loop: 29 quotient bits a turn, until fewer than 30 are left. */
  method Reduce(B: U64, rem0: U64, shift0: nat, fastInt64: bool) returns (rem: U64, shift: nat, q64: U64, ghost m: int)
    requires 0x2000_0000_0000_0000 <= B < 0x4000_0000_0000_0000 && B % 8 == 0
    requires rem0 < 2 * B && rem0 % 8 == 0 && shift0 > 0
    ensures 1 <= shift <= 29 && rem < 2 * B
    ensures q64 == HeadProduct(rem, ApproxRecip32(B / S))
    ensures rem0 * Pow2(shift0) == (m * B + rem) * Pow2(shift)
  {
    var expDiff: int := shift0 - 30;
    var recip32 := ApproxRecip32(B / S);
    RecipBounds(B / S);
    rem, m := rem0, 0;
    while true
      invariant -29 <= expDiff && rem < 2 * B && rem % 8 == 0
      invariant rem0 * Pow2(shift0) == (m * B + rem) * Pow2(expDiff + 30)
      decreases expDiff + 30
    {
      Estimate(B, rem);
      q64 := HeadProduct(rem, recip32);
      if expDiff < 0 {
        break;
      }
      ghost var before := rem;
      ghost var digit;
      var q := Digit(B, rem, q64);
      rem, digit := Turn(B, rem, q, fastInt64);
      StaysMultipleOf8(B, before, digit, rem);
      DigitShift(B, before, digit, rem, m, expDiff + 30);
      m := m * 0x2000_0000 + digit;
      expDiff := expDiff - 29;
    }
    shift := expDiff + 30;
  }

  lemma WrappedDecrement(rem: U64, B: U64)
    requires rem < TWO63 && 0 < B < 0x4000_0000_0000_0000
    ensures Signed64(Wrap64(rem - B)) == rem - B
  {
  }

  /** The do-while loop: takes the divisor away until the sign bit appears. */
  method CountDown(B: U64, start: U64, q0: U32) returns (rem: U64, altRem: U64, q: U32, ghost steps: nat)
    requires 0 < B < 0x4000_0000_0000_0000 && start < TWO63
    ensures 0 <= Signed64(rem) + B && Signed64(rem) < 0 && altRem == Signed64(rem) + B
    ensures start == steps * B + Signed64(rem) && SameParity(q, q0 + steps)
  {
    rem, q, steps, altRem := start, q0, 0, 0;
    while true
      invariant rem < TWO63 && start == steps * B + rem && SameParity(q, q0 + steps)
      decreases rem
    {
      altRem := rem;
      WrappedIncrement(q, q0 + steps);
      q := Wrap32(q + 1);
      OneMore(steps, B);
      steps := steps + 1;
      WrappedDecrement(rem, B);
      rem := Wrap64(rem - B);
      if rem >= TWO63 {
        break;
      }
    }
  }

  /** Keeps whichever of the two is nearer zero, or for a tie the one with the even quotient. */
  method SelectRem(B: U64, rem: U64, altRem: U64, q: U32) returns (r: U64)
    requires 0 < B < 0x4000_0000_0000_0000
    requires 0 <= Signed64(rem) + B && Signed64(rem) < 0 && altRem == Signed64(rem) + B
    ensures Signed64(r) == Select(Signed64(rem), altRem, q)
  {
    r := rem;
    var meanRem := Wrap64(rem as int + altRem);
    if meanRem >= TWO63 || (meanRem == 0 && q % 2 == 1) {
      r := altRem;
    }
  }

  /** From a nonnegative partial remainder with quotient q0 so far to the final choice. */
  method Finish(B: U64, start: U64, q0: U32) returns (r: U64)
    requires 0 < B < 0x4000_0000_0000_0000 && start < TWO63
    ensures IeeeRemainder(start + q0 * B, B, Signed64(r))
  {
    var rem, altRem, q;
    ghost var steps;
    rem, altRem, q, steps := CountDown(B, start, q0);
    r := SelectRem(B, rem, altRem, q);
    assert (q0 + steps) * B == q0 * B + steps * B;
    SelectIsNearest(start + q0 * B, B, q0 + steps, Signed64(rem));
  }

  /** The last, partial digit; the difference fits in a signed word. */
  method LastDifference(B: U64, rem0: U64, shift: nat, q64: U64) returns (rem: U64, q: U32)
    requires 0x2000_0000_0000_0000 <= B < 0x4000_0000_0000_0000 && rem0 < 2 * B && 1 <= shift <= 29
    requires q64 == HeadProduct(rem0, ApproxRecip32(B / S))
    ensures Signed64(rem) == rem0 * Pow2(shift) - q * B && 0 <= Signed64(rem) + B
  {
    q := q64 / TWO32 / Pow2(29 - shift);
    LastBounds(B, rem0, 29 - shift, q64, q);
    rem := Minus64(rem0 * Pow2(shift), q * B);
  }

  /** The last digit and the final choice after it. */
  method LastTurn(B: U64, rem0: U64, shift: nat, q64: U64) returns (r: U64)
    requires 0x2000_0000_0000_0000 <= B < 0x4000_0000_0000_0000 && rem0 < 2 * B && 1 <= shift <= 29
    requires q64 == HeadProduct(rem0, ApproxRecip32(B / S))
    ensures IeeeRemainder(rem0 * Pow2(shift), B, Signed64(r))
  {
    var rem, q := LastDifference(B, rem0, shift, q64);
    if rem >= TWO63 {
      var altRem := Wrap64(rem + B);
      r := SelectRem(B, rem, altRem, q);
      SelectIsNearest(rem0 * Pow2(shift), B, q, Signed64(rem));
    } else {
      r := Finish(B, rem, q);
    }
  }

  lemma LastBounds(B: U64, rem0: U64, k: nat, q64: U64, q: nat)
    requires 0x2000_0000_0000_0000 <= B < 0x4000_0000_0000_0000 && rem0 < 2 * B && k <= 28
    requires q64 == HeadProduct(rem0, ApproxRecip32(B / S)) && q == q64 / TWO32 / Pow2(k)
    ensures 0 <= rem0 * Pow2(29 - k) - q * B + B && rem0 * Pow2(29 - k) - q * B < TWO63
  {
    Estimate(B, rem0);
    LastDigit(S, B, B / S, rem0, q64, k, q);
  }

  /** The whole problem when at least one quotient digit is needed. */
  method ReduceAndSelect(B: U64, rem0: U64, shift0: nat, fastInt64: bool) returns (r: U64)
    requires 0x2000_0000_0000_0000 <= B < 0x4000_0000_0000_0000 && B % 8 == 0
    requires rem0 < 2 * B && rem0 % 8 == 0 && shift0 > 0
    ensures IeeeRemainder(rem0 * Pow2(shift0), B, Signed64(r))
  {
    var rem, shift, q64;
    ghost var m;
    rem, shift, q64, m := Reduce(B, rem0, shift0, fastInt64);
    r := LastTurn(B, rem, shift, q64);
    EvenMultiple(m, shift);
    ShiftByEven(rem * Pow2(shift), B, Signed64(r), m * Pow2(shift));
    Gather(m, B, rem, Pow2(shift));
  }
}

/** f64_rem as a whole. */
module F64Rem {
  import opened Arith
  import opened Words
  import opened Floats
  import opened Formats
  import opened RemCore
  import opened RemSpec
  import opened F64RemLoop

  const F: nat := 52
  const HIDDEN: nat := 0x10_0000_0000_0000

  lemma HiddenBit()
    ensures Pow2(F) == HIDDEN && Pow2(9) == 0x200
  {
    Pow2Of32();
    assert Pow2(40) == 0x100_0000_0000;
    assert Pow2(48) == 0x1_0000_0000_0000;
  }

  /** The aligned significands of a problem whose exponents differ by expDiff. */
  ghost function Numerator(sigA: nat, expDiff: int): nat
    requires expDiff >= -1
  {
    if expDiff == -1 then sigA * 0x100 else sigA * 0x200 * Pow2(expDiff)
  }

  /** Exponents equal or one apart the wrong way: at most one quotient bit before the final choice. */
  method CloseOperands(B: U64, sigA: U64, expDiff: int) returns (r: U64)
    requires HIDDEN * 0x200 <= B < 2 * HIDDEN * 0x200 && HIDDEN <= sigA < 2 * HIDDEN && -1 <= expDiff <= 0
    ensures IeeeRemainder(if expDiff == -1 then sigA * 0x100 else sigA * 0x200, B, Signed64(r))
  {
    if expDiff != 0 {
      r := Finish(B, sigA * 0x100, 0);
    } else {
      var rem: U64, q: U32 := sigA * 0x200, 0;
      if B <= rem {
        rem, q := rem - B, 1;
      }
      r := Finish(B, rem, q);
    }
  }

  lemma SmallRemainder(N: nat, B: U64, r: U64)
    requires B < 0x4000_0000_0000_0000 && IeeeRemainder(N, B, Signed64(r))
    ensures r != TWO63
  {
    RemainderIsSmall(N, B, Signed64(r));
  }

  lemma Aligned(sigA: nat, sigB: nat)
    requires HIDDEN <= sigA < 2 * HIDDEN && HIDDEN <= sigB < 2 * HIDDEN
    ensures var rem0, B := sigA * 0x200, sigB * 0x200;
            && 0x2000_0000_0000_0000 <= B < 0x4000_0000_0000_0000 && B % 8 == 0
            && rem0 < 2 * B && rem0 < TWO63 && rem0 % 8 == 0
  {
    MultipleOf512(sigA);
    MultipleOf512(sigB);
  }

  lemma MultipleOf512(x: nat)
    ensures x * 0x200 % 8 == 0
  {
    ModIs(x * 0x200, 8, x * 0x40, 0);
  }

  method RemainderOfSignificands(sigA: U64, sigB: U64, expDiff: int, fastInt64: bool) returns (r: U64)
    requires HIDDEN <= sigA < 2 * HIDDEN && HIDDEN <= sigB < 2 * HIDDEN && expDiff >= -1
    ensures IeeeRemainder(Numerator(sigA, expDiff), sigB * 0x200, Signed64(r)) && r != TWO63
  {
    Aligned(sigA, sigB);
    var rem0, B := sigA * 0x200, sigB * 0x200;
    if expDiff < 1 {
      r := CloseOperands(B, sigA, expDiff);
    } else {
      r := ReduceAndSelect(B, rem0, expDiff, fastInt64);
    }
    SmallRemainder(Numerator(sigA, expDiff), B, r);
  }

  /** Puts the sign on a two's complement remainder. */
  method SignAndMagnitude(signA: bool, r: U64) returns (signRem: bool, mag: U64)
    requires r != TWO63
    ensures Signed64(r) == (if signRem == signA then mag else 0 - mag) && (mag == 0 ==> signRem == signA)
  {
    signRem, mag := signA, r;
    if mag >= TWO63 {
      signRem := !signRem;
      mag := Wrap64(0 - mag);
    }
  }

  /** The significand remainder, read as values. */
  lemma ValueOfRemainder(na: Normal, nb: Normal, va: nat, vb: nat, R: int)
    requires Normalised(F, na) && Normalised(F, nb) && StandsFor(F, na, va) && StandsFor(F, nb, vb)
    requires na.exp - nb.exp >= -1
    requires IeeeRemainder(Numerator(na.sig, na.exp - nb.exp), nb.sig * 0x200, R)
    ensures IsRemainder(F, 10, va, vb, nb.exp, R)
  {
    HiddenBit();
    ScaledSignificand(F, 9, nb, vb, nb.exp);
    if na.exp >= nb.exp {
      ScaledSignificand(F, 9, na, va, nb.exp);
    } else {
      ScaledSignificand(F, 9, na, va, na.exp);
      assert Pow2(nb.exp - 1 + F) == 2 * Pow2(na.exp - 1 + F);
      Halve(na.sig, Pow2(na.exp - 1 + F));
    }
    RemainderOfValues(F, 9, va, vb, nb.exp, Numerator(na.sig, na.exp - nb.exp), nb.sig * 0x200, R);
  }

  lemma Halve(sig: nat, p: nat)
    ensures sig * 0x100 * (2 * p) == sig * 0x200 * 1 * p
  {
  }

  /** Two finite nonzero operands, normalised. */
  method FiniteRem(signA: bool, na: Normal, nb: Normal, fastInt64: bool, ghost va: nat, ghost vb: nat)
      returns (z: Outcome)
    requires Normalised(F, na) && Normalised(F, nb) && StandsFor(F, na, va) && StandsFor(F, nb, vb)
    ensures z.ReturnFirst? || (z.Pack? && z.sig < TWO63 && z.exp == nb.exp)
    ensures z.ReturnFirst? ==> NearestQuotient(va, vb, 0)
    ensures z.Pack? ==>
              && z.exp + F >= 0 && IsRemainder(F, 10, va, vb, z.exp, if z.sign == signA then z.sig else 0 - z.sig)
              && (z.sig == 0 ==> z.sign == signA)
  {
    var expDiff := na.exp - nb.exp;
    if expDiff < -1 {
      FarBelow(F, va, vb, na, nb);
      return ReturnFirst;
    }
    HiddenBit();
    var r := RemainderOfSignificands(na.sig, nb.sig, expDiff, fastInt64);
    ValueOfRemainder(na, nb, va, vb, Signed64(r));
    var signRem, mag := SignAndMagnitude(signA, r);
    z := Pack(signRem, nb.exp, mag);
  }

  method OfFinite(a: Fields, b: Fields, fastInt64: bool) returns (z: Outcome)
    requires a.frac < Pow2(F) && b.frac < Pow2(F) && a.exp < 0x7FF && b.exp < 0x7FF
    requires (a.exp != 0 || a.frac != 0) && (b.exp != 0 || b.frac != 0)
    ensures Correct(F, 0x7FF, 10, a, b, z) && (z.Pack? ==> z.sig < TWO63 && z.exp < 0x7FF)
  {
    ZeroMagnitude(F, a);
    ZeroMagnitude(F, b);
    z := FiniteRem(a.sign, Normalise(F, 64, a), Normalise(F, 64, b), fastInt64, Magnitude(F, a), Magnitude(F, b));
  }

  method OfFields(uiA: U64, uiB: U64, fastInt64: bool) returns (z: Outcome)
    ensures Correct(F, 0x7FF, 10, Fields64(uiA), Fields64(uiB), z)
    ensures z.Pack? ==> z.sig < TWO63 && z.exp < 0x7FF
  {
    var a, b := Fields64(uiA), Fields64(uiB);
    HiddenBit();
    ZeroMagnitude(F, b);
    if a.exp == 0x7FF {
      if a.frac != 0 || (b.exp == 0x7FF && b.frac != 0) {
        return PropagateNaN;
      }
      return Invalid;
    }
    if b.exp == 0x7FF {
      return if b.frac != 0 then PropagateNaN else ReturnFirst;
    }
    if a.exp < b.exp - 1 {
      RawFarBelow(F, a, b);
      return ReturnFirst;
    }
    if b.exp == 0 && b.frac == 0 {
      return Invalid;
    }
    if a.exp == 0 && a.frac == 0 {
      return ReturnFirst;
    }
    z := OfFinite(a, b, fastInt64);
  }

  /** What is handed on, for every pair of words. */
  method Rem(uiA: U64, uiB: U64, fastInt64: bool) returns (z: Outcome)
    ensures CorrectOnWords(52, 0x7FF0_0000_0000_0000, 0x8000_0000_0000_0000, 10, uiA, uiB, z)
    ensures Correct(F, 0x7FF, 10, Fields64(uiA), Fields64(uiB), z)
    ensures z.Pack? ==> z.sig < TWO63 && z.exp < 0x7FF
  {
    z := OfFields(uiA, uiB, fastInt64);
    HiddenBit();
    Parts64(uiA);
    Parts64(uiB);
    OnWords(F, 0x10_0000_0000_0000, 0x7FF, 0x7FF0_0000_0000_0000, 0x8000_0000_0000_0000, 10,
            uiA, uiB, Fields64(uiA), Fields64(uiB), z);
  }
}
