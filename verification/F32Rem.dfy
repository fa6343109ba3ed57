/** The significand part of f32_rem. Each turn keeps only minus the multiple of the divisor, modulo
    2^32: the shifted remainder itself vanishes because remainders are multiples of 8. */
module F32RemLoop {
  import opened Arith
  import opened Words
  import opened RemCore

  /** The reciprocal is of 4*B, exactly, so digits are never too large and at most 3/2 too small. */
  lemma Estimate(B: nat, rem: nat)
    requires 0x2000_0000 <= B < 0x4000_0000 && rem < TWO31
    ensures var q := rem * ApproxRecip32(4 * B) / TWO32;
            0 <= rem * 0x2000_0000 - q * B && 2 * (rem * 0x2000_0000 - q * B) < 3 * B
  {
    var r := ApproxRecip32(4 * B);
    RecipBounds(4 * B);
    DivBounds(rem * r, TWO32);
    EstimateFrom(B, rem, r, rem * r / TWO32);
  }

  lemma EstimateFrom(B: nat, rem: nat, r: nat, q: nat)
    requires 0 < B && rem < TWO31
    requires r * (4 * B) < TWO63 <= (r + 1) * (4 * B)
    requires q * TWO32 <= rem * r < q * TWO32 + TWO32
    ensures 0 <= rem * 0x2000_0000 - q * B && 2 * (rem * 0x2000_0000 - q * B) < 3 * B
  {
    var rB := r * B;
    assert r * (4 * B) == 4 * rB && (r + 1) * (4 * B) == 4 * rB + 4 * B;
    MulLe(rB, 0x2000_0000_0000_0000, rem);
    MulLe(0x2000_0000_0000_0000 - B, rB, rem);
    assert rem * r * B == rB * rem;
    MulLe(q * TWO32, rem * r, B);
    MulLe(rem * r + 1, q * TWO32 + TWO32, B);
    MulLe(rem, TWO31, B);
    assert q * TWO32 * B == TWO32 * (q * B);
    assert (q * TWO32 + TWO32) * B == TWO32 * (q * B) + TWO32 * B;
    assert (0x2000_0000_0000_0000 - B) * rem == 0x2000_0000_0000_0000 * rem - rem * B;
  }

  method Digit(B: U32, rem: U32, recip32: U32) returns (q: U32)
    requires 0x2000_0000 <= B < 0x4000_0000 && rem < TWO31 && recip32 == ApproxRecip32(4 * B)
    ensures 0 <= rem * 0x2000_0000 - q * B && 2 * (rem * 0x2000_0000 - q * B) < 3 * B
  {
    Estimate(B, rem);
    FitsWord(rem, recip32);
    q := rem * recip32 / TWO32;
  }

  lemma FitsWord(rem: U32, r: U32)
    ensures rem * r / TWO32 < TWO32
  {
    MulLe(rem, TWO32 - 1, r);
  }

  /** -(q * sigB) modulo 2^32 is rem * 2^29 - q * sigB. */
  lemma NegatedMultiple(rem: U32, qB: nat)
    requires rem % 8 == 0 && 0 <= rem * 0x2000_0000 - qB < TWO32
    ensures Wrap32(0 - Wrap32(qB)) == rem * 0x2000_0000 - qB
  {
    assert rem * 0x2000_0000 == rem / 8 * TWO32;
    ModShift(-(qB as int), rem / 8, TWO32);
    WrapDifference32(0, qB);
  }

  lemma StaysMultipleOf8(B: nat, rem: nat, q: nat)
    requires B % 8 == 0
    ensures (rem * 0x2000_0000 - q * B) % 8 == 0
  {
    assert q * B == q * (B / 8) * 8;
  }

  method Turn(B: U32, rem: U32, q: U32) returns (rem': U32)
    requires B < 0x4000_0000 && B % 8 == 0 && rem % 8 == 0
    requires 0 <= rem * 0x2000_0000 - q * B && 2 * (rem * 0x2000_0000 - q * B) < 3 * B
    ensures rem' == rem * 0x2000_0000 - q * B && rem' < TWO31 && rem' % 8 == 0
  {
    NegatedMultiple(rem, q * B);
    StaysMultipleOf8(B, rem, q);
    rem' := Wrap32(0 - Wrap32(q * B));
  }

  /** The loop: 29 quotient bits a turn, the first from a remainder held one bit higher. */
  method Reduce(B: U32, rem0: U32, shift0: nat) returns (rem: U32, shift: nat, q: U32, ghost m: nat)
    requires 0x2000_0000 <= B < 0x4000_0000 && B % 8 == 0
    requires rem0 < TWO31 && rem0 % 8 == 0
    ensures shift <= 29 && rem < TWO31 && (shift == 0 ==> m == 0)
    ensures 0 <= rem * 0x2000_0000 - q * B && 2 * (rem * 0x2000_0000 - q * B) < 3 * B
    ensures rem0 * Pow2(shift0) == (m * B + rem) * Pow2(shift)
  {
    RecipBounds(4 * B);
    var recip32: U32 := ApproxRecip32(4 * B);
    var expDiff: int := shift0 - 30;
    rem, m := rem0, 0;
    while true
      invariant -30 <= expDiff && rem < TWO31 && rem % 8 == 0 && (expDiff == -30 ==> m == 0)
      invariant rem0 * Pow2(shift0) == (m * B + rem) * Pow2(expDiff + 30)
      decreases expDiff + 30
    {
      q := Digit(B, rem, recip32);
      if expDiff < 0 {
        break;
      }
      DigitShift(B, rem, q, rem * 0x2000_0000 - q * B, m, expDiff + 30);
      rem := Turn(B, rem, q);
      m := m * 0x2000_0000 + q;
      expDiff := expDiff - 29;
    }
    shift := expDiff + 30;
  }

  /** The kept high bits of the last digit. */
  lemma LastBounds(B: nat, rem: nat, q0: nat, k: nat, q: nat)
    requires k <= 29 && q == q0 / Pow2(k)
    requires 0 <= rem * 0x2000_0000 - q0 * B && 2 * (rem * 0x2000_0000 - q0 * B) < 3 * B
    ensures 0 <= rem * Pow2(29 - k) - q * B && 2 * (rem * Pow2(29 - k) - q * B) < 3 * B
  {
    Pow2Split29(k);
    DivBounds(q0, Pow2(k));
    LastFrom(B, rem, q0, Pow2(k), Pow2(29 - k), q);
  }

  lemma LastFrom(B: nat, rem: nat, q0: nat, p: nat, p': nat, q: nat)
    requires p > 0 && p * p' == 0x2000_0000 && q * p <= q0 < q * p + p
    requires 0 <= rem * 0x2000_0000 - q0 * B && 2 * (rem * 0x2000_0000 - q0 * B) < 3 * B
    ensures 0 <= rem * p' - q * B && 2 * (rem * p' - q * B) < 3 * B
  {
    var t, w, pB := rem * p' - q * B, q * p * B, p * B;
    Expand(rem, p', q, B, p);
    MulLe(q * p, q0, B);
    MulLe(q0 + 1, q * p + p, B);
    Distribute(q * p, p, B);
    Distribute(q0, 1, B);
    MulLe(1, p, B);
    if t < 0 { MulLe(t, -1, p); }
    Assoc(2, t, p);
    Assoc(3, B, p);
    MulLtCancel(2 * t, 3 * B, p);
  }

  lemma Expand(rem: int, p': int, q: int, B: int, p: int)
    ensures (rem * p' - q * B) * p == rem * (p * p') - q * p * B
  {
  }

  /** The do-while loop: takes the divisor away until the sign bit appears. */
  method CountDown(B: U32, start: U32, q0: U32) returns (rem: U32, altRem: U32, q: U32, ghost steps: nat)
    requires 0 < B < 0x4000_0000 && start < TWO31
    ensures 0 <= Signed32(rem) + B && Signed32(rem) < 0 && altRem == Signed32(rem) + B
    ensures start == steps * B + Signed32(rem) && SameParity(q, q0 + steps)
  {
    rem, q, steps, altRem := start, q0, 0, 0;
    while true
      invariant rem < TWO31 && start == steps * B + rem && SameParity(q, q0 + steps)
      decreases rem
    {
      altRem := rem;
      WrappedIncrement(q, q0 + steps);
      q := Wrap32(q + 1);
      OneMore(steps, B);
      steps := steps + 1;
      SignedWrap32(rem - B);
      rem := Wrap32(rem - B);
      if rem >= TWO31 {
        break;
      }
    }
  }

  /** Counts down, then keeps whichever remainder is nearer zero, or for a tie the one with the
      even quotient. */
  method Finish(B: U32, start: U32, q0: U32) returns (r: U32)
    requires 0 < B < 0x4000_0000 && start < TWO31
    ensures IeeeRemainder(start + q0 * B, B, Signed32(r))
  {
    var rem, altRem, q;
    ghost var steps;
    rem, altRem, q, steps := CountDown(B, start, q0);
    r := rem;
    var meanRem := Wrap32(rem as int + altRem);
    if meanRem >= TWO31 || (meanRem == 0 && q % 2 == 1) {
      r := altRem;
    }
    assert Signed32(r) == Select(Signed32(rem), altRem, q0 + steps);
    Distribute(q0, steps, B);
    SelectIsNearest(start + q0 * B, B, q0 + steps, Signed32(rem));
  }

  method LastDifference(B: U32, rem0: U32, shift: nat, q0: U32) returns (rem: U32, q: U32)
    requires 0 < B < 0x4000_0000 && shift <= 29
    requires 0 <= rem0 * 0x2000_0000 - q0 * B && 2 * (rem0 * 0x2000_0000 - q0 * B) < 3 * B
    ensures rem == rem0 * Pow2(shift) - q * B && rem < TWO31
  {
    q := q0 / Pow2(29 - shift);
    LastBounds(B, rem0, q0, 29 - shift, q);
    rem := Minus32(rem0 * Pow2(shift), q * B);
  }

  /** The last digit and the final choice after it. */
  method LastTurn(B: U32, rem0: U32, shift: nat, q0: U32) returns (r: U32)
    requires 0 < B < 0x4000_0000 && shift <= 29
    requires 0 <= rem0 * 0x2000_0000 - q0 * B && 2 * (rem0 * 0x2000_0000 - q0 * B) < 3 * B
    ensures IeeeRemainder(rem0 * Pow2(shift), B, Signed32(r))
  {
    var rem, q := LastDifference(B, rem0, shift, q0);
    r := Finish(B, rem, q);
  }

  /** The whole problem when at least one quotient digit is needed. */
  method ReduceAndSelect(B: U32, rem0: U32, shift0: nat) returns (r: U32)
    requires 0x2000_0000 <= B < 0x4000_0000 && B % 8 == 0
    requires rem0 < TWO31 && rem0 % 8 == 0
    ensures IeeeRemainder(rem0 * Pow2(shift0), B, Signed32(r))
  {
    var rem, shift, q;
    ghost var m;
    rem, shift, q, m := Reduce(B, rem0, shift0);
    r := LastTurn(B, rem, shift, q);
    if shift > 0 { EvenMultiple(m, shift); }
    ShiftByEven(rem * Pow2(shift), B, Signed32(r), m * Pow2(shift));
    Gather(m, B, rem, Pow2(shift));
  }
}

/** f32_rem as a whole. */
module F32Rem {
  import opened Arith
  import opened Words
  import opened Floats
  import opened Formats
  import opened RemCore
  import opened RemSpec
  import opened F32RemLoop

  const F: nat := 23
  const HIDDEN: nat := 0x80_0000

  lemma HiddenBit()
    ensures Pow2(F) == HIDDEN && Pow2(6) == 0x40
  {
    assert Pow2(8) == 0x100;
    assert Pow2(16) == 0x1_0000;
  }

  /** The aligned significands of a problem whose exponents differ by expDiff. */
  ghost function Numerator(sigA: nat, expDiff: int): nat
    requires expDiff >= -1
  {
    if expDiff == -1 then sigA * 0x20 else sigA * 0x40 * Pow2(expDiff)
  }

  lemma Aligned(sigA: nat, sigB: nat)
    requires HIDDEN <= sigA < 2 * HIDDEN && HIDDEN <= sigB < 2 * HIDDEN
    ensures var rem0, B := sigA * 0x80, sigB * 0x40;
            0x2000_0000 <= B < 0x4000_0000 && B % 8 == 0 && rem0 < TWO31 && rem0 % 8 == 0
  {
    MultipleOf8(sigA * 0x10);
    MultipleOf8(sigB * 8);
  }

  lemma MultipleOf8(x: nat)
    ensures 8 * x % 8 == 0
  {
  }

  /** Exponents equal or one apart the wrong way: at most one quotient bit before the final choice. */
  method CloseOperands(B: U32, sigA: U32, expDiff: int) returns (r: U32)
    requires HIDDEN * 0x40 <= B < 2 * HIDDEN * 0x40 && HIDDEN <= sigA < 2 * HIDDEN && -1 <= expDiff <= 0
    ensures IeeeRemainder(if expDiff == -1 then sigA * 0x20 else sigA * 0x40, B, Signed32(r))
  {
    if expDiff != 0 {
      r := Finish(B, sigA * 0x20, 0);
    } else {
      var rem: U32, q: U32 := sigA * 0x40, 0;
      if B <= rem {
        rem, q := rem - B, 1;
      }
      r := Finish(B, rem, q);
    }
  }

  lemma SmallRemainder(N: nat, B: U32, r: U32)
    requires B < 0x4000_0000 && IeeeRemainder(N, B, Signed32(r))
    ensures r != TWO31
  {
    RemainderIsSmall(N, B, Signed32(r));
  }

  method RemainderOfSignificands(sigA: U32, sigB: U32, expDiff: int) returns (r: U32)
    requires HIDDEN <= sigA < 2 * HIDDEN && HIDDEN <= sigB < 2 * HIDDEN && expDiff >= -1
    ensures IeeeRemainder(Numerator(sigA, expDiff), sigB * 0x40, Signed32(r)) && r != TWO31
  {
    Aligned(sigA, sigB);
    if expDiff < 1 {
      r := CloseOperands(sigB * 0x40, sigA, expDiff);
    } else {
      r := ReduceAndSelect(sigB * 0x40, sigA * 0x80, expDiff - 1);
      OneBitHigher(sigA, expDiff);
    }
    SmallRemainder(Numerator(sigA, expDiff), sigB * 0x40, r);
  }

  lemma OneBitHigher(sigA: nat, expDiff: nat)
    requires expDiff > 0
    ensures sigA * 0x80 * Pow2(expDiff - 1) == sigA * 0x40 * Pow2(expDiff)
  {
    Assoc(sigA * 0x40, 2, Pow2(expDiff - 1));
  }

  /** Puts the sign on a two's complement remainder. */
  method SignAndMagnitude(signA: bool, r: U32) returns (signRem: bool, mag: U32)
    requires r != TWO31
    ensures Signed32(r) == (if signRem == signA then mag else 0 - mag) && (mag == 0 ==> signRem == signA)
  {
    signRem, mag := signA, r;
    if mag >= TWO31 {
      signRem := !signRem;
      mag := Wrap32(0 - mag);
    }
  }

  /** The significand remainder, read as values. */
  lemma ValueOfRemainder(na: Normal, nb: Normal, va: nat, vb: nat, R: int)
    requires Normalised(F, na) && Normalised(F, nb) && StandsFor(F, na, va) && StandsFor(F, nb, vb)
    requires na.exp - nb.exp >= -1
    requires IeeeRemainder(Numerator(na.sig, na.exp - nb.exp), nb.sig * 0x40, R)
    ensures IsRemainder(F, 7, va, vb, nb.exp, R)
  {
    HiddenBit();
    ScaledSignificand(F, 6, nb, vb, nb.exp);
    if na.exp >= nb.exp {
      ScaledSignificand(F, 6, na, va, nb.exp);
    } else {
      ScaledSignificand(F, 6, na, va, na.exp);
      assert Pow2(nb.exp - 1 + F) == 2 * Pow2(na.exp - 1 + F);
      Halve(na.sig, Pow2(na.exp - 1 + F));
    }
    RemainderOfValues(F, 6, va, vb, nb.exp, Numerator(na.sig, na.exp - nb.exp), nb.sig * 0x40, R);
  }

  lemma Halve(sig: nat, p: nat)
    ensures sig * 0x20 * (2 * p) == sig * 0x40 * 1 * p
  {
  }

  /** Two finite nonzero operands, normalised. */
  method FiniteRem(signA: bool, na: Normal, nb: Normal, ghost va: nat, ghost vb: nat) returns (z: Outcome)
    requires Normalised(F, na) && Normalised(F, nb) && StandsFor(F, na, va) && StandsFor(F, nb, vb)
    ensures z.ReturnFirst? || (z.Pack? && z.sig < TWO31 && z.exp == nb.exp)
    ensures z.ReturnFirst? ==> NearestQuotient(va, vb, 0)
    ensures z.Pack? ==>
              && z.exp + F >= 0 && IsRemainder(F, 7, va, vb, z.exp, if z.sign == signA then z.sig else 0 - z.sig)
              && (z.sig == 0 ==> z.sign == signA)
  {
    var expDiff := na.exp - nb.exp;
    if expDiff < -1 {
      FarBelow(F, va, vb, na, nb);
      return ReturnFirst;
    }
    HiddenBit();
    var r := RemainderOfSignificands(na.sig, nb.sig, expDiff);
    ValueOfRemainder(na, nb, va, vb, Signed32(r));
    var signRem, mag := SignAndMagnitude(signA, r);
    z := Pack(signRem, nb.exp, mag);
  }

  method OfFinite(a: Fields, b: Fields) returns (z: Outcome)
    requires a.frac < Pow2(F) && b.frac < Pow2(F) && a.exp < 0xFF && b.exp < 0xFF
    requires (a.exp != 0 || a.frac != 0) && (b.exp != 0 || b.frac != 0)
    ensures Correct(F, 0xFF, 7, a, b, z) && (z.Pack? ==> z.sig < TWO31 && z.exp < 0xFF)
  {
    ZeroMagnitude(F, a);
    ZeroMagnitude(F, b);
    z := FiniteRem(a.sign, Normalise(F, 32, a), Normalise(F, 32, b), Magnitude(F, a), Magnitude(F, b));
  }

  method OfFields(uiA: U32, uiB: U32) returns (z: Outcome)
    ensures Correct(F, 0xFF, 7, Fields32(uiA), Fields32(uiB), z)
    ensures z.Pack? ==> z.sig < TWO31 && z.exp < 0xFF
  {
    var a, b := Fields32(uiA), Fields32(uiB);
    HiddenBit();
    ZeroMagnitude(F, b);
    if a.exp == 0xFF {
      if a.frac != 0 || (b.exp == 0xFF && b.frac != 0) {
        return PropagateNaN;
      }
      return Invalid;
    }
    if b.exp == 0xFF {
      return if b.frac != 0 then PropagateNaN else ReturnFirst;
    }
    if b.exp == 0 && b.frac == 0 {
      return Invalid;
    }
    if a.exp == 0 && a.frac == 0 {
      return ReturnFirst;
    }
    z := OfFinite(a, b);
  }

  /** What is handed on, for every pair of words. */
  method Rem(uiA: U32, uiB: U32) returns (z: Outcome)
    ensures CorrectOnWords(23, 0x7F80_0000, 0x8000_0000, 7, uiA, uiB, z)
    ensures Correct(F, 0xFF, 7, Fields32(uiA), Fields32(uiB), z)
    ensures z.Pack? ==> z.sig < TWO31 && z.exp < 0xFF
  {
    z := OfFields(uiA, uiB);
    HiddenBit();
    Parts32(uiA);
    Parts32(uiB);
    OnWords(F, 0x80_0000, 0xFF, 0x7F80_0000, 0x8000_0000, 7,
            uiA, uiB, Fields32(uiA), Fields32(uiB), z);
  }
}
