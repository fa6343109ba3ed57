/** The significand part of f128_rem, on two-word values. */
module F128RemLoop {
  import opened Arith
  import opened Words
  import opened Words128
  import opened RemCore

  const S: nat := 0x2_0000_0000_0000_0000_0000
  const LOW: nat := 0x1_0000_0000_0000_0000_0000_0000_0000   // 2^112
  const HIGH: nat := 0x2_0000_0000_0000_0000_0000_0000_0000  // 2^113

  predicate Divisor(B: U128) { LOW <= Value(B) < HIGH }

  /** The product of the remainder's head with the reciprocal of the divisor's. */
  function HeadProduct(rem: U128, recip32: nat): nat { rem.v64 / 0x8_0000 * recip32 }

  function Recip(B: U128): nat
    requires Divisor(B)
  {
    ApproxRecip32(B.v64 / 0x2_0000)
  }

  lemma Estimate(B: U128, rem: U128)
    requires Divisor(B) && Value(rem) < 2 * Value(B)
    ensures var a, b, r := B.v64 / 0x2_0000, Value(B), Value(rem);
            var d := HeadProduct(rem, Recip(B));
            && 0x8000_0000 <= a < TWO32 && d < TWO63
            && d * b <= r * 0x2000_0000_0000_0000 + 0x8000_0000 * b
            && 4 * (d * b) >= r * 0x8000_0000_0000_0000 - r * a - S * 0x2_0000_0000_0000_0000
            && d * b > r * 0x2000_0000_0000_0000 - 0x1_4000_0000 * b
  {
    var a := Floor(B.v64, 0x2_0000);
    var h := Floor(rem.v64, 0x8_0000);
    DivIs(B.v64, 0x2_0000, a);
    DivIs(rem.v64, 0x8_0000, h);
    EstimateOfHeads(Value(B), Value(rem), a, h, ApproxRecip32(a));
  }

  lemma EstimateOfHeads(B: nat, rem: nat, a: nat, h: nat, r: nat)
    requires LOW <= B < HIGH && rem < 2 * B
    requires a * S <= B < a * S + S && h * (4 * S) <= rem < h * (4 * S) + 4 * S
    requires 0x8000_0000 <= a < TWO32 ==> r == ApproxRecip32(a)
    ensures 0x8000_0000 <= a < TWO32 && h * r < TWO63
    ensures h * r * B <= rem * 0x2000_0000_0000_0000 + 0x8000_0000 * B
    ensures 4 * (h * r * B) >= rem * 0x8000_0000_0000_0000 - rem * a - S * 0x2_0000_0000_0000_0000
    ensures h * r * B > rem * 0x2000_0000_0000_0000 - 0x1_4000_0000 * B
  {
    RecipBounds(a);
    MulLe(h, TWO31 - 1, r);
    DigitEstimate(S, B, a, r, rem, h, h * r);
  }

  /** Differences of wrapped 128-bit values are right whenever they fit in a signed word. */
  lemma SignedSub(a: U128, b: U128, x: int, y: int)
    requires Value(a) == x % TWO128 && Value(b) == y % TWO128
    requires -(TWO127 as int) <= x - y < TWO127
    ensures Signed128(Sub128(a, b)) == x - y
  {
    ModOfDifference(x, y, TWO128);
    SignOfHigh(Sub128(a, b));
    if x - y < 0 { ModIs(x - y, TWO128, -1, x - y + TWO128); } else { ModIs(x - y, TWO128, 0, x - y); }
  }

  lemma SignOfHigh(w: U128)
    ensures w.v64 < TWO63 <==> Value(w) < TWO127
  {
  }

  lemma SmallMod(x: nat)
    requires x < TWO128
    ensures x % TWO128 == x
  {
  }

  /** Adding the divisor back to a negative difference. */
  lemma SignedAdd(a: U128, b: U128)
    requires Signed128(a) < 0 && 0 <= Signed128(a) + Value(b)
    ensures Value(Add128(a, b)) == Signed128(a) + Value(b)
  {
    ModIs(Value(a) + Value(b), TWO128, 1, Signed128(a) + Value(b));
  }

  method Digit(B: U128, rem: U128, q64: U64) returns (q: U32)
    requires Divisor(B) && Value(rem) < 2 * Value(B) && q64 == HeadProduct(rem, Recip(B))
    ensures var t := Value(rem) * 0x2000_0000 - q * Value(B); 0 <= t + Value(B) && t < 2 * Value(B)
  {
    Estimate(B, rem);
    q := (q64 + 0x8000_0000) / TWO32;
    LoopDigit(Value(B), Value(rem), q64, q);
  }

  /** rem shifted by `shift` bits, less q times the divisor. */
  method Difference(B: U128, rem: U128, shift: nat, q: U32) returns (r: U128)
    requires 1 <= shift <= 63
    requires var t := Value(rem) * Pow2(shift) - q * Value(B); -(TWO127 as int) <= t < TWO127
    ensures Signed128(r) == Value(rem) * Pow2(shift) - q * Value(B)
  {
    var shifted := ShortShiftLeft128(rem, shift);
    var term := Mul128By32(B, q);
    r := Sub128(shifted, term);
    assert q * Value(B) == Value(B) * q;
    SignedSub(shifted, term, Value(rem) * Pow2(shift), q * Value(B));
  }

  method Turn(B: U128, rem: U128, q: U32) returns (rem': U128, ghost digit: int)
    requires Divisor(B)
    requires var t := Value(rem) * 0x2000_0000 - q * Value(B); 0 <= t + Value(B) && t < 2 * Value(B)
    ensures Value(rem') < 2 * Value(B) && Value(rem') == Value(rem) * 0x2000_0000 - digit * Value(B)
  {
    Pow2Of29();
    rem' := Difference(B, rem, 29, q);
    digit := q;
    if rem'.v64 >= TWO63 {
      SignedAdd(rem', B);
      rem' := Add128(rem', B);
      Distribute(q, -1, Value(B));
      digit := q - 1;
    }
  }

  /** The loop: 29 quotient bits a turn, until fewer than 30 are left. */
  method Reduce(B: U128, rem0: U128, shift0: nat) returns (rem: U128, shift: nat, q64: U64, ghost m: int)
    requires Divisor(B) && Value(rem0) < 2 * Value(B) && shift0 > 0
    ensures 1 <= shift <= 29 && Value(rem) < 2 * Value(B) && q64 == HeadProduct(rem, Recip(B))
    ensures Value(rem0) * Pow2(shift0) == (m * Value(B) + Value(rem)) * Pow2(shift)
  {
    var expDiff: int := shift0 - 30;
    var recip32 := Recip(B);
    rem, m := rem0, 0;
    while true
      invariant -29 <= expDiff && Value(rem) < 2 * Value(B)
      invariant Value(rem0) * Pow2(shift0) == (m * Value(B) + Value(rem)) * Pow2(expDiff + 30)
      decreases expDiff + 30
    {
      Estimate(B, rem);
      q64 := HeadProduct(rem, recip32);
      if expDiff < 0 {
        break;
      }
      ghost var before := rem;
      ghost var digit;
      var q := Digit(B, rem, q64);
      rem, digit := Turn(B, rem, q);
      DigitShift(Value(B), Value(before), digit, Value(rem), m, expDiff + 30);
      m := m * 0x2000_0000 + digit;
      expDiff := expDiff - 29;
    }
    shift := expDiff + 30;
  }

  lemma WrappedDecrement(rem: U128, B: U128)
    requires rem.v64 < TWO63 && Divisor2(B)
    ensures Signed128(Sub128(rem, B)) == Value(rem) - Value(B)
  {
    SmallMod(Value(rem));
    SmallMod(Value(B));
    SignOfHigh(rem);
    SignedSub(rem, B, Value(rem), Value(B));
  }

  /** Also the doubled divisor of operands one exponent apart. */
  predicate Divisor2(B: U128) { LOW <= Value(B) < 2 * HIGH }

  /** The do-while loop: takes the divisor away until the sign bit appears. */
  method CountDown(B: U128, start: U128, q0: U32) returns (rem: U128, altRem: U128, q: U32, ghost steps: nat)
    requires Divisor2(B) && start.v64 < TWO63
    ensures 0 <= Signed128(rem) + Value(B) && Signed128(rem) < 0 && Value(altRem) == Signed128(rem) + Value(B)
    ensures Value(start) == steps * Value(B) + Signed128(rem) && SameParity(q, q0 + steps)
  {
    rem, q, steps, altRem := start, q0, 0, start;
    while true
      invariant rem.v64 < TWO63 && Value(start) == steps * Value(B) + Value(rem) && SameParity(q, q0 + steps)
      decreases Value(rem)
    {
      altRem := rem;
      WrappedIncrement(q, q0 + steps);
      q := Wrap32(q + 1);
      OneMore(steps, Value(B));
      steps := steps + 1;
      WrappedDecrement(rem, B);
      rem := Sub128(rem, B);
      if rem.v64 >= TWO63 {
        break;
      }
    }
  }

  /** meanRem is the signed sum of the two candidates. */
  lemma MeanOf(rem: U128, altRem: U128, b: nat)
    requires b < 2 * HIGH && Signed128(rem) < 0 && 0 <= Signed128(rem) + b && Value(altRem) == Signed128(rem) + b
    ensures Signed128(Add128(rem, altRem)) == Signed128(rem) + Value(altRem)
  {
    var mean := Signed128(rem) + Value(altRem);
    SignOfHigh(Add128(rem, altRem));
    if mean < 0 {
      ModIs(Value(rem) + Value(altRem), TWO128, 0, mean + TWO128);
    } else {
      ModIs(Value(rem) + Value(altRem), TWO128, 1, mean);
    }
  }

  /** Keeps whichever of the two is nearer zero, or for a tie the one with the even quotient. */
  method SelectRem(B: U128, rem: U128, altRem: U128, q: U32) returns (r: U128)
    requires Divisor2(B)
    requires 0 <= Signed128(rem) + Value(B) && Signed128(rem) < 0 && Value(altRem) == Signed128(rem) + Value(B)
    ensures Signed128(r) == Select(Signed128(rem), Value(altRem), q)
  {
    MeanOf(rem, altRem, Value(B));
    r := rem;
    var meanRem := Add128(rem, altRem);
    SignOfHigh(altRem);
    if meanRem.v64 >= TWO63 || (meanRem.v64 == 0 && meanRem.v0 == 0 && q % 2 == 1) {
      r := altRem;
    }
  }

  /** From a nonnegative partial remainder with quotient q0 so far to the final choice. */
  method Finish(B: U128, start: U128, q0: U32) returns (r: U128)
    requires Divisor2(B) && start.v64 < TWO63
    ensures IeeeRemainder(Value(start) + q0 * Value(B), Value(B), Signed128(r))
  {
    var rem, altRem, q;
    ghost var steps;
    rem, altRem, q, steps := CountDown(B, start, q0);
    r := SelectRem(B, rem, altRem, q);
    Distribute(q0, steps, Value(B));
    SelectIsNearest(Value(start) + q0 * Value(B), Value(B), q0 + steps, Signed128(rem));
  }

  lemma LastBounds(B: U128, rem0: U128, k: nat, q64: U64, q: nat)
    requires Divisor(B) && Value(rem0) < 2 * Value(B) && k <= 28
    requires q64 == HeadProduct(rem0, Recip(B)) && q == q64 / TWO32 / Pow2(k)
    ensures var t := Value(rem0) * Pow2(29 - k) - q * Value(B);
            0 <= t + Value(B) && t < 0x2_0000_0000 * S
  {
    Estimate(B, rem0);
    LastDigit(S, Value(B), B.v64 / 0x2_0000, Value(rem0), q64, k, q);
  }

  /** The last digit and the final choice after it. */
  method LastTurn(B: U128, rem0: U128, shift: nat, q64: U64) returns (r: U128)
    requires Divisor(B) && Value(rem0) < 2 * Value(B) && 1 <= shift <= 29
    requires q64 == HeadProduct(rem0, Recip(B))
    ensures IeeeRemainder(Value(rem0) * Pow2(shift), Value(B), Signed128(r))
  {
    var q: U32 := q64 / TWO32 / Pow2(29 - shift);
    LastBounds(B, rem0, 29 - shift, q64, q);
    var rem := Difference(B, rem0, shift, q);
    if rem.v64 >= TWO63 {
      SignedAdd(rem, B);
      var altRem := Add128(rem, B);
      r := SelectRem(B, rem, altRem, q);
      SelectIsNearest(Value(rem0) * Pow2(shift), Value(B), q, Signed128(rem));
    } else {
      r := Finish(B, rem, q);
    }
  }

  /** The whole problem when at least one quotient digit is needed. */
  method ReduceAndSelect(B: U128, rem0: U128, shift0: nat) returns (r: U128)
    requires Divisor(B) && Value(rem0) < 2 * Value(B) && shift0 > 0
    ensures IeeeRemainder(Value(rem0) * Pow2(shift0), Value(B), Signed128(r))
  {
    var rem, shift, q64;
    ghost var m;
    rem, shift, q64, m := Reduce(B, rem0, shift0);
    r := LastTurn(B, rem, shift, q64);
    EvenMultiple(m, shift);
    ShiftByEven(Value(rem) * Pow2(shift), Value(B), Signed128(r), m * Pow2(shift));
    Gather(m, Value(B), Value(rem), Pow2(shift));
  }
}

/** f128_rem as a whole. */
module F128Rem {
  import opened Arith
  import opened Words
  import opened Words128
  import opened Floats
  import opened Formats
  import opened RemCore
  import opened RemSpec
  import opened F128RemLoop

  const F: nat := 112
  const TWO48: nat := 0x1_0000_0000_0000

  function Split(x: nat): (w: U128)
    requires x < TWO128
    ensures Value(w) == x
  {
    U128(x / TWO64, x % TWO64)
  }

  /** The significands of a problem whose exponents differ by expDiff; operands one apart the
      wrong way have the divisor doubled instead. */
  ghost function Numerator(sigA: nat, expDiff: int): nat {
    if expDiff <= 0 then sigA else sigA * Pow2(expDiff)
  }

  ghost function Divided(sigB: nat, expDiff: int): nat { if expDiff < 0 then 2 * sigB else sigB }

  method CloseOperands(sigA: U128, sigB: U128, expDiff: int) returns (r: U128)
    requires Divisor(sigA) && Divisor(sigB) && -1 <= expDiff <= 0
    ensures IeeeRemainder(Value(sigA), Divided(Value(sigB), expDiff), Signed128(r))
  {
    SignOfHigh(sigA);
    if expDiff != 0 {
      SmallMod(2 * Value(sigB));
      var doubled := Add128(sigB, sigB);
      r := Finish(doubled, sigA, 0);
    } else if Le128(sigB, sigA) {
      SmallMod(Value(sigA) - Value(sigB));
      var rem := Sub128(sigA, sigB);
      SignOfHigh(rem);
      r := Finish(sigB, rem, 1);
    } else {
      r := Finish(sigB, sigA, 0);
    }
  }

  lemma SmallRemainder(N: nat, D: nat, r: U128)
    requires D < 2 * HIGH && IeeeRemainder(N, D, Signed128(r))
    ensures Value(r) != TWO127
  {
    RemainderIsSmall(N, D, Signed128(r));
    SignOfHigh(r);
  }

  method RemainderOfSignificands(sigA: U128, sigB: U128, expDiff: int) returns (r: U128)
    requires Divisor(sigA) && Divisor(sigB) && expDiff >= -1
    ensures IeeeRemainder(Numerator(Value(sigA), expDiff), Divided(Value(sigB), expDiff), Signed128(r))
    ensures Value(r) != TWO127
  {
    if expDiff < 1 {
      r := CloseOperands(sigA, sigB, expDiff);
    } else {
      r := ReduceAndSelect(sigB, sigA, expDiff);
    }
    SmallRemainder(Numerator(Value(sigA), expDiff), Divided(Value(sigB), expDiff), r);
  }

  /** Puts the sign on a two's complement remainder. */
  method SignAndMagnitude(signA: bool, r: U128) returns (signRem: bool, mag: U128)
    requires Value(r) != TWO127
    ensures Signed128(r) == (if signRem == signA then Value(mag) else 0 - Value(mag))
    ensures Value(mag) == 0 ==> signRem == signA
  {
    signRem, mag := signA, r;
    SignOfHigh(r);
    if mag.v64 >= TWO63 {
      signRem := !signRem;
      SmallMod(TWO128 - Value(r));
      ModShift(0 - Value(r), 1, TWO128);
      mag := Sub128(U128(0, 0), r);
    }
  }

  /** The significand remainder, read as values. */
  lemma ValueOfRemainder(na: Normal, nb: Normal, va: nat, vb: nat, R: int)
    requires Normalised(F, na) && Normalised(F, nb) && StandsFor(F, na, va) && StandsFor(F, nb, vb)
    requires na.exp - nb.exp >= -1
    requires IeeeRemainder(Numerator(na.sig, na.exp - nb.exp), Divided(nb.sig, na.exp - nb.exp), R)
    ensures IsRemainder(F, 0, va, vb, if na.exp < nb.exp then nb.exp - 2 else nb.exp - 1, R)
  {
    var expDiff := na.exp - nb.exp;
    var exp := if expDiff < 0 then nb.exp - 1 else nb.exp;
    ScaledSignificand(F, 0, na, va, exp);
    ScaledSignificand(F, 0, nb, vb, exp);
    assert Pow2(0) == 1 && Pow2(1) == 2;
    Commute(nb.sig, Pow2(exp - 1 + F));
    RemainderOfValues(F, 0, va, vb, exp, Numerator(na.sig, expDiff), Divided(nb.sig, expDiff), R);
  }

  lemma Commute(sig: nat, p: nat)
    ensures sig * 1 * 2 * p == 2 * sig * p && sig * 1 * 1 * p == sig * p
  {
  }

  lemma HiddenBit()
    ensures Pow2(F) == LOW
  {
    Pow2Of112();
  }

  /** Two finite nonzero operands, normalised. */
  method FiniteRem(signA: bool, na: Normal, nb: Normal, ghost va: nat, ghost vb: nat) returns (z: Outcome)
    requires Normalised(F, na) && Normalised(F, nb) && StandsFor(F, na, va) && StandsFor(F, nb, vb)
    ensures z.ReturnFirst? || z.Pack?
    ensures z.ReturnFirst? ==> NearestQuotient(va, vb, 0)
    ensures z.Pack? ==>
              && z.exp + F >= 0 && IsRemainder(F, 0, va, vb, z.exp, if z.sign == signA then z.sig else 0 - z.sig)
              && (z.sig == 0 ==> z.sign == signA)
  {
    var expDiff := na.exp - nb.exp;
    if expDiff < -1 {
      FarBelow(F, va, vb, na, nb);
      return ReturnFirst;
    }
    HiddenBit();
    var r := RemainderOfSignificands(Split(na.sig), Split(nb.sig), expDiff);
    ValueOfRemainder(na, nb, va, vb, Signed128(r));
    var signRem, mag := SignAndMagnitude(signA, r);
    var expB := if expDiff < 0 then nb.exp - 1 else nb.exp;
    z := Pack(signRem, expB - 1, Value(mag));
  }

  method OfFinite(a: Fields, b: Fields) returns (z: Outcome)
    requires a.frac < Pow2(F) && b.frac < Pow2(F) && a.exp < 0x7FFF && b.exp < 0x7FFF
    requires (a.exp != 0 || a.frac != 0) && (b.exp != 0 || b.frac != 0)
    ensures Correct(F, 0x7FFF, 0, a, b, z)
  {
    ZeroMagnitude(F, a);
    ZeroMagnitude(F, b);
    z := FiniteRem(a.sign, Normalise(F, 128, a), Normalise(F, 128, b), Magnitude(F, a), Magnitude(F, b));
  }

  method OfFields(uiA: U128, uiB: U128) returns (z: Outcome)
    ensures Correct(F, 0x7FFF, 0, Fields128(uiA), Fields128(uiB), z)
  {
    var a, b := Fields128(uiA), Fields128(uiB);
    HiddenBit();
    ZeroMagnitude(F, b);
    if a.exp == 0x7FFF {
      if a.frac != 0 || (b.exp == 0x7FFF && b.frac != 0) {
        return PropagateNaN;
      }
      return Invalid;
    }
    if b.exp == 0x7FFF {
      return if b.frac != 0 then PropagateNaN else ReturnFirst;
    }
    if b.exp == 0 && b.frac == 0 {
      return Invalid;
    }
    if a.exp == 0 && a.frac == 0 {
      return ReturnFirst;
    }
    z := OfFinite(a, b);
  }

  /** What is handed on, for every pair of words. */
  method Rem(uiA: U128, uiB: U128) returns (z: Outcome)
    ensures CorrectOnWords(112, 0x7FFF_0000_0000_0000_0000_0000_0000_0000, 0x8000_0000_0000_0000_0000_0000_0000_0000, 0,
                           Value(uiA), Value(uiB), z)
    ensures Correct(F, 0x7FFF, 0, Fields128(uiA), Fields128(uiB), z)
  {
    z := OfFields(uiA, uiB);
    HiddenBit();
    Parts128(uiA);
    Parts128(uiB);
    OnWords(F, 0x1_0000_0000_0000_0000_0000_0000_0000, 0x7FFF, 0x7FFF_0000_0000_0000_0000_0000_0000_0000,
            0x8000_0000_0000_0000_0000_0000_0000_0000, 0,
            Value(uiA), Value(uiB), Fields128(uiA), Fields128(uiB), z);
  }
}
