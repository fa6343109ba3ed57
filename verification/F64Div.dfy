/** The significand part of f64_div: two quotient digits from an approximate reciprocal, and a
    correction only where a rounding boundary is near. */
module F64DivSignificand {
  import opened Arith
  import opened Words
  import opened RemCore
  import opened Sticky

  const TWO95: nat := 0x8000_0000_0000_0000_0000_0000

  /** Dividend and divisor as aligned: the divisor's top bit is set, the quotient is in [1/2, 1). */
  predicate Aligned(sa: nat, sb: nat) {
    TWO63 <= sb < TWO64 && sb % 16 == 0 && sa < sb <= 2 * sa
  }

  /** The reduced reciprocal never overestimates, and errs by less than three parts in 2^95/sb. */
  predicate Reciprocal(sb: nat, r: nat) {
    r < TWO32 && TWO95 - 3 * sb <= r * sb < TWO95
  }

  lemma ReducedRecip(sb: nat)
    requires TWO63 <= sb < TWO64
    ensures ApproxRecip32(sb / TWO32) >= 2 && Reciprocal(sb, ApproxRecip32(sb / TWO32) - 2)
  {
    var b, lo := sb / TWO32, sb % TWO32;
    var R := ApproxRecip32(b);
    RecipBounds(b);
    if R < 2 { MulLe(R + 1, 2, b); }
    MulLe(R, TWO32, lo);
    MulLe(0, R, lo);
    assert (R - 2) * (b * TWO32 + lo) == R * b * TWO32 + R * lo - 2 * sb;
    assert (R + 1) * b == R * b + b;
  }

  /** A quotient digit: the upper half of the product of x's head and the reciprocal. */
  function Digit(x: nat, r: nat): nat { x / TWO32 * r / TWO32 }

  lemma HeadDigit(x: nat, r: nat)
    ensures var z := Digit(x, r); z * TWO64 <= x * r <= z * TWO64 + TWO64 + r * TWO32
  {
    DivBounds(x, TWO32);
    DivBounds(x / TWO32 * r, TWO32);
    HeadProduct(r, x, x / TWO32, Digit(x, r));
  }

  lemma HeadProduct(r: nat, x: nat, h: nat, z: nat)
    requires h * TWO32 <= x < h * TWO32 + TWO32 && z * TWO32 <= h * r < z * TWO32 + TWO32
    ensures z * TWO64 <= x * r <= z * TWO64 + TWO64 + r * TWO32
  {
    MulLe(h * TWO32, x, r);
    MulLe(x, h * TWO32 + TWO32, r);
    assert h * TWO32 * r == h * r * TWO32;
    assert (h * TWO32 + TWO32) * r == h * r * TWO32 + r * TWO32;
  }

  lemma DigitTimesDivisor(sb: nat, r: nat, x: nat, z: nat)
    requires z * TWO64 <= x * r <= z * TWO64 + TWO64 + r * TWO32
    ensures z * sb * TWO64 <= r * sb * x <= z * sb * TWO64 + sb * TWO64 + r * sb * TWO32
  {
    MulLe(z * TWO64, x * r, sb);
    MulLe(x * r, z * TWO64 + TWO64 + r * TWO32, sb);
    assert x * r * sb == r * sb * x;
    assert z * TWO64 * sb == z * sb * TWO64;
    assert (z * TWO64 + TWO64 + r * TWO32) * sb == z * sb * TWO64 + sb * TWO64 + r * sb * TWO32;
  }

  lemma ReciprocalTimesHead(sb: nat, rs: nat, x: nat)
    requires x > 0 && TWO95 - 3 * sb <= rs < TWO95
    ensures x * TWO95 - 3 * (x * sb) <= rs * x < x * TWO95
  {
    MulLt(rs, TWO95, x);
    MulLe(TWO95 - 3 * sb, rs, x);
    assert (TWO95 - 3 * sb) * x == x * TWO95 - 3 * (x * sb);
  }

  /** One digit: what remains of x * 2^31 is positive and below the stated bound. */
  lemma QuotientDigit(sb: nat, r: nat, x: nat)
    requires 0 < x && Reciprocal(sb, r)
    ensures var t := x * TWO31 - Digit(x, r) * sb;
            0 < t && t * TWO64 < 3 * (x * sb) + TWO127 + sb * TWO64
  {
    var z := Digit(x, r);
    HeadDigit(x, r);
    DigitTimesDivisor(sb, r, x, z);
    ReciprocalTimesHead(sb, r * sb, x);
    DigitBound(x, x * sb, z * sb, r * sb * x, sb, r * sb);
  }

  lemma DigitBound(x: nat, xs: nat, zs: nat, rsx: nat, sb: nat, rs: nat)
    requires zs * TWO64 <= rsx <= zs * TWO64 + sb * TWO64 + rs * TWO32 && rs < TWO95
    requires x * TWO95 - 3 * xs <= rsx < x * TWO95
    ensures zs < x * TWO31 && (x * TWO31 - zs) * TWO64 < 3 * xs + TWO127 + sb * TWO64
  {
  }

  /** The first remainder stays below 9/16 of a word: it fits unsigned, though not always signed. */
  lemma FirstDigit(sa: nat, sb: nat, r: nat)
    requires Aligned(sa, sb) && Reciprocal(sb, r)
    ensures var t := sa * TWO31 - Digit(sa, r) * sb; 0 < t < 4 * sb + TWO63
    ensures Digit(sa, r) < TWO31
  {
    QuotientDigit(sb, r, sa);
    MulLt(sa, TWO64, sb);
    MulLt(sa, sb, TWO31);
    MulLtCancel(Digit(sa, r), TWO31, sb);
  }

  /** The reciprocal as the routine reduces it. */
  ghost function Reduced(sb: nat): nat
    requires TWO63 <= sb < TWO64
  {
    ReducedRecip(sb);
    ApproxRecip32(sb / TWO32) - 2
  }

  /** Eight times the remainder that the first quotient digit leaves. */
  ghost function FirstRemainder(sa: nat, sb: nat): int
    requires Aligned(sa, sb)
  {
    sa * TWO31 - Digit(sa, Reduced(sb)) * sb
  }

  /** What the first digit drops: the reciprocal's error, the dividend's low word, and the low word of
      the product. */
  ghost function Dropped(sa: nat, sb: nat): int
    requires Aligned(sa, sb)
  {
    var r := Reduced(sb);
    sa * (TWO95 - r * sb) + sb * (sa % TWO32 * r + sa / TWO32 * r % TWO32 * TWO32)
  }

  /** The first remainder fits in a signed word exactly when less than 2^130 is dropped. */
  lemma FirstRemainderFitsIff(sa: nat, sb: nat)
    requires Aligned(sa, sb)
    ensures FirstRemainder(sa, sb) * TWO64 == Dropped(sa, sb)
    ensures FirstRemainder(sa, sb) < 8 * TWO63 <==> Dropped(sa, sb) < 4 * TWO128
  {
    var r, h := Reduced(sb), sa / TWO32;
    DivBounds(sa, TWO32);
    DivBounds(h * r, TWO32);
    DroppedParts(sa, sb, r, h, sa % TWO32, Digit(sa, r), h * r % TWO32);
  }

  lemma DroppedParts(sa: nat, sb: nat, r: nat, h: nat, low: nat, z: nat, rho: nat)
    requires sa == h * TWO32 + low && h * r == z * TWO32 + rho
    ensures (sa * TWO31 - z * sb) * TWO64 == sa * (TWO95 - r * sb) + sb * (low * r + rho * TWO32)
  {
    Distribute(h * TWO32, low, r);
    assert h * TWO32 * r == h * r * TWO32;
    assert sa * r == z * TWO64 + rho * TWO32 + low * r;
    assert sa * (r * sb) == sa * r * sb;
    Distribute(z * TWO64, rho * TWO32 + low * r, sb);
    assert z * TWO64 * sb == z * sb * TWO64;
    assert sb * (low * r + rho * TWO32) == (rho * TWO32 + low * r) * sb;
    assert sa * (TWO95 - r * sb) == sa * TWO95 - sa * (r * sb);
  }

  /** A test on the operands alone that is enough for it. */
  predicate SmallOperands(sa: nat, sb: nat, limit: nat) { 3 * (sa * sb) + sb * TWO64 <= limit }

  lemma FirstRemainderFits(sa: nat, sb: nat)
    requires Aligned(sa, sb) && (SmallOperands(sa, sb, 7 * TWO127) || sb <= 0xE000_0000_0000_0000)
    ensures FirstRemainder(sa, sb) < 8 * TWO63
  {
    ReducedRecip(sb);
    QuotientDigit(sb, Reduced(sb), sa);
    FirstDigit(sa, sb, Reduced(sb));
  }

  /** That test is sharp: with its limit raised by one part in 2^14 it lets through significands whose
      first remainder has its top bit set. */
  lemma FirstRemainderNeedsAllBits()
    ensures exists sigA: nat, sigB: nat ::
              && 0x10_0000_0000_0000 <= sigA < sigB < 0x20_0000_0000_0000
              && Aligned(sigA * 0x800, sigB * 0x800)
              && SmallOperands(sigA * 0x800, sigB * 0x800, 7 * TWO127 + 7 * TWO127 / 0x4000)
              && FirstRemainder(sigA * 0x800, sigB * 0x800) >= 8 * TWO63
  {
    var sigA: nat, sigB: nat := 0x1DA3FC319FFFFF, 0x1DA3FC62E00000;
    var sa, sb := sigA * 0x800, sigB * 0x800;
    DivIs(sb, TWO32, 0xED1FE317);
    DivIs(0x7FFF_FFFF_FFFF_FFFF, 0xED1FE317, 0x8A3060BC);
    DivIs(sa, TWO32, 0xED1FE18C);
    DivIs(0xED1FE18C * 0x8A3060BA, TWO32, 0x7FFFFF27);
    assert Aligned(sa, sb) && FirstRemainder(sa, sb) >= 8 * TWO63;
  }

  lemma SecondDigit(rem: nat, sb: nat, r: nat)
    requires TWO63 <= sb < TWO64 && 0 < rem && 8 * rem < 4 * sb + TWO63
    requires Reciprocal(sb, r)
    ensures var u := rem * TWO31 - Digit(rem, r) * sb; 0 < u < 4 * sb
    ensures Digit(rem, r) <= 0x5800_0000
  {
    QuotientDigit(sb, r, rem);
    MulLe(rem, 0x9000_0000_0000_0000, sb);
    SmallDigit(rem, sb, Digit(rem, r));
  }

  lemma SmallDigit(rem: nat, sb: nat, q0: nat)
    requires TWO63 <= sb && 8 * rem < 4 * sb + TWO63 && q0 * sb < rem * TWO31
    ensures q0 <= 0x5800_0000
  {
    if q0 > 0x5800_0000 { MulLe(0x5800_0001, q0, sb); }
  }

  /** The exact remainder that a digit q leaves, in the units of the machine word. */
  ghost function Exact(x: nat, q: nat, sb: nat): int { (x * TWO31 - q * sb) / 8 }

  /** It is computed modulo 2^64 from 32-bit halves, nothing below the units being lost. */
  method Rest(x: U64, q: U32, sb: U64) returns (rem: U64)
    requires q < TWO31 && sb % 16 == 0
    ensures rem == Wrap64(Exact(x, q, sb)) && 8 * Exact(x, q, sb) == x * TWO31 - q * sb
  {
    var doubleTerm := Wrap32(q * 2);
    var upper, lower := doubleTerm * (sb / TWO32), doubleTerm * (sb % TWO32 / 16);
    rem := Wrap64(Wrap64(Wrap64(x - upper) * 0x1000_0000) - lower);
    WrapScaled(x - upper, 0x1000_0000, lower);
    ghost var e := (x - upper) * 0x1000_0000 - lower;
    Pieces(sb);
    Eighth(x, q, sb, sb / TWO32, sb % TWO32 / 16, e);
  }

  lemma Pieces(sb: U64)
    requires sb % 16 == 0
    ensures sb == sb / TWO32 * TWO32 + sb % TWO32 / 16 * 16
  {
  }

  lemma WrapScaled(u: int, p: nat, v: int)
    ensures Wrap64(Wrap64(Wrap64(u) * p) - v) == Wrap64(u * p - v)
  {
    DivBounds(u, TWO64);
    assert u * p == Wrap64(u) * p + u / TWO64 * p * TWO64 by {
      assert (Wrap64(u) + u / TWO64 * TWO64) * p == Wrap64(u) * p + u / TWO64 * p * TWO64;
    }
    ModShift(Wrap64(u) * p - v, u / TWO64 * p, TWO64);
    var w := Wrap64(u) * p;
    DivBounds(w, TWO64);
    ModShift(w % TWO64 - v, w / TWO64, TWO64);
  }

  lemma Eighth(x: nat, q: nat, sb: nat, hi: nat, lo: nat, e: int)
    requires sb == hi * TWO32 + lo * 16
    requires e == (x - 2 * q * hi) * 0x1000_0000 - 2 * q * lo
    ensures 8 * e == x * TWO31 - q * sb
  {
    assert q * sb == q * hi * TWO32 + q * lo * 16;
  }

  const TWO62: nat := 0x4000_0000_0000_0000

  /** A faithful significand of a quotient in [1/2, 1) fills 63 bits exactly. */
  lemma FaithfulRange(sa: nat, sb: nat, sigZ: int)
    requires 0 < sb && sa < sb <= 2 * sa && Faithful(0x200, sigZ, sa * TWO63, sb)
    ensures TWO62 <= sigZ < TWO63
  {
    assert ComparesAlike(0x200 * 0x20_0000_0000_0000, sigZ, sa * TWO63, sb);
    assert ComparesAlike(0x200 * 0x40_0000_0000_0000, sigZ, sa * TWO63, sb);
  }

  /** The significand that two digits make. */
  function Join(z: nat, q: nat): nat { z * TWO32 + 16 * q }

  /** Two digits make a quotient that is too large by less than 64. */
  lemma TwoDigits(sa: nat, sb: nat, z: nat, rem: nat, q: nat)
    requires sa * TWO31 - z * sb == 8 * rem
    ensures Join(z, q) * sb - sa * TWO63 == 16 * (q * sb - rem * TWO31)
  {
    assert (z * TWO32 + 16 * q) * sb == z * sb * TWO32 + 16 * (q * sb);
  }

  /** Far enough from a multiple of 512, an excess below 64 cannot matter. */
  lemma AwayFromBoundary(sigZ: nat, num: int, sb: nat)
    requires sb > 0 && sigZ % 0x200 >= 64 && 0 < sigZ * sb - num < 64 * sb
    ensures Faithful(0x200, sigZ, num, sb)
  {
    var M := sigZ - sigZ % 0x200;
    MulLe(M, sigZ - 64, sb);
    MulLe(sigZ, M + 0x200, sb);
    assert (sigZ - 64) * sb == sigZ * sb - 64 * sb;
    FaithfulBetween(0x200, M, sigZ, num, sb);
  }

  /** Near a boundary M the sign of the exact remainder decides the side. */
  lemma AtBoundary(M: nat, e: int, num: int, sb: nat, sigZ: int)
    requires sb > 0 && M % 0x200 == 0 && num == M * sb + 128 * e && 0 < 2 * e + sb && 2 * e < sb
    requires sigZ == if e < 0 then M - 128 else if e == 0 then M else M + 1
    ensures Faithful(0x200, sigZ, num, sb)
  {
    assert (M - 0x200) * sb == M * sb - 0x200 * sb;
    assert (M + 0x200) * sb == M * sb + 0x200 * sb;
    if e < 0 {
      FaithfulBetween(0x200, M - 0x200, sigZ, num, sb);
    } else if e == 0 {
      FaithfulAt(0x200, sigZ, num, sb);
    } else {
      FaithfulBetween(0x200, M, sigZ, num, sb);
    }
  }

  /** Lowering the second digit by less than four leaves a remainder that fits in a signed word. */
  lemma NearRemainder(rem: nat, sb: nat, q: nat, down: nat, e: int)
    requires down <= q <= down + 3 && 8 * e == rem * TWO31 - down * sb
    requires 0 < q * sb - rem * TWO31 < 4 * sb
    ensures 0 < 2 * e + sb && 2 * e < sb
  {
    MulLe(q - down, 3, sb);
    MulLe(0, q - down, sb);
    Distribute(down, q - down, sb);
  }

  /** The correction: the sign of the remainder that the lowered digit leaves. */
  method Settle(rem: U64, ghost q: U32, down: U32, z: U32, sb: U64) returns (sigZ: U64)
    requires TWO63 <= sb && sb % 16 == 0 && q < TWO31 && 0 < z < TWO31
    requires down <= q <= down + 3 && 0 < q * sb - rem * TWO31 < 4 * sb
    ensures var e := Exact(rem, down, sb); 8 * e == rem * TWO31 - down * sb && 0 < 2 * e + sb && 2 * e < sb
    ensures var M, e := Join(z, down), Exact(rem, down, sb);
            sigZ == if e < 0 then M - 128 else if e == 0 then M else M + 1
  {
    var rem' := Rest(rem, down, sb);
    ghost var e := Exact(rem, down, sb);
    NearRemainder(rem, sb, q, down, e);
    sigZ := BySign(Join(z, down), rem', e);
  }

  method BySign(M: U64, rem: U64, ghost e: int) returns (sigZ: U64)
    requires 128 <= M < TWO64 - 1 && rem == Wrap64(e) && e + TWO63 >= 0 && e < TWO63
    ensures sigZ == if e < 0 then M - 128 else if e == 0 then M else M + 1
  {
    sigZ := M;
    if rem >= TWO63 {
      sigZ := sigZ - 128;
    } else if rem != 0 {
      sigZ := sigZ + 1;
    }
  }

  lemma Settled(rem: nat, q: nat, z: nat, sb: nat, down: nat, e: int, num: int)
    requires down <= q && 8 * e == rem * TWO31 - down * sb
    requires Join(z, q) * sb - num == 16 * (q * sb - rem * TWO31)
    ensures num == Join(z, down) * sb + 128 * e
  {
    assert (z * TWO32 + 16 * q) * sb == z * TWO32 * sb + 16 * (q * sb);
    assert (z * TWO32 + down * 16) * sb == z * TWO32 * sb + 16 * (down * sb);
  }

  lemma NearBoundary(z: nat, q: nat)
    requires Join(z, q) % 0x200 < 64
    ensures q % 8 < 4 && Join(z, q - q % 8) % 0x200 == 0
  {
    var k, low := z * 0x80_0000 + q / 32, q % 32;
    DivBounds(q, 32);
    assert Join(z, q) == k * 0x200 + 16 * low;
    ModIs(Join(z, q), 0x200, k, 16 * low);
    ModIs(q, 8, q / 32 * 4, low);
    ModIs(Join(z, q - q % 8), 0x200, k, 0);
  }

  /** The two digits, the second one rounded up by four. */
  method Digits(sa: U64, sb: U64) returns (z: U32, rem: U64, q: U32)
    requires Aligned(sa, sb)
    ensures 0 < z < TWO31 && q < TWO31 && sa * TWO31 - z * sb == 8 * rem
    ensures 0 < q * sb - rem * TWO31 < 4 * sb
  {
    ReducedRecip(sb);
    var recip32 := ApproxRecip32(sb / TWO32) - 2;
    z, rem := FirstOf(sa, sb, recip32);
    q := SecondOf(rem, sb, recip32);
  }

  method FirstOf(sa: U64, sb: U64, recip32: U32) returns (z: U32, rem: U64)
    requires Aligned(sa, sb) && Reciprocal(sb, recip32)
    ensures 0 < z < TWO31 && sa * TWO31 - z * sb == 8 * rem && 0 < 8 * rem < 4 * sb + TWO63
  {
    FirstDigit(sa, sb, recip32);
    z := Digit(sa, recip32);
    if z == 0 {
      assert false;
    }
    rem := Rest(sa, z, sb);
  }

  method SecondOf(rem: U64, sb: U64, recip32: U32) returns (q: U32)
    requires TWO63 <= sb && 0 < 8 * rem < 4 * sb + TWO63 && Reciprocal(sb, recip32)
    ensures q < TWO31 && 0 < q * sb - rem * TWO31 < 4 * sb
  {
    SecondDigit(rem, sb, recip32);
    q := Digit(rem, recip32) + 4;
    Distribute(Digit(rem, recip32), 4, sb);
  }

  /** What is done when the quotient lies just above a multiple of 512. */
  method Correct(rem: U64, q: U32, z: U32, sb: U64, ghost num: int) returns (sigZ: U64)
    requires TWO63 <= sb && sb % 16 == 0 && q < TWO31 && 0 < z < TWO31
    requires 0 < q * sb - rem * TWO31 < 4 * sb && Join(z, q) % 0x200 < 64
    requires Join(z, q) * sb - num == 16 * (q * sb - rem * TWO31)
    ensures Faithful(0x200, sigZ, num, sb)
  {
    NearBoundary(z, q);
    var down := q - q % 8;
    sigZ := Settle(rem, q, down, z, sb);
    ghost var e := Exact(rem, down, sb);
    Settled(rem, q, z, sb, down, e, num);
    AtBoundary(Join(z, down), e, num, sb, sigZ);
  }

  /** From aligned significands to the quotient's: no rounding to 53 bits or fewer, and no test
      for exactness, can tell it from the true quotient. */
  method Quotient(sa: U64, sb: U64) returns (sigZ: U64)
    requires Aligned(sa, sb)
    ensures TWO62 <= sigZ < TWO63 && Faithful(0x200, sigZ, sa * TWO63, sb)
  {
    var sig32Z, rem, q := Digits(sa, sb);
    TwoDigits(sa, sb, sig32Z, rem, q);
    sigZ := Join(sig32Z, q);
    ghost var num := sa * TWO63;
    if sigZ % 0x200 < 64 {
      sigZ := Correct(rem, q, sig32Z, sb, num);
    } else {
      AwayFromBoundary(sigZ, num, sb);
    }
    FaithfulRange(sa, sb, sigZ);
  }
}

/** f64_div as a whole: the correctly rounded quotient, with its exceptions. */
module F64Div {
  import opened Arith
  import opened Words
  import opened Floats
  import opened Formats
  import opened Sticky
  import opened Rounding
  import opened RoundPack
  import opened Operations
  import opened WordResults
  import opened WordForms
  import F64DivSignificand

  const HIDDEN: nat := 0x10_0000_0000_0000

  /** Aligns the significands so that their quotient lies in [1/2, 1), and divides. */
  method DivideSignificands(sigA: U64, sigB: U64, expDiff: int) returns (expZ: int, sigZ: U64, ghost t: nat)
    requires HIDDEN <= sigA < 2 * HIDDEN && HIDDEN <= sigB < 2 * HIDDEN
    ensures HIDDEN * 0x400 <= sigZ < 2 * HIDDEN * 0x400
    ensures t + expZ == expDiff + 1084 && Faithful(0x200, sigZ, sigA * Pow2(t), sigB)
  {
    expZ := expDiff + 0x3FE;
    var sa: U64;
    if sigA < sigB {
      expZ := expZ - 1;
      sa := sigA * 0x800;
      t := 63;
    } else {
      sa := sigA * 0x400;
      t := 62;
    }
    MultipleOf16(sigB);
    sigZ := F64DivSignificand.Quotient(sa, sigB * 0x800);
    Pow2Of63();
    FaithfulRescale(0x200, sigZ, sa * TWO63, sigB * 0x800, sigA * Pow2(t), sigB, 1, 0x800);
  }

  lemma MultipleOf16(x: nat)
    ensures x * 0x800 % 16 == 0
  {
    assert x * 0x800 == 16 * (x * 0x80);
  }

  lemma Pow2Of63()
    ensures Pow2(62) == 0x4000_0000_0000_0000 && Pow2(63) == TWO63
  {
    Pow2Of64();
    assert Pow2(64) == 2 * Pow2(63);
    assert Pow2(63) == 2 * Pow2(62);
  }

  method FiniteDiv(mode: Mode, before: bool, a: Fields, b: Fields) returns (z: Packed)
    requires IsKind(Double) && a.frac < Pow2(52) && b.frac < Pow2(52) && IsFiniteNonzero(0x7FF, a)
             && IsFiniteNonzero(0x7FF, b)
    ensures QuotientRounded(Double, mode, before, a, b, z)
  {
    ZeroMagnitude(52, a);
    ZeroMagnitude(52, b);
    var na, nb := Normalise(52, 64, a), Normalise(52, 64, b);
    ghost var va, vb := Magnitude(52, a), Magnitude(52, b);
    var expZ, sigZ;
    ghost var t;
    expZ, sigZ, t := DivideSignificands(na.sig, nb.sig, na.exp - nb.exp);
    QuotientStandsIn(Double, na, nb, va, vb, t, expZ, sigZ);
    z := RoundPack.RoundPack(F64, mode, before, a.sign != b.sign, expZ, sigZ, va * Pow2(1074), vb);
  }

  method Answered(mode: Mode, before: bool, uiA: U64, uiB: U64) returns (z: Answer)
    ensures IsKind(Double) && DivideCorrect(Double, mode, before, Fields64(uiA), Fields64(uiB), z)
  {
    DoubleIsKind();
    var a, b := Fields64(uiA), Fields64(uiB);
    var special;
    special, z := DivideSpecial(Double, mode, before, a, b);
    if !special {
      var packed := FiniteDiv(mode, before, a, b);
      z := Finite(packed);
    }
  }

  /** The word returned and the exceptions raised, for every pair of words. */
  method Div(mode: Mode, before: bool, uiA: U64, uiB: U64) returns (z: Returned)
    ensures IsQuotient(Layout(0x10_0000_0000_0000, 0x7FF, 0x3FF0_0000_0000_0000, 0x7FF0_0000_0000_0000,
                              0x8000_0000_0000_0000),
                       mode, before, uiA, uiB, z)
  {
    var answer := Answered(mode, before, uiA, uiB);
    z := ReturnQuotient64(mode, before, uiA, uiB, answer);
  }
}
