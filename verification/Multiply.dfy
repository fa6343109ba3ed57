/** The significand part of f64_mul, in both word layouts. */
module F64MulSignificand {
  import opened Arith
  import opened Words
  import opened Words128
  import opened Sticky
  import opened RoundPack

  lemma SetLastIsJam(w: U128)
    ensures Jam(Value(w), TWO64) == SetLast(w.v64, w.v0 != 0)
  {
    ModIs(Value(w), TWO64, w.v64, w.v0);
  }

  /** The product as a two-word value. */
  method UpperFast(a: U64, b: U64) returns (sigZ: U64)
    ensures sigZ == Jam(a * b, TWO64)
  {
    var sig128Z := Mul64To128(a, b);
    sigZ := SetLast(sig128Z.v64, sig128Z.v0 != 0);
    SetLastIsJam(sig128Z);
  }

  /** The product from 32-bit halves, as its upper and lower 64 bits. */
  method Mul64ByHalves(a: U64, b: U64) returns (z64: U64, z0: U64)
    ensures z64 * TWO64 + z0 == a * b
  {
    var a32, a0, b32, b0 := a / TWO32, a % TWO32, b / TWO32, b % TWO32;
    SmallProduct(a32, b0);
    SmallProduct(a0, b32);
    SmallProduct(a0, b0);
    Halves(a, b, a32, a0, b32, b0);
    var high;
    high, z0 := AddMiddle(a0 * b0, a32 * b0, a0 * b32);
    z64 := UpperHalf(a, b, a32 * b32 + high, z0);
  }

  lemma FourWords(z64: U64, z0: U64)
    ensures z64 / TWO32 < TWO32 && z0 / TWO32 < TWO32
    ensures (z64 / TWO32) * 0x1_0000_0000_0000_0000_0000_0000 + (z64 % TWO32) * TWO64
         == z64 * TWO64
    ensures (z0 / TWO32) * TWO32 + z0 % TWO32 == z0
  {
  }

  /** The product written as four 32-bit words, least significant first. */
  method Mul64To128M(a: U64, b: U64, z: array<U32>)
    requires z.Length == 4
    modifies z
    ensures z[3] * 0x1_0000_0000_0000_0000_0000_0000 + z[2] * TWO64 + z[1] * TWO32 + z[0] == a * b
  {
    var z64, z0 := Mul64ByHalves(a, b);
    FourWords(z64, z0);
    z[1] := z0 / TWO32;
    z[0] := z0 % TWO32;
    z[3] := z64 / TWO32;
    z[2] := z64 % TWO32;
  }

  /** The upper half of a product fits in a word. */
  method UpperHalf(a: U64, b: U64, high: nat, low: U64) returns (z64: U64)
    requires high * TWO64 + low == a * b
    ensures z64 == high
  {
    MulLe(a, TWO64 - 1, b);
    z64 := high;
  }

  method UpperWords(a: U64, b: U64) returns (sigZ: U64)
    ensures sigZ == Jam(a * b, TWO64)
  {
    var sig128Z := new U32[4];
    Mul64To128M(a, b, sig128Z);
    sigZ := sig128Z[3] * TWO32 + sig128Z[2];
    SetLastIsJam(U128(sigZ, sig128Z[1] * TWO32 + sig128Z[0]));
    if sig128Z[1] != 0 || sig128Z[0] != 0 {
      sigZ := SetLast(sigZ, true);
    }
  }

  /** A jammed upper half is faithful on even numbers. */
  lemma JamIsFaithful(P: nat, d: nat)
    requires d > 0
    ensures Faithful(2, Jam(P, d), P, d)
  {
    forall m: int ensures ComparesAlike(2 * m, Jam(P, d), P, d) {
      JamComparesAlike(P, d, m);
    }
  }

  lemma JamComparesAlike(P: nat, d: nat, m: int)
    requires d > 0
    ensures ComparesAlike(2 * m, Jam(P, d), P, d)
  {
    JamCompares(P, d, 2 * m);
  }

  /** The renormalising shift keeps the sticky bit's meaning. */
  lemma Renormalised(P: nat, d: nat, h: nat, sig: nat)
    requires d > 0 && h % 4 == 0 && h * d <= P < 4 * (h * d) && sig == Jam(P, 2 * d)
    ensures h <= 2 * sig && sig < 2 * h
    ensures Faithful(4, 2 * sig, P, d) && Faithful(4, sig, P, 2 * d)
  {
    JamIsFaithful(P, 2 * d);
    FaithfulCoarser(2, 2, sig, P, 2 * d);
    FaithfulDouble(2, sig, P, d);
    RenormalisedRange(P, d, h, sig);
  }

  lemma RenormalisedRange(P: nat, d: nat, h: nat, sig: nat)
    requires d > 0 && h % 4 == 0 && h * d <= P < 4 * (h * d) && sig == Jam(P, 2 * d)
    ensures h <= 2 * sig && sig < 2 * h
  {
    Halve(h, d);
    JamCompares(P, 2 * d, 2 * h);
    JamCompares(P, 2 * d, h / 2);
  }

  lemma Halve(h: nat, d: nat)
    requires h % 2 == 0
    ensures h / 2 * (2 * d) == h * d && 2 * h * (2 * d) == 4 * (h * d)
  {
    assert h == 2 * (h / 2);
  }
}

/** f64_mul as a whole: the correctly rounded product, with its exceptions. */
module F64Mul {
  import opened Arith
  import opened Words
  import opened Floats
  import opened Formats
  import opened Sticky
  import opened Rounding
  import opened RoundPack
  import opened Operations
  import opened WordResults
  import opened WordForms
  import opened F64MulSignificand

  const HIDDEN: nat := 0x10_0000_0000_0000
  const TWO62: nat := 0x4000_0000_0000_0000

  lemma ProductRange(sigA: nat, sigB: nat)
    requires HIDDEN <= sigA < 2 * HIDDEN && HIDDEN <= sigB < 2 * HIDDEN
    ensures sigA * 0x400 * (sigB * 0x800) == sigA * sigB * 0x20_0000
    ensures TWO62 * TWO63 <= sigA * sigB * 0x20_0000 < 4 * (TWO62 * TWO63)
  {
    assert sigA * 0x400 * (sigB * 0x800) == sigA * sigB * 0x20_0000;
    MulLe(HIDDEN, sigA, sigB);
    MulLt(sigA, 2 * HIDDEN, sigB);
  }

  /** The significand: normalised, and comparing with every multiple of 4 as the product does. */
  method MultiplySignificands(sigA: U64, sigB: U64, expSum: int, fastInt64: bool)
      returns (expZ: int, sigZ: U64, ghost t: nat)
    requires HIDDEN <= sigA < 2 * HIDDEN && HIDDEN <= sigB < 2 * HIDDEN
    ensures TWO62 <= sigZ < TWO63
    ensures expZ - t == expSum - 1066 && Faithful(4, sigZ, sigA * sigB, Pow2(t))
  {
    expZ := expSum - 0x3FF;
    ProductRange(sigA, sigB);
    if fastInt64 {
      sigZ := UpperFast(sigA * 0x400, sigB * 0x800);
    } else {
      sigZ := UpperWords(sigA * 0x400, sigB * 0x800);
    }
    ghost var P := sigA * sigB * 0x20_0000;
    Renormalised(P, TWO63, TWO62, sigZ);
    Pow2Of43();
    t := 43;
    if sigZ < TWO62 {
      expZ := expZ - 1;
      t := 42;
      FaithfulRescale(4, 2 * sigZ, P, TWO63, sigA * sigB, Pow2(42), 1, 0x20_0000);
      sigZ := sigZ * 2;
    } else {
      FaithfulRescale(4, sigZ, P, TWO64, sigA * sigB, Pow2(43), 1, 0x20_0000);
    }
  }

  lemma Pow2Of43()
    ensures Pow2(42) == 0x400_0000_0000 && Pow2(43) == 0x800_0000_0000
  {
    Pow2Of32();
    Pow2Add(10, 32);
    assert Pow2(10) == 0x400;
    assert Pow2(43) == 2 * Pow2(42);
  }

  method FiniteMul(mode: Mode, before: bool, a: Fields, b: Fields, fastInt64: bool) returns (z: Packed)
    requires IsKind(Double) && a.frac < Pow2(52) && b.frac < Pow2(52) && IsFiniteNonzero(0x7FF, a)
             && IsFiniteNonzero(0x7FF, b)
    ensures ProductRounded(Double, mode, before, a, b, z)
  {
    ZeroMagnitude(52, a);
    ZeroMagnitude(52, b);
    var na, nb := Normalise(52, 64, a), Normalise(52, 64, b);
    ghost var va, vb := Magnitude(52, a), Magnitude(52, b);
    var expZ, sigZ;
    ghost var t;
    expZ, sigZ, t := MultiplySignificands(na.sig, nb.sig, na.exp + nb.exp, fastInt64);
    FaithfulCoarser(4, 0x80, sigZ, na.sig * nb.sig, Pow2(t));
    ProductStandsIn(Double, na, nb, va, vb, t, expZ, sigZ);
    z := RoundPack.RoundPack(F64, mode, before, a.sign != b.sign, expZ, sigZ, va * vb, Pow2(1074));
  }

  method Answered(mode: Mode, before: bool, uiA: U64, uiB: U64, fastInt64: bool) returns (z: Answer)
    ensures IsKind(Double) && MultiplyCorrect(Double, mode, before, Fields64(uiA), Fields64(uiB), z)
  {
    DoubleIsKind();
    var a, b := Fields64(uiA), Fields64(uiB);
    var special;
    special, z := MultiplySpecial(Double, mode, before, a, b);
    if !special {
      var packed := FiniteMul(mode, before, a, b, fastInt64);
      z := Finite(packed);
    }
  }

  /** The word returned and the exceptions raised, for every pair of words. */
  method Mul(mode: Mode, before: bool, uiA: U64, uiB: U64, fastInt64: bool) returns (z: Returned)
    ensures IsProduct(Layout(0x10_0000_0000_0000, 0x7FF, 0x3FF0_0000_0000_0000, 0x7FF0_0000_0000_0000,
                             0x8000_0000_0000_0000),
                      mode, before, uiA, uiB, z)
  {
    var answer := Answered(mode, before, uiA, uiB, fastInt64);
    z := ReturnProduct64(mode, before, uiA, uiB, answer);
  }
}

/** f32_mul as a whole. */
module F32Mul {
  import opened Arith
  import opened Words
  import opened Floats
  import opened Formats
  import opened Sticky
  import opened Rounding
  import opened RoundPack
  import opened Operations
  import opened WordResults
  import opened WordForms
  import opened F64MulSignificand

  const HIDDEN: nat := 0x80_0000

  lemma ProductRange(sigA: nat, sigB: nat)
    requires HIDDEN <= sigA < 2 * HIDDEN && HIDDEN <= sigB < 2 * HIDDEN
    ensures sigA * 0x80 * (sigB * 0x100) == sigA * sigB * 0x8000
    ensures 0x4000_0000 * TWO31 <= sigA * sigB * 0x8000 < 4 * (0x4000_0000 * TWO31)
  {
    assert sigA * 0x80 * (sigB * 0x100) == sigA * sigB * 0x8000;
    MulLe(HIDDEN, sigA, sigB);
    MulLt(sigA, 2 * HIDDEN, sigB);
  }

  method MultiplySignificands(sigA: U32, sigB: U32, expSum: int) returns (expZ: int, sigZ: U64, ghost t: nat)
    requires HIDDEN <= sigA < 2 * HIDDEN && HIDDEN <= sigB < 2 * HIDDEN
    ensures 0x4000_0000 <= sigZ < TWO31
    ensures expZ - t == expSum - 144 && Faithful(4, sigZ, sigA * sigB, Pow2(t))
  {
    expZ := expSum - 0x7F;
    ProductRange(sigA, sigB);
    ghost var P := sigA * sigB * 0x8000;
    sigZ := JamUpper(sigA * 0x80 * (sigB * 0x100));
    Renormalised(P, TWO31, 0x4000_0000, sigZ);
    Pow2Of17();
    t := 17;
    if sigZ < 0x4000_0000 {
      expZ := expZ - 1;
      t := 16;
      FaithfulRescale(4, 2 * sigZ, P, TWO31, sigA * sigB, Pow2(16), 1, 0x8000);
      sigZ := sigZ * 2;
    } else {
      FaithfulRescale(4, sigZ, P, TWO32, sigA * sigB, Pow2(17), 1, 0x8000);
    }
  }

  method JamUpper(P: U64) returns (sigZ: U64)
    ensures sigZ == Jam(P, TWO32) && sigZ <= TWO32
  {
    sigZ := SetLast(P / TWO32, P % TWO32 != 0);
  }

  lemma Pow2Of17()
    ensures Pow2(16) == 0x1_0000 && Pow2(17) == 0x2_0000
  {
    assert Pow2(8) == 0x100;
    assert Pow2(16) == 0x1_0000;
  }

  method FiniteMul(mode: Mode, before: bool, a: Fields, b: Fields) returns (z: Packed)
    requires IsKind(Single) && a.frac < Pow2(23) && b.frac < Pow2(23) && IsFiniteNonzero(0xFF, a)
             && IsFiniteNonzero(0xFF, b)
    ensures ProductRounded(Single, mode, before, a, b, z)
  {
    ZeroMagnitude(23, a);
    ZeroMagnitude(23, b);
    var na, nb := Normalise(23, 32, a), Normalise(23, 32, b);
    ghost var va, vb := Magnitude(23, a), Magnitude(23, b);
    var expZ, sigZ;
    ghost var t;
    expZ, sigZ, t := MultiplySignificands(na.sig, nb.sig, na.exp + nb.exp);
    FaithfulCoarser(4, 0x10, sigZ, na.sig * nb.sig, Pow2(t));
    ProductStandsIn(Single, na, nb, va, vb, t, expZ, sigZ);
    z := RoundPack.RoundPack(F32, mode, before, a.sign != b.sign, expZ, sigZ, va * vb, Pow2(149));
  }

  method Answered(mode: Mode, before: bool, uiA: U32, uiB: U32) returns (z: Answer)
    ensures IsKind(Single) && MultiplyCorrect(Single, mode, before, Fields32(uiA), Fields32(uiB), z)
  {
    SingleIsKind();
    var a, b := Fields32(uiA), Fields32(uiB);
    var special;
    special, z := MultiplySpecial(Single, mode, before, a, b);
    if !special {
      var packed := FiniteMul(mode, before, a, b);
      z := Finite(packed);
    }
  }

  /** The word returned and the exceptions raised, for every pair of words. */
  method Mul(mode: Mode, before: bool, uiA: U32, uiB: U32) returns (z: Returned)
    ensures IsProduct(Layout(0x80_0000, 0xFF, 0x3F80_0000, 0x7F80_0000, 0x8000_0000),
                      mode, before, uiA, uiB, z)
  {
    var answer := Answered(mode, before, uiA, uiB);
    z := ReturnProduct32(mode, before, uiA, uiB, answer);
  }
}
