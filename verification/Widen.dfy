/** f32_to_f64: every single-precision number is a double-precision one. */
module F32ToF64 {
  import opened Arith
  import opened Words
  import opened Floats
  import opened Formats
  import opened Encoding
  import opened RoundInt
  import opened Compare

  /** The encoding delivered, and whether the invalid exception is raised. */
  datatype Widened = Widened(ui: U64, invalid: bool)

  const DEFAULT_NAN: U64 := 0x7FF8_0000_0000_0000  // positive and quiet

  /** The encodings x of format n and z of format w are the same number: the same sign, infinity for
      infinity, and otherwise magnitudes in the same proportion to the value one. */
  ghost predicate SameNumber(n: Binary, w: Binary, x: nat, z: nat)
    requires n.hidden > 0 && w.hidden > 0 && n.bias > 0 && w.bias > 0
  {
    var u, v := Unsigned(n, x), Unsigned(w, z);
    && (Negative(n, x) <==> Negative(w, z))
    && if u >= n.top * n.hidden then u == n.top * n.hidden && v == w.top * w.hidden
       else v < w.top * w.hidden
            && EncodedValue(w.hidden, v) * One(n.hidden, n.bias) == EncodedValue(n.hidden, u) * One(w.hidden, w.bias)
  }

  const HIDDEN32: nat := 0x80_0000
  const HIDDEN64: nat := 0x10_0000_0000_0000

  function SignBit(negative: bool): U64 { if negative then TWO63 else 0 }

  /** The sum of a shifted exponent and a significand, with or without its hidden bit. */
  method Pack(negative: bool, exp: nat, sig: nat) returns (ui: U64)
    requires exp * HIDDEN64 + sig <= 0x7FF * HIDDEN64
    ensures Negative(Binary64, ui) == negative && Unsigned(Binary64, ui) == exp * HIDDEN64 + sig
  {
    ui := SignBit(negative) + exp * HIDDEN64 + sig;
  }

  /** A significand moved up 29 places, its exponent rebiased. */
  lemma Rebiased(sig: nat, e: nat, a: nat)
    requires HIDDEN32 <= sig < 2 * HIDDEN32
    ensures EncodedValue(HIDDEN64, e * HIDDEN64 + sig * 0x2000_0000) * Pow2(a) == Shl(sig, 29 + e + a)
  {
    var w := sig * 0x2000_0000;
    EncodedAt(HIDDEN64, e, w, e * HIDDEN64 + w);
    Moved(sig, e, a, EncodedValue(HIDDEN64, e * HIDDEN64 + w));
  }

  lemma Raised(v: nat, sig: nat, n: nat, f: nat, b: nat)
    requires v * Pow2(f) == sig * Pow2(n) && f <= b
    ensures v * Pow2(b) == Shl(sig, n + (b - f))
  {
    ShlSame(v, sig, f, n, b - f);
    ShlIs(v, b);
  }

  lemma Moved(sig: nat, e: nat, a: nat, v: nat)
    requires v == sig * 0x2000_0000 * Pow2(e)
    ensures v * Pow2(a) == Shl(sig, 29 + e + a)
  {
    Pow2Of29();
    ShlIs(sig, 29);
    ShlAgain(sig * 0x2000_0000, sig, 29, e);
    ShlAgain(v, sig, 29 + e, a);
  }

  lemma OneIsPower(b: Binary)
    requires IsBinary(b)
    ensures One(b.hidden, b.bias) == Pow2(b.F + b.bias - 1)
  {
    Pow2Add(b.F, b.bias - 1);
  }

  lemma OneIsPositive(b: Binary)
    requires b.hidden > 0 && b.bias > 0
    ensures One(b.hidden, b.bias) > 0
  {
    MulLt(0, b.hidden, Pow2(b.bias - 1));
  }

  lemma FieldOf(ui: U32)
    ensures var x := Fields32(ui);
            Unsigned(Binary32, ui) == x.exp * HIDDEN32 + x.frac && x.frac < HIDDEN32 && x.exp < 0x100
    ensures Fields32(ui).sign <==> Negative(Binary32, ui)
  {
  }

  lemma FiniteIs(n: Binary, w: Binary, ui: nat, z: nat, v: nat)
    requires IsBinary(n) && IsBinary(w) && Unsigned(n, ui) < n.top * n.hidden && Unsigned(w, z) < w.top * w.hidden
    requires (Negative(n, ui) <==> Negative(w, z)) && EncodedValue(n.hidden, Unsigned(n, ui)) == v
    requires EncodedValue(w.hidden, Unsigned(w, z)) * Pow2(n.F + n.bias - 1) == v * Pow2(w.F + w.bias - 1)
    ensures SameNumber(n, w, ui, z)
  {
    OneIsPower(n);
    OneIsPower(w);
  }

  /** Finite nonzero numbers, normalised. */
  method Finite(x: Fields, ghost ui: U32) returns (z: U64)
    requires x == Fields32(ui) && x.exp < 0xFF && (x.exp != 0 || x.frac != 0)
    ensures SameNumber(Binary32, Binary64, ui, z)
  {
    FieldOf(ui);
    Binary32IsBinary();
    ZeroMagnitude(23, x);
    var n := Normalise(23, 32, x);
    z := Pack(x.sign, n.exp - 1 + 0x380, n.sig * 0x2000_0000);
    FiniteNumber(x, ui, n, z);
  }

  lemma FiniteNumber(x: Fields, ui: U32, n: Normal, z: U64)
    requires x == Fields32(ui) && x.exp < 0xFF
    requires Normalised(23, n) && StandsFor(23, n, Magnitude(23, x)) && n.exp < 0xFF
    requires Negative(Binary64, z) == x.sign
             && Unsigned(Binary64, z) == (n.exp - 1 + 0x380) * HIDDEN64 + n.sig * 0x2000_0000
    ensures SameNumber(Binary32, Binary64, ui, z)
  {
    FieldOf(ui);
    Binary32IsBinary();
    Binary64IsBinary();
    RawIs(23, Unsigned(Binary32, ui), x);
    Rebiased(n.sig, n.exp + 895, 149);
    Raised(Magnitude(23, x), n.sig, n.exp + 22, 23, 1074);
    FiniteIs(Binary32, Binary64, ui, z, Magnitude(23, x));
  }

  lemma ZeroIs(n: Binary, w: Binary, x: nat, z: nat)
    requires n.hidden > 0 && w.hidden > 0 && n.bias > 0 && w.bias > 0 && n.top > 0 && w.top > 0
    requires Unsigned(n, x) == 0 && Unsigned(w, z) == 0 && (Negative(n, x) <==> Negative(w, z))
    ensures SameNumber(n, w, x, z)
  {
    EncodedSmall(n.hidden, 0);
    EncodedSmall(w.hidden, 0);
    MulLt(0, n.top, n.hidden);
    MulLt(0, w.top, w.hidden);
  }

  predicate QuietBitClear(ui: U32) { ui / 0x40_0000 % 2 == 0 }

  /** Among NaNs the signaling ones have the quiet bit clear. */
  lemma SignalingIs(ui: U32)
    requires NaN(Binary32, ui)
    ensures QuietBitClear(ui) <==> SignalingNaN(Binary32, ui)
  {
  }

  /** A NaN becomes the default NaN, with the invalid exception exactly for a signaling one; every
      other operand becomes the same number, with no exception. */
  method Convert(ui: U32) returns (z: Widened)
    ensures if NaN(Binary32, ui) then
              && z.invalid == SignalingNaN(Binary32, ui) && z.ui == 0x7FF8_0000_0000_0000
              && NaN(Binary64, z.ui) && !SignalingNaN(Binary64, z.ui)
            else !z.invalid
                 && SameNumber(Binary(23, 0x7F, 0xFF, 0x80_0000, 0x8000_0000),
                               Binary(52, 0x3FF, 0x7FF, 0x10_0000_0000_0000, 0x8000_0000_0000_0000), ui, z.ui)
  {
    FieldOf(ui);
    var x := Fields32(ui);
    if x.exp == 0xFF {
      if x.frac != 0 {
        SignalingIs(ui);
        return Widened(DEFAULT_NAN, QuietBitClear(ui));
      }
      var infinity := Pack(x.sign, 0x7FF, 0);
      return Widened(infinity, false);
    }
    if x.exp == 0 && x.frac == 0 {
      var zero := Pack(x.sign, 0, 0);
      ZeroIs(Binary32, Binary64, ui, zero);
      return Widened(zero, false);
    }
    var ui64 := Finite(x, ui);
    z := Widened(ui64, false);
  }

  /** Formats whose parameters make sense as such. */
  predicate Sensible(b: Binary) { b.hidden > 0 && b.bias > 0 && b.top > 0 }

  /** Equal numbers are ordered alike, whatever the formats. */
  lemma KeepsOrder(n: Binary, w: Binary, x: nat, y: nat, x': nat, y': nat)
    requires Sensible(n) && Sensible(w) && !NaN(n, x) && !NaN(n, y) && SameNumber(n, w, x, x')
             && SameNumber(n, w, y, y')
    ensures Unsigned(n, x) < Unsigned(n, y) ==> Unsigned(w, x') < Unsigned(w, y')
    ensures Unsigned(n, x) == Unsigned(n, y) ==> Unsigned(w, x') == Unsigned(w, y')
  {
    var u, v, u', v' := Unsigned(n, x), Unsigned(n, y), Unsigned(w, x'), Unsigned(w, y');
    var one, one' := One(n.hidden, n.bias), One(w.hidden, w.bias);
    OneIsPositive(n);
    OneIsPositive(w);
    EncodedInOrder(n.hidden, u, v);
    EncodedInOrder(w.hidden, u', v');
    if u < v < n.top * n.hidden {
      MulLt(EncodedValue(n.hidden, u), EncodedValue(n.hidden, v), one');
      MulLtCancel(EncodedValue(w.hidden, u'), EncodedValue(w.hidden, v'), one);
    }
    if u == v < n.top * n.hidden {
      MulLeCancel(EncodedValue(w.hidden, u'), EncodedValue(w.hidden, v'), one);
      MulLeCancel(EncodedValue(w.hidden, v'), EncodedValue(w.hidden, u'), one);
    }
  }

  lemma KeepsZero(n: Binary, w: Binary, x: nat, x': nat)
    requires Sensible(n) && Sensible(w) && SameNumber(n, w, x, x')
    ensures Unsigned(n, x) == 0 <==> Unsigned(w, x') == 0
  {
    var u, u' := Unsigned(n, x), Unsigned(w, x');
    OneIsPositive(n);
    OneIsPositive(w);
    MulLt(0, n.top, n.hidden);
    MulLt(0, w.top, w.hidden);
    EncodedSmall(n.hidden, 0);
    EncodedSmall(w.hidden, 0);
    EncodedInOrder(n.hidden, 0, u);
    EncodedInOrder(w.hidden, 0, u');
    if u > 0 { MulLt(0, EncodedValue(n.hidden, u), One(w.hidden, w.bias)); }
    if u' > 0 { MulLt(0, EncodedValue(w.hidden, u'), One(n.hidden, n.bias)); }
  }

  /** Comparing before widening and after it is the same. */
  lemma ComparesAlike(n: Binary, w: Binary, x: nat, y: nat, x': nat, y': nat)
    requires Sensible(n) && Sensible(w) && !NaN(n, x) && !NaN(n, y) && SameNumber(n, w, x, x')
             && SameNumber(n, w, y, y')
    ensures LessThan(n, x, y) == LessThan(w, x', y')
    ensures LessOrEqual(n, x, y) == LessOrEqual(w, x', y')
    ensures Equal(n, x, y) == Equal(w, x', y')
  {
    KeepsOrder(n, w, x, y, x', y');
    KeepsOrder(n, w, y, x, y', x');
    KeepsZero(n, w, x, x');
    KeepsZero(n, w, y, y');
  }
}
