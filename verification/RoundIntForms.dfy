/** f32_roundToInt: the single-word form. */
module F32RoundToInt {
  import opened Arith
  import opened Words
  import opened Rounding
  import opened RoundInt

  const HIDDEN: nat := 0x80_0000

  function SignBit(negative: bool): U32 { if negative then TWO31 else 0 }

  lemma FieldOf(ui: U32)
    ensures HasExponent(Binary32, ui, ui / HIDDEN % 0x100)
    ensures Unsigned(Binary32, ui) == ui % TWO31 && ui % HIDDEN == ui % TWO31 - ui / HIDDEN % 0x100 * HIDDEN
  {
  }

  /** Magnitudes below one: only the mode, the sign and the comparison with one half count. */
  method BelowOne(ui: U32, exp: nat, mode: Mode, exact: bool) returns (z: Outcome)
    requires exp == ui / HIDDEN % 0x100 && exp <= 0x7E
    ensures RoundedToInt(Binary32, mode, exact, ui, z)
  {
    Binary32IsBinary();
    FieldOf(ui);
    if ui % TWO31 == 0 {
      z := Encoded(ui, false);
    } else {
      var negative := ui >= TWO31;
      var uiZ := SignBit(negative);
      if (mode.NearEven? && ui % HIDDEN != 0) || mode.NearMaxMag? {
        if exp == 0x7E { uiZ := uiZ + 0x7F * HIDDEN; }
      } else if mode.Min? {
        if uiZ != 0 { uiZ := TWO31 + 0x7F * HIDDEN; }
      } else if mode.Max? {
        if uiZ == 0 { uiZ := 0x7F * HIDDEN; }
      } else if mode.Odd? {
        uiZ := uiZ + 0x7F * HIDDEN;
      }
      z := Encoded(uiZ, exact);
    }
    SmallRange(Binary32, mode, exact, ui, exp, z);
  }

  method RoundToInt(ui: U32, mode: Mode, exact: bool) returns (z: Outcome)
    ensures RoundedToInt(Binary(23, 0x7F, 0xFF, 0x80_0000, 0x8000_0000), mode, exact, ui, z)
  {
    Binary32IsBinary();
    FieldOf(ui);
    var exp := ui / HIDDEN % 0x100;
    if exp <= 0x7E {
      z := BelowOne(ui, exp, mode, exact);
    } else if 0x96 <= exp {
      if exp == 0xFF && ui % HIDDEN != 0 {
        return PropagateNaN;
      }
      z := Encoded(ui, false);
      if exp == 0xFF {
        SpecialRange(Binary32, mode, exact, ui, z);
      } else {
        LargeRange(Binary32, mode, exact, ui, exp, z);
      }
    } else {
      UnitsBit(Binary32, exp);
      var lastBitMask := Pow2(0x96 - exp);
      var uiZ, changed := AddAndMask(mode, ui >= TWO31, ui, false, lastBitMask, 1, 0);
      z := Encoded(uiZ, exact && changed);
      MiddleRange(Binary32, mode, exact, ui, exp, z);
    }
  }
}

/** f128_roundToInt: two 64-bit words, with the units bit in either or between them. */
module F128RoundToInt {
  import opened Arith
  import opened Words
  import opened Words128
  import opened Rounding
  import opened RoundInt

  /** Clears everything below the units bit. */
  function Masked(w: U128, L: U64): U128
    requires L > 0
  {
    U128(w.v64, w.v0 - w.v0 % L)
  }

  lemma MaskedIs(w: U128, L: U64, m: nat)
    requires L > 0 && m % 2 == 0 && TWO64 == Times(m, L)
    ensures Value(Masked(w, L)) == Value(w) - Value(w) % L
  {
    LowPart(w.v64, w.v0, L, m, TWO64);
  }

  method AddSmall(w: U128, inc: U64) returns (t: U128)
    requires Value(w) + inc < TWO128
    ensures Value(t) == Value(w) + inc
  {
    t := Add128(w, U128(0, inc));
  }

  /** Adds less than the units bit, and splits the sum there; k is its quotient. */
  method AddInc(w: U128, L: U64, inc: U64, ghost m: nat, ghost q: nat, ghost r: nat)
      returns (z: U128, rest: nat, unitSet: bool, ghost k: nat)
    requires L > 0 && inc < L && m % 2 == 0 && TWO64 == Times(m, L) && Value(w) + L < TWO128
    requires Value(w) == Times(q, L) + r && r < L
    ensures Value(z) == Times(k, L) && k == if r + inc >= L then q + 1 else q
    ensures rest == if r + inc >= L then r + inc - L else r + inc
    ensures (unitSet <==> k % 2 == 1) && (unitSet ==> z.v0 >= L)
  {
    TimesIs(q, L);
    var t := AddSmall(w, inc);
    k := if r + inc >= L then q + 1 else q;
    SumParts(q, r, L, inc);
    LowPart(t.v64, t.v0, L, m, TWO64);
    MaskedIs(t, L, m);
    TimesIs(k, L);
    rest, unitSet := t.v0 % L, t.v0 / L % 2 == 1;
    z := Masked(t, L);
    if unitSet { MaskedAtLeast(t.v0, L); }
  }

  lemma MaskedAtLeast(x: nat, L: nat)
    requires L > 0 && x / L % 2 == 1
    ensures x - x % L >= L
  {
    var n := Floor(x, L);
    DivIs(x, L, n);
    MulLe(1, n, L);
  }

  /** Half the units bit added, masked, and a tie's odd result lowered. */
  method ToNearest(even: bool, w: U128, L: U64, half: U64, ghost m: nat, ghost q: nat, ghost r: nat) returns (z: U128)
    requires L == 2 * half && half > 0 && m % 2 == 0 && TWO64 == Times(m, L) && Value(w) + L < TWO128
    requires Value(w) == Times(q, L) + r && r < L
    ensures Value(z) == Times(if r > half || (r == half && (!even || q % 2 == 1)) then q + 1 else q, L)
  {
    var rest, unitSet;
    ghost var k;
    z, rest, unitSet, k := AddInc(w, L, half, m, q, r);
    if even && rest == 0 && unitSet {
      z := U128(z.v64, z.v0 - L);
    }
  }

  method AwayFromZero(w: U128, L: U64, ghost m: nat, ghost q: nat, ghost r: nat) returns (z: U128)
    requires L > 0 && m % 2 == 0 && TWO64 == Times(m, L) && Value(w) + L < TWO128
    requires Value(w) == Times(q, L) + r && r < L
    ensures Value(z) == Times(if r > 0 then q + 1 else q, L)
  {
    var rest, unitSet;
    ghost var k;
    z, rest, unitSet, k := AddInc(w, L, L - 1, m, q, r);
  }

  method Toward(w: U128, L: U64, ghost m: nat, ghost q: nat, ghost r: nat) returns (z: U128)
    requires L > 0 && m % 2 == 0 && TWO64 == Times(m, L) && Value(w) + L < TWO128
    requires Value(w) == Times(q, L) + r && r < L
    ensures Value(z) == Times(q, L)
  {
    SumParts(q, r, L, 0);
    MaskedIs(w, L, m);
    TimesIs(q, L);
    z := Masked(w, L);
  }

  /** The units bit lies in the low word. */
  method UnitsInLow(mode: Mode, neg: bool, w: U128, L: U64, ghost m: nat) returns (z: U128, changed: bool)
    requires L > 0 && L % 2 == 0 && m % 2 == 0 && TWO64 == Times(m, L) && Value(w) + L < TWO128
    ensures Value(z) == Round(mode, neg, Value(w), L) * L && (changed <==> Value(w) % L != 0)
  {
    ghost var q, r := StickyParts(mode, neg, Value(w), 1, 0, L);
    HalfTest(r, 1, 0, L);
    TimesIs(q, L);
    ghost var k := q;
    if mode.NearEven? || mode.NearMaxMag? {
      z := ToNearest(mode.NearEven?, w, L, L / 2, m, q, r);
      k := if r > L / 2 || (r == L / 2 && (mode.NearMaxMag? || q % 2 == 1)) then q + 1 else q;
    } else if mode == (if neg then Min else Max) {
      z := AwayFromZero(w, L, m, q, r);
      k := if r > 0 then q + 1 else q;
    } else {
      z := Toward(w, L, m, q, r);
    }
    changed := Differs(z, w, k, q, r, L);
    if changed && mode.Odd? {
      z := SetUnits(z, L, m, k);
      k := if k % 2 == 0 then k + 1 else k;
    }
    TimesIs(k, L);
  }

  method Differs(z: U128, w: U128, ghost k: nat, ghost q: nat, ghost r: nat, ghost L: nat) returns (changed: bool)
    requires Value(z) == Times(k, L) && Value(w) == Times(q, L) + r && r < L && q <= k <= q + 1 && (r == 0 ==> k == q)
    ensures changed <==> r != 0
  {
    TimesIs(k, L);
    TimesIs(q, L);
    OneMore(q, L);
    changed := z.v64 != w.v64 || z.v0 != w.v0;
  }

  method SetUnits(w: U128, L: U64, ghost m: nat, ghost k: nat) returns (z: U128)
    requires L > 0 && m % 2 == 0 && TWO64 == Times(m, L) && Value(w) == Times(k, L) && Value(w) + L < TWO128
    ensures Value(z) == Times(if k % 2 == 0 then k + 1 else k, L)
  {
    LowPart(w.v64, w.v0, L, m, TWO64);
    TimesIs(k, L);
    DivIs(k * L, L, k);
    z := w;
    if z.v0 / L % 2 == 0 {
      RoomForUnits(w.v0, L, m, TWO64);
      z := U128(w.v64, w.v0 + L);
    }
  }

  /** The units bit is the lowest bit of the high word. */
  method UnitsBetween(mode: Mode, neg: bool, w: U128) returns (z: U128, changed: bool)
    requires Value(w) + TWO64 < TWO128
    ensures Value(z) == Round(mode, neg, Value(w), TWO64) * TWO64 && (changed <==> Value(w) % TWO64 != 0)
  {
    DivIs(Value(w), TWO64, w.v64);
    var t := w;
    if mode.NearEven? || mode.NearMaxMag? {
      if TWO63 <= t.v0 {
        t := U128(t.v64 + 1, t.v0);
        if mode.NearEven? && t.v0 == TWO63 {
          t := U128(t.v64 - t.v64 % 2, t.v0);
        }
      }
    } else if mode == (if neg then Min else Max) {
      t := AddSmall(w, TWO64 - 1);
    }
    z := U128(t.v64, 0);
    changed := z.v64 != w.v64 || z.v0 != w.v0;
    if changed && mode.Odd? && z.v64 % 2 == 0 {
      z := U128(z.v64 + 1, 0);
    }
  }

  /** The units bit lies higher: the low word is only looked at for being zero. */
  method UnitsInHigh(mode: Mode, neg: bool, w: U128, L: U64) returns (z: nat, changed: bool)
    requires L > 0 && L % 2 == 0
    ensures z * TWO64 == Round(mode, neg, Value(w), L * TWO64) * (L * TWO64)
            && (changed <==> Value(w) % (L * TWO64) != 0)
  {
    z, changed := AddAndMask(mode, neg, w.v64, w.v0 != 0, L, TWO64, w.v0);
  }

  const TWO48: nat := 0x1_0000_0000_0000

  function Exponent(w: U128): nat { w.v64 / TWO48 % 0x8000 }

  function Fraction64(w: U128): nat { w.v64 % TWO48 }

  lemma FieldOf(w: U128)
    ensures HasExponent(Binary128, Value(w), Exponent(w))
    ensures Negative(Binary128, Value(w)) <==> w.v64 >= TWO63
    ensures Unsigned(Binary128, Value(w)) == w.v64 % TWO63 * TWO64 + w.v0
    ensures w.v64 % TWO63 == Exponent(w) * TWO48 + Fraction64(w)
    ensures Unsigned(Binary128, Value(w)) == Exponent(w) * Binary128.hidden + Fraction64(w) * TWO64 + w.v0
  {
  }

  function Packed(negative: bool, exp: nat): U128
    requires exp <= 0x3FFF
  {
    U128((if negative then TWO63 else 0) + exp * TWO48, 0)
  }

  /** Magnitudes below one. */
  method BelowOne(w: U128, exp: nat, mode: Mode, exact: bool) returns (z: Outcome)
    requires exp == Exponent(w) && exp < 0x3FFF
    ensures RoundedToInt(Binary128, mode, exact, Value(w), z)
  {
    Binary128IsBinary();
    FieldOf(w);
    var zw := w;
    if w.v64 % TWO63 == 0 && w.v0 == 0 {
      z := Encoded(Value(w), false);
    } else {
      var negative := w.v64 >= TWO63;
      zw := Packed(negative, 0);
      if (mode.NearEven? && (Fraction64(w) != 0 || w.v0 != 0)) || mode.NearMaxMag? {
        if exp == 0x3FFE { zw := Packed(negative, 0x3FFF); }
      } else if mode.Min? {
        if zw.v64 != 0 { zw := Packed(true, 0x3FFF); }
      } else if mode.Max? {
        if zw.v64 == 0 { zw := Packed(false, 0x3FFF); }
      } else if mode.Odd? {
        zw := Packed(negative, 0x3FFF);
      }
      z := Encoded(Value(zw), exact);
    }
    SmallRange(Binary128, mode, exact, Value(w), exp, z);
  }

  lemma WordsOfUnits(exp: nat)
    requires 0x3FFF <= exp < 0x406F
    ensures exp < 0x402F ==> var L := Pow2(0x402F - exp);
            L < TWO64 && L % 2 == 0 && LastBit(Binary128, exp) == L * TWO64
    ensures exp == 0x402F ==> LastBit(Binary128, exp) == TWO64
    ensures exp > 0x402F ==> var L, m := LastBit(Binary128, exp), Pow2(exp - 0x402F);
                             L < TWO64 && L % 2 == 0 && m % 2 == 0 && TWO64 == Times(m, L)
  {
    Pow2Of64();
    if exp < 0x402F {
      Pow2Lt(0x402F - exp, 64);
      Pow2Even(0x402F - exp);
      Pow2Add(0x402F - exp, 64);
    } else if exp > 0x402F {
      Pow2Lt(0x406F - exp, 64);
      Pow2Even(0x406F - exp);
      Pow2Even(exp - 0x402F);
      Pow2Add(exp - 0x402F, 0x406F - exp);
      TimesIs(Pow2(exp - 0x402F), Pow2(0x406F - exp));
    }
  }

  method RoundMiddle(w: U128, exp: nat, mode: Mode, exact: bool) returns (z: Outcome)
    requires exp == Exponent(w) && 0x3FFF <= exp < 0x406F
    ensures RoundedToInt(Binary128, mode, exact, Value(w), z)
  {
    Binary128IsBinary();
    FieldOf(w);
    WordsOfUnits(exp);
    var negative := w.v64 >= TWO63;
    var changed;
    if exp < 0x402F {
      var z64;
      z64, changed := UnitsInHigh(mode, negative, w, Pow2(0x402F - exp));
      z := Encoded(z64 * TWO64, exact && changed);
    } else if exp == 0x402F {
      var zw;
      zw, changed := UnitsBetween(mode, negative, w);
      z := Encoded(Value(zw), exact && changed);
    } else {
      var zw;
      zw, changed := UnitsInLow(mode, negative, w, Pow2(0x406F - exp), Pow2(exp - 0x402F));
      z := Encoded(Value(zw), exact && changed);
    }
    MiddleRange(Binary128, mode, exact, Value(w), exp, z);
  }

  method RoundToInt(w: U128, mode: Mode, exact: bool) returns (z: Outcome)
    ensures RoundedToInt(Binary(112, 0x3FFF, 0x7FFF, 0x1_0000_0000_0000_0000_0000_0000_0000,
                                0x8000_0000_0000_0000_0000_0000_0000_0000),
                         mode, exact, Value(w), z)
  {
    Binary128IsBinary();
    FieldOf(w);
    var exp := Exponent(w);
    if 0x406F <= exp {
      if exp == 0x7FFF && (Fraction64(w) != 0 || w.v0 != 0) {
        return PropagateNaN;
      }
      z := Encoded(Value(w), false);
      if exp == 0x7FFF {
        SpecialRange(Binary128, mode, exact, Value(w), z);
      } else {
        LargeRange(Binary128, mode, exact, Value(w), exp, z);
      }
    } else if exp < 0x3FFF {
      z := BelowOne(w, exp, mode, exact);
    } else {
      z := RoundMiddle(w, exp, mode, exact);
    }
  }
}
