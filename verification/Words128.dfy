/** 128-bit words held as two 64-bit halves, and the primitives on them. */
module Words128 {
  import opened Arith
  import opened Words

  datatype U128 = U128(v64: U64, v0: U64)

  function Value(w: U128): (v: nat)
    ensures v < TWO128
  {
    w.v64 * TWO64 + w.v0
  }

  function Signed128(w: U128): int { if w.v64 < TWO63 then Value(w) else Value(w) - TWO128 }

  /** A 128-bit value has one representation. */
  lemma ValueIs(w: U128, x: int)
    requires Value(w) == x
    ensures w.v64 == x / TWO64 && w.v0 == x % TWO64
  {
  }

  lemma Carry(x: U64, y: U64)
    ensures x + y == Wrap64(x + y) + (if Wrap64(x + y) < x then TWO64 else 0)
  {
    if x + y < TWO64 { ModIs(x + y, TWO64, 0, x + y); } else { ModIs(x + y, TWO64, 1, x + y - TWO64); }
  }

  lemma Borrow(x: U64, y: U64)
    ensures x - y == Wrap64(x - y) - (if x < y then TWO64 else 0)
  {
    if x < y { ModIs(x - y, TWO64, -1, x - y + TWO64); } else { ModIs(x - y, TWO64, 0, x - y); }
  }

  /** A carry out of, or borrow into, the high half is lost modulo 2^128. */
  lemma HighHalf(hi: int, lo: U64)
    ensures (hi * TWO64 + lo) % TWO128 == Wrap64(hi) * TWO64 + lo
  {
    DivBounds(hi, TWO64);
    ModIs(hi * TWO64 + lo, TWO128, hi / TWO64, Wrap64(hi) * TWO64 + lo);
  }

  function Add128(a: U128, b: U128): (z: U128)
    ensures Value(z) == (Value(a) + Value(b)) % TWO128
  {
    var v0 := Wrap64(a.v0 + b.v0);
    var hi := a.v64 + b.v64 + if v0 < a.v0 then 1 else 0;
    Carry(a.v0, b.v0);
    HighHalf(hi, v0);
    U128(Wrap64(hi), v0)
  }

  function Sub128(a: U128, b: U128): (z: U128)
    ensures Value(z) == (Value(a) - Value(b)) % TWO128
  {
    var v0 := Wrap64(a.v0 - b.v0);
    var hi := a.v64 - b.v64 - if a.v0 < b.v0 then 1 else 0;
    Borrow(a.v0, b.v0);
    HighHalf(hi, v0);
    U128(Wrap64(hi), v0)
  }

  lemma ShiftHalves(p: nat, p': nat, a64: U64, a0: U64)
    requires p > 0 && p' > 0 && p' * p == TWO64
    ensures Wrap64(a64 * p) + a0 / p' < TWO64
    ensures (Wrap64(a64 * p) + a0 / p') * TWO64 + Wrap64(a0 * p) == ((a64 * TWO64 + a0) * p) % TWO128
  {
    ModScale(a64, p, p');
    ModScale(a0, p, p');
    DivBounds(a0, p');
    var over, low := a0 / p', a0 % p';
    MulLtCancel(over, p, p');
    assert a0 * p == over * TWO64 + low * p by {
      assert (over * p' + low) * p == over * (p' * p) + low * p;
    }
    DivBounds(a64, p');
    var gone := a64 / p';
    assert a64 * p == gone * TWO64 + Wrap64(a64 * p) by {
      assert (gone * p' + a64 % p') * p == gone * (p' * p) + a64 % p' * p;
    }
    var r := (Wrap64(a64 * p) + over) * TWO64 + Wrap64(a0 * p);
    assert (a64 * TWO64 + a0) * p == a64 * p * TWO64 + a0 * p;
    ModIs((a64 * TWO64 + a0) * p, TWO128, gone, r);
  }

  lemma Pow2Split64(d: nat)
    requires d <= 64
    ensures Pow2(64 - d) * Pow2(d) == TWO64
  {
    Pow2Add(64 - d, d);
    Pow2Of64();
  }

  /** The two shifted halves do not overlap, so "or" is a sum. */
  function ShortShiftLeft128(a: U128, dist: nat): (z: U128)
    requires 1 <= dist <= 63
    ensures Value(z) == (Value(a) * Pow2(dist)) % TWO128
  {
    Pow2Split64(dist);
    ShiftHalves(Pow2(dist), Pow2(64 - dist), a.v64, a.v0);
    U128(Wrap64(a.v64 * Pow2(dist)) + a.v0 / Pow2(64 - dist), Wrap64(a.v0 * Pow2(dist)))
  }

  /** The carry out of the low 32x32 product is recovered from the wrapped sum. */
  lemma RecoverCarry(a0: U64, b: U32)
    ensures var mid := a0 / TWO32 * b;
            var carry := Wrap32(Wrap64(a0 * b) / TWO32 - mid);
            mid < TWO64 && mid + carry < TWO64 && (mid + carry) / TWO32 == a0 * b / TWO64
  {
    var hi, lo := a0 / TWO32, a0 % TWO32;
    var mid := hi * b;
    var lob := lo * b;
    MulLe(hi, TWO32 - 1, b);
    MulLe(lo, TWO32 - 1, b);
    assert a0 * b == mid * TWO32 + lob by {
      assert (hi * TWO32 + lo) * b == hi * b * TWO32 + lo * b;
    }
    CarryFrom(mid, lob);
  }

  lemma CarryFrom(mid: nat, lob: nat)
    requires mid <= (TWO32 - 1) * (TWO32 - 1) && lob <= (TWO32 - 1) * (TWO32 - 1)
    ensures var x := mid * TWO32 + lob;
            var carry := Wrap32(Wrap64(x) / TWO32 - mid);
            mid + carry < TWO64 && (mid + carry) / TWO32 == x / TWO64
  {
    var x := mid * TWO32 + lob;
    var c := lob / TWO32;
    DivBounds(lob, TWO32);
    DivIs(x, TWO32, mid + c);
    DivBounds(x, TWO64);
    var k := x / TWO64;
    DivIs(Wrap64(x), TWO32, mid + c - k * TWO32);
    ModIs(Wrap64(x) / TWO32 - mid, TWO32, -k, c);
    DivBounds(mid + c, TWO32);
    DivIs(mid + c, TWO32, k);
  }

  function Mul128By32(a: U128, b: U32): (z: U128)
    ensures Value(z) == (Value(a) * b) % TWO128
  {
    var v0 := Wrap64(a.v0 * b);
    var mid := a.v0 / TWO32 * b;
    var carry := Wrap32(v0 / TWO32 - mid);
    var hi := a.v64 * b + (mid + carry) / TWO32;
    RecoverCarry(a.v0, b);
    MulHalves(a, b);
    U128(Wrap64(hi), v0)
  }

  lemma MulHalves(a: U128, b: U32)
    ensures Wrap64(a.v64 * b + a.v0 * b / TWO64) * TWO64 + Wrap64(a.v0 * b) == (Value(a) * b) % TWO128
  {
    DivBounds(a.v0 * b, TWO64);
    HighHalf(a.v64 * b + a.v0 * b / TWO64, Wrap64(a.v0 * b));
    assert (a.v64 * TWO64 + a.v0) * b == a.v64 * b * TWO64 + a.v0 * b;
  }

  predicate Le128(a: U128, b: U128)
    ensures Le128(a, b) <==> Value(a) <= Value(b)
  {
    a.v64 < b.v64 || (a.v64 == b.v64 && a.v0 <= b.v0)
  }

  predicate Lt128(a: U128, b: U128)
    ensures Lt128(a, b) <==> Value(a) < Value(b)
  {
    a.v64 < b.v64 || (a.v64 == b.v64 && a.v0 < b.v0)
  }

  /** The 128-bit product of two words from 32-bit halves. */
  method Mul64To128(a: U64, b: U64) returns (z: U128)
    ensures Value(z) == a * b
  {
    var a32, a0, b32, b0 := a / TWO32, a % TWO32, b / TWO32, b % TWO32;
    SmallProduct(a32, b0);
    SmallProduct(a0, b32);
    SmallProduct(a0, b0);
    var high, v0 := AddMiddle(a0 * b0, a32 * b0, a0 * b32);
    Halves(a, b, a32, a0, b32, b0);
    z := ProductWords(a, b, a32 * b32 + high, v0);
  }

  /** Adds the two middle products at bit 32, recovering each lost carry by comparison. */
  method AddMiddle(low: U64, mid1: U64, mid2: U64) returns (high: nat, v0: U64)
    ensures high * TWO64 + v0 == low + (mid1 + mid2) * TWO32
  {
    var mid := Wrap64(mid1 + mid2);
    Carry(mid1, mid2);
    high := (if mid < mid1 then TWO32 else 0) + mid / TWO32;
    var m: U64 := mid % TWO32 * TWO32;
    v0 := Wrap64(m + low);
    Carry(m, low);
    high := high + if v0 < m then 1 else 0;
  }

  lemma SmallProduct(x: nat, y: nat)
    requires x < TWO32 && y < TWO32
    ensures x * y <= 0xFFFF_FFFE_0000_0001
  {
    MulLe(x, TWO32 - 1, y);
  }

  lemma Halves(a: nat, b: nat, a32: nat, a0: nat, b32: nat, b0: nat)
    requires a == a32 * TWO32 + a0 && b == b32 * TWO32 + b0
    ensures a * b == a32 * b32 * TWO64 + (a32 * b0 + a0 * b32) * TWO32 + a0 * b0
  {
    assert a * b == a32 * b * TWO32 + a0 * b;
    assert a32 * b == a32 * b32 * TWO32 + a32 * b0;
    assert a0 * b == a0 * b32 * TWO32 + a0 * b0;
  }

  method ProductWords(a: U64, b: U64, v64: nat, v0: U64) returns (z: U128)
    requires v64 * TWO64 + v0 == a * b
    ensures Value(z) == a * b
  {
    MulLe(a, TWO64 - 1, b);
    z := U128(v64, v0);
  }
}
