/** Integer facts used throughout: products, quotients, residues and powers of two. */
module Arith {

  lemma MulSucc(k: int, n: int)
    ensures k * (n + 1) == k * n + k
  {
  }

  lemma OneMore(q: int, d: int)
    ensures (q + 1) * d == q * d + d
  {
  }

  lemma Distribute(x: int, y: int, d: int)
    ensures (x + y) * d == x * d + y * d
  {
  }

  lemma Assoc(x: int, y: int, z: int)
    ensures x * (y * z) == x * y * z
  {
  }

  lemma MulLe(x: int, y: int, k: int)
    requires x <= y && 0 <= k
    ensures x * k <= y * k
  {
  }

  lemma MulLt(x: int, y: int, k: int)
    requires x < y && 0 < k
    ensures x * k < y * k
  {
  }

  lemma MulLtCancel(x: int, y: int, k: int)
    requires x * k < y * k && 0 <= k
    ensures x < y
  {
    if x >= y { MulLe(y, x, k); }
  }

  lemma MulLeCancel(x: int, y: int, k: int)
    requires x * k <= y * k && 0 < k
    ensures x <= y
  {
    if x > y { MulLt(y, x, k); }
  }

  /** The quotient is the only q with q*d <= x < q*d + d. */
  lemma DivIs(x: int, d: int, q: int)
    requires d > 0 && q * d <= x < q * d + d
    ensures x / d == q && x % d == x - q * d
  {
    var q' := x / d;
    assert x == q' * d + x % d;
    if q' < q { MulLe(q' + 1, q, d); }
    if q < q' { MulLe(q + 1, q', d); }
  }

  lemma ModIs(x: int, m: int, k: int, r: int)
    requires x == k * m + r && 0 <= r < m
    ensures x % m == r && x / m == k
  {
    DivIs(x, m, k);
  }

  lemma DivBounds(x: int, d: int)
    requires d > 0
    ensures x / d * d <= x < x / d * d + d
    ensures x % d == x - x / d * d
  {
  }

  lemma Floor(x: nat, d: nat) returns (q: nat)
    requires d > 0
    ensures q * d <= x < q * d + d
  {
    q := x / d;
    DivBounds(x, d);
  }

  lemma ModAtMost(x: nat, d: nat)
    requires d > 0
    ensures x % d <= x
  {
    var q := Floor(x, d);
    DivIs(x, d, q);
    MulLe(0, q, d);
  }

  /** Residues ignore multiples of the modulus. */
  lemma ModShift(x: int, k: int, m: int)
    requires m > 0
    ensures (x + k * m) % m == x % m
  {
    DivBounds(x, m);
    assert (x / m + k) * m == x / m * m + k * m;
    DivIs(x + k * m, m, x / m + k);
  }

  lemma ModOfDifference(x: int, y: int, m: int)
    requires m > 0
    ensures (x % m - y % m) % m == (x - y) % m
  {
    DivBounds(x, m);
    DivBounds(y, m);
    assert (y / m - x / m) * m == y / m * m - x / m * m;
    ModShift(x - y, y / m - x / m, m);
  }

  /** Shifting left drops what leaves the word: (x*p) mod (q*p) is (x mod q)*p. */
  lemma ModScale(x: nat, p: nat, q: nat)
    requires p > 0 && q > 0
    ensures q * p > 0 && (x * p) % (q * p) == x % q * p && x % q * p + p <= q * p
  {
    DivBounds(x, q);
    var k, r := x / q, x % q;
    MulLe(r + 1, q, p);
    MulLe(1, p, q);
    assert (r + 1) * p == r * p + p;
    assert x * p == k * (q * p) + r * p by {
      assert (k * q + r) * p == k * q * p + r * p;
      Assoc(k, q, p);
    }
    ModIs(x * p, q * p, k, r * p);
  }

  /** Dividing twice is dividing by the product. */
  lemma DivDiv(x: int, d: int, e: int)
    requires d > 0 && e > 0
    ensures d * e > 0 && x / d / e == x / (d * e)
  {
    var q := x / d;
    var p := q / e;
    DivBounds(x, d);
    DivBounds(q, e);
    MulLe(p * e, q, d);
    MulLe(q + 1, p * e + e, d);
    assert p * e * d == p * (d * e);
    assert (p * e + e) * d == p * (d * e) + d * e;
    MulLt(0, d, e);
    DivIs(x, d * e, p);
  }

  /** A product the verifier sees as a name until `TimesIs` opens it. */
  function Times(n: nat, k: nat): nat {
    if n == 0 then 0 else k + Times(n - 1, k)
  }

  lemma {:induction false} TimesIs(n: nat, k: nat)
    ensures Times(n, k) == n * k
  {
    if n > 0 {
      TimesIs(n - 1, k);
    }
  }

  lemma {:induction false} TimesLe(m: nat, n: nat, k: nat)
    requires m < n
    ensures Times(m, k) + k <= Times(n, k)
  {
    if m < n - 1 {
      TimesLe(m, n - 1, k);
    }
  }

  function Pow2(n: nat): (p: nat)
    ensures p > 0
  {
    if n == 0 then 1 else 2 * Pow2(n - 1)
  }

  lemma {:induction false} Pow2Add(m: nat, n: nat)
    ensures Pow2(m + n) == Pow2(m) * Pow2(n)
  {
    if m == 0 {
    } else {
      Pow2Add(m - 1, n);
      assert 2 * Pow2(m - 1) * Pow2(n) == 2 * (Pow2(m - 1) * Pow2(n));
    }
  }

  lemma {:induction false} Pow2Le(m: nat, n: nat)
    requires m <= n
    ensures Pow2(m) <= Pow2(n)
  {
    if m < n { Pow2Le(m, n - 1); }
  }

  lemma Pow2Lt(m: nat, n: nat)
    requires m < n
    ensures 2 * Pow2(m) <= Pow2(n)
  {
    Pow2Le(m + 1, n);
  }

  lemma Pow2Even(n: nat)
    requires n > 0
    ensures Pow2(n) % 2 == 0
  {
  }

  lemma Pow2Of29()
    ensures Pow2(29) == 0x2000_0000
  {
    assert Pow2(8) == 0x100;
    assert Pow2(16) == 0x1_0000;
    assert Pow2(24) == 0x100_0000;
  }

  lemma Pow2Of32()
    ensures Pow2(32) == 0x1_0000_0000
  {
    Pow2Of29();
  }

  lemma Pow2Of64()
    ensures Pow2(64) == 0x1_0000_0000_0000_0000
  {
    Pow2Of32();
    Pow2Add(32, 32);
  }

  lemma Pow2Of112()
    ensures Pow2(48) == 0x1_0000_0000_0000
    ensures Pow2(112) == 0x1_0000_0000_0000_0000_0000_0000_0000
  {
    Pow2Of64();
    Pow2Of32();
    assert Pow2(40) == 0x100_0000_0000;
    assert Pow2(48) == 0x1_0000_0000_0000;
    Pow2Add(48, 64);
  }

  /** v shifted left by n. */
  function Shl(v: nat, n: nat): nat {
    if n == 0 then v else 2 * Shl(v, n - 1)
  }

  lemma {:induction false} ShlAdd(v: nat, m: nat, n: nat)
    ensures Shl(Shl(v, m), n) == Shl(v, m + n)
  {
    if n > 0 { ShlAdd(v, m, n - 1); }
  }

  lemma {:induction false} ShlIs(v: nat, n: nat)
    ensures v * Pow2(n) == Shl(v, n)
  {
    if n > 0 {
      ShlIs(v, n - 1);
      assert v * (2 * Pow2(n - 1)) == 2 * (v * Pow2(n - 1));
    }
  }

  lemma ShlAgain(w: nat, v: nat, m: nat, n: nat)
    requires w == Shl(v, m)
    ensures w * Pow2(n) == Shl(v, m + n)
  {
    ShlIs(w, n);
    ShlAdd(v, m, n);
  }

  lemma {:induction false} ShlTimes(v: nat, w: nat, n: nat)
    ensures v * Shl(w, n) == Shl(v * w, n)
  {
    if n > 0 {
      ShlTimes(v, w, n - 1);
      Assoc(v, 2, Shl(w, n - 1));
    }
  }

  lemma {:induction false} ShlProduct(v: nat, w: nat, m: nat, n: nat)
    ensures Shl(v, m) * Shl(w, n) == Shl(v * w, m + n)
  {
    if m == 0 {
      ShlTimes(v, w, n);
    } else {
      ShlProduct(v, w, m - 1, n);
      Assoc(2, Shl(v, m - 1), Shl(w, n));
    }
  }

  /** Powers whose exponents have the same sum have the same product. */
  lemma SameWeight(m: nat, n: nat, x: nat, y: nat)
    requires m + n == x + y
    ensures Pow2(m) * Pow2(n) == Pow2(x) * Pow2(y)
  {
    ShlIs(1, m);
    ShlAgain(Pow2(m), 1, m, n);
    ShlIs(1, x);
    ShlAgain(Pow2(x), 1, x, y);
  }

  /** An equation between shifted numbers holds at every higher shift. */
  lemma ShlSame(v: nat, w: nat, m: nat, n: nat, d: nat)
    requires v * Pow2(m) == w * Pow2(n)
    ensures Shl(v, m + d) == Shl(w, n + d)
  {
    ShlIs(v, m);
    ShlIs(w, n);
    ShlAdd(v, m, d);
    ShlAdd(w, n, d);
  }
}
