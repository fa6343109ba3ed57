/** The arithmetic shared by the remainder routines: an approximate reciprocal, the quotient
    digits it yields, and the final choice between two neighbouring remainders. */
module RemCore {
  import opened Arith
  import opened Words

  /** The reciprocal primitive in the form this platform compiles it to. */
  function ApproxRecip32(a: nat): nat
    requires 0x8000_0000 <= a < 0x1_0000_0000
  {
    0x7FFF_FFFF_FFFF_FFFF / a
  }

  /** The last value r with r*a below 2^63; it fits in 32 bits. */
  lemma RecipBounds(a: nat)
    requires 0x8000_0000 <= a < 0x1_0000_0000
    ensures ApproxRecip32(a) * a < 0x8000_0000_0000_0000 <= (ApproxRecip32(a) + 1) * a
    ensures ApproxRecip32(a) < 0x1_0000_0000
  {
    var r := ApproxRecip32(a);
    DivBounds(0x7FFF_FFFF_FFFF_FFFF, a);
    if r >= 0x1_0000_0000 {
      MulLe(0x8000_0000, a, r);
    }
  }

  /** `rem` is below 2*B, B is a 32-bit divisor head `a` scaled by S; `d` is the product of rem's
      head and the reciprocal. Then d*2^-32 lies within (-5/4, 1/2) of rem*2^29/B. */
  lemma DigitEstimate(S: nat, B: nat, a: nat, r: nat, rem: nat, h: nat, d: nat)
    requires S > 0 && 0x8000_0000 <= a < 0x1_0000_0000
    requires a * S <= B < (a + 1) * S
    requires r * a < 0x8000_0000_0000_0000 <= (r + 1) * a
    requires rem < 2 * B
    requires h * (4 * S) <= rem < (h + 1) * (4 * S)
    requires d == h * r
    ensures d * B <= rem * 0x2000_0000_0000_0000 + 0x8000_0000 * B
    ensures 4 * (d * B) >= rem * 0x8000_0000_0000_0000 - rem * a - S * 0x2_0000_0000_0000_0000
    ensures d * B > rem * 0x2000_0000_0000_0000 - 0x1_4000_0000 * B
  {
    DigitUpper(S, B, a, r, rem, h, d);
    DigitLower(S, B, a, r, rem, h, d);
    DigitLowerSimple(S, B, a, rem, d);
  }

  lemma DigitUpper(S: nat, B: nat, a: nat, r: nat, rem: nat, h: nat, d: nat)
    requires S > 0 && 0x8000_0000 <= a < 0x1_0000_0000
    requires a * S <= B < (a + 1) * S
    requires r * a < 0x8000_0000_0000_0000
    requires rem < 2 * B
    requires h * (4 * S) <= rem
    requires d == h * r
    ensures d * B <= rem * 0x2000_0000_0000_0000 + 0x8000_0000 * B
  {
    var ds := d * S;
    MulLe(h * (4 * S), rem, r);
    HeadTimesReciprocal(h, S, r, d);
    ProductOfHeads(ds, rem, r, a);
    OneMore(a, S);
    DigitTimesDivisor(S, B, a, d, ds, rem);
  }

  lemma HeadTimesReciprocal(h: nat, S: nat, r: nat, d: nat)
    requires d == h * r
    ensures h * (4 * S) * r == 4 * (d * S)
  {
    Assoc(h, 4 * S, r);
    Assoc(h, r, 4 * S);
    Assoc(d, 4, S);
    Assoc(4, d, S);
  }

  lemma ProductOfHeads(ds: nat, rem: nat, r: nat, a: nat)
    requires 4 * ds <= rem * r && r * a < 0x8000_0000_0000_0000
    ensures ds * a <= rem * 0x2000_0000_0000_0000
  {
    MulLe(4 * ds, rem * r, a);
    Assoc(4, ds, a);
    Assoc(rem, r, a);
    MulLe(r * a, 0x8000_0000_0000_0000, rem);
  }

  lemma DigitTimesDivisor(S: nat, B: nat, a: nat, d: nat, ds: nat, rem: nat)
    requires ds == d * S && B < a * S + S
    requires ds * a <= rem * 0x2000_0000_0000_0000 && rem < 2 * B && 0x8000_0000 <= a
    ensures d * B <= rem * 0x2000_0000_0000_0000 + 0x8000_0000 * B
  {
    MulLe(0x8000_0000, a, ds);
    assert ds <= 0x8000_0000 * B;
    MulLe(B, a * S + S, d);
    Distribute(a * S, S, d);
    Assoc(a, S, d);
    Assoc(a, d, S);
  }

  lemma DigitLower(S: nat, B: nat, a: nat, r: nat, rem: nat, h: nat, d: nat)
    requires S > 0 && 0x8000_0000 <= a < 0x1_0000_0000
    requires a * S <= B
    requires 0x8000_0000_0000_0000 <= (r + 1) * a
    requires h * (4 * S) <= rem < (h + 1) * (4 * S)
    requires d == h * r
    ensures 4 * (d * B) >= rem * 0x8000_0000_0000_0000 - rem * a - S * 0x2_0000_0000_0000_0000
  {
    var P, Q := h * (4 * S), r * a;
    assert (h + 1) * (4 * S) == P + 4 * S;
    assert (r + 1) * a == Q + a;
    MulLe(a * S, B, 4 * d);
    assert 4 * d * (a * S) == P * Q by {
      assert h * (4 * S) * (r * a) == 4 * (h * r) * (a * S);
    }
    MulLe(0x8000_0000_0000_0000 - a, Q, P);
    MulLe(P, rem, a);
    assert P * (0x8000_0000_0000_0000 - a) == P * 0x8000_0000_0000_0000 - P * a;
  }

  /** Between the ends of a's range the two error terms trade off: a^2 + 2^64 <= 5 * 2^31 * a. */
  lemma ErrorTradeOff(S: nat, a: nat)
    requires 0x8000_0000 <= a < 0x1_0000_0000
    ensures a * (a * S) + S * 0x1_0000_0000_0000_0000 <= 0x2_8000_0000 * (a * S)
  {
    MulLe(0, a - 0x8000_0000, 0x2_0000_0000 - a);
    var slack := (a - 0x8000_0000) * (0x2_0000_0000 - a);
    assert slack == 0x2_8000_0000 * a - a * a - 0x1_0000_0000_0000_0000;
    MulLe(0, slack, S);
    assert slack * S == 0x2_8000_0000 * (a * S) - a * (a * S) - S * 0x1_0000_0000_0000_0000;
  }

  lemma DigitLowerSimple(S: nat, B: nat, a: nat, rem: nat, d: nat)
    requires S > 0 && 0x8000_0000 <= a < 0x1_0000_0000
    requires a * S <= B && rem < 2 * B
    requires 4 * (d * B) >= rem * 0x8000_0000_0000_0000 - rem * a - S * 0x2_0000_0000_0000_0000
    ensures d * B > rem * 0x2000_0000_0000_0000 - 0x1_4000_0000 * B
  {
    ErrorTradeOff(S, a);
    MulLt(rem, 2 * B, a);
    var w, ab := a * S, a * B;
    var k := 0x5_0000_0000 - 2 * a;
    MulLe(w, B, k);
    assert w * k == 0x5_0000_0000 * w - 2 * (a * w);
    assert B * k == 0x5_0000_0000 * B - 2 * ab;
    assert 2 * B * a == 2 * ab;
  }

  /** A full 29-bit digit, rounded to nearest, leaves a remainder in [-B, 2B). */
  lemma LoopDigit(B: nat, rem: nat, d: nat, q: nat)
    requires d * B <= rem * 0x2000_0000_0000_0000 + 0x8000_0000 * B
    requires d * B > rem * 0x2000_0000_0000_0000 - 0x1_4000_0000 * B
    requires q == (d + 0x8000_0000) / 0x1_0000_0000
    ensures 0 <= rem * 0x2000_0000 - q * B + B && rem * 0x2000_0000 - q * B < 2 * B
  {
    MulLe(0x1_0000_0000 * q, d + 0x8000_0000, B);
    MulLe(d + 0x8000_0000, 0x1_0000_0000 * q + 0xFFFF_FFFF, B);
    assert (d + 0x8000_0000) * B == d * B + 0x8000_0000 * B;
    assert 0x1_0000_0000 * q * B == 0x1_0000_0000 * (q * B);
    assert (0x1_0000_0000 * q + 0xFFFF_FFFF) * B == 0x1_0000_0000 * (q * B) + 0xFFFF_FFFF * B;
  }

  /** The last digit keeps 29-k bits and is rounded down; the remainder stays below 2^33 * S. */
  lemma LastDigit(S: nat, B: nat, a: nat, rem: nat, d: nat, k: nat, q: nat)
    requires k <= 29
    requires B < 0x1_0000_0000 * S && a < 0x1_0000_0000 && rem < 2 * B
    requires d * B <= rem * 0x2000_0000_0000_0000 + 0x8000_0000 * B
    requires 4 * (d * B) >= rem * 0x8000_0000_0000_0000 - rem * a - S * 0x2_0000_0000_0000_0000
    requires q == d / 0x1_0000_0000 / Pow2(k)
    ensures 0 <= rem * Pow2(29 - k) - q * B + B && rem * Pow2(29 - k) - q * B < 0x2_0000_0000 * S
  {
    Pow2Split29(k);
    ShiftTwice(d, Pow2(k), d / 0x1_0000_0000, q);
    LastDigitAt(S, B, a, rem, d, 0x1_0000_0000 * Pow2(k), Pow2(k), Pow2(29 - k), q);
  }

  lemma Pow2Split29(k: nat)
    requires k <= 29
    ensures Pow2(k) * Pow2(29 - k) == 0x2000_0000
  {
    Pow2Add(k, 29 - k);
    Pow2Of29();
  }

  lemma ShiftTwice(d: nat, p: nat, w: nat, q: nat)
    requires p > 0 && w == d / 0x1_0000_0000 && q == w / p
    ensures q * (0x1_0000_0000 * p) <= d < q * (0x1_0000_0000 * p) + 0x1_0000_0000 * p
  {
    DivBounds(w, p);
    assert q * (0x1_0000_0000 * p) == 0x1_0000_0000 * (q * p);
  }

  lemma LastDigitAt(S: nat, B: nat, a: nat, rem: nat, d: nat, u: nat, p: nat, p': nat, q: nat)
    requires p > 0 && p * p' == 0x2000_0000 && u == 0x1_0000_0000 * p && q * u <= d < q * u + u
    requires B < 0x1_0000_0000 * S && a < 0x1_0000_0000 && rem < 2 * B
    requires d * B <= rem * 0x2000_0000_0000_0000 + 0x8000_0000 * B
    requires 4 * (d * B) >= rem * 0x8000_0000_0000_0000 - rem * a - S * 0x2_0000_0000_0000_0000
    ensures 0 <= rem * p' - q * B + B && rem * p' - q * B < 0x2_0000_0000 * S
  {
    var t := rem * p' - q * B;
    var qub, ub := q * u * B, u * B;
    assert rem * p' * u == rem * (0x1_0000_0000 * (p * p'));
    assert t * u == rem * 0x2000_0000_0000_0000 - qub by {
      assert q * B * u == qub;
      assert t * u == rem * p' * u - q * B * u;
    }
    MulLe(q * u, d, B);
    MulLe(d, q * u + u, B);
    assert (q * u + u) * B == qub + ub;
    MulLe(rem, 2 * B, a);
    MulLe(a, 0x1_0000_0000, 2 * B);
    LastDigitScale(S, B, u, p, t);
  }

  lemma LastDigitScale(S: nat, B: nat, u: nat, p: nat, t: int)
    requires p > 0 && u == 0x1_0000_0000 * p && B < 0x1_0000_0000 * S
    requires t * u + 0x8000_0000 * B >= 0
    requires 4 * (t * u) <= 2 * 0x1_0000_0000 * B + S * 0x2_0000_0000_0000_0000 + 4 * (u * B)
    ensures 0 <= t + B && t < 0x2_0000_0000 * S
  {
    var s := 0x1_0000_0000 * S;
    assert (t + B) * u == t * u + u * B;
    assert (s + s) * u == s * u + s * u;
    MulLe(0x1_0000_0000, u, B);
    MulLe(0x1_0000_0000, u, s);
    MulLt(B, s, u);
    if t + B < 0 {
      MulLe(t + B, -1, u);
    }
    if t >= s + s {
      MulLe(s + s, t, u);
    }
  }

  /** n is the integer nearest N/D, ties to even: the quotient of an IEEE remainder. */
  predicate NearestQuotient(N: int, D: int, n: int) { LeftByNearest(N - n * D, D, n) }

  predicate LeftByNearest(R: int, D: int, n: int) {
    -D <= 2 * R <= D && (2 * R == D || 2 * R == -D ==> n % 2 == 0)
  }

  lemma NearestQuotientsOrdered(N: int, D: int, n: int, m: int)
    requires D > 0 && NearestQuotient(N, D, n) && NearestQuotient(N, D, m)
    ensures n <= m
  {
    if m < n {
      assert (m + 1) * D == m * D + D;
      MulLeCancel(n, m + 1, D);
      assert false;
    }
  }

  /** There is only one such quotient. */
  lemma NearestQuotientUnique(N: int, D: int, n: int, m: int)
    requires D > 0 && NearestQuotient(N, D, n) && NearestQuotient(N, D, m)
    ensures n == m
  {
    NearestQuotientsOrdered(N, D, n, m);
    NearestQuotientsOrdered(N, D, m, n);
  }

  /** Choosing between the two remainders on either side of zero. */
  function Select(rem: int, alt: int, q: int): int {
    if rem + alt < 0 || (rem + alt == 0 && q % 2 == 1) then alt else rem
  }

  /** R is what is left of N when the nearest multiple of D, ties to even, is taken away. */
  ghost predicate IeeeRemainder(N: int, D: int, R: int) {
    exists n: int :: NearestQuotient(N, D, n) && R == N - n * D
  }

  lemma QuotientWitness(N: int, D: int, R: int, n: int)
    requires NearestQuotient(N, D, n) && R == N - n * D
    ensures IeeeRemainder(N, D, R)
  {
  }

  lemma SomeQuotient(N: int, D: int, R: int) returns (n: int)
    requires IeeeRemainder(N, D, R)
    ensures NearestQuotient(N, D, n) && R == N - n * D
  {
    n :| NearestQuotient(N, D, n) && R == N - n * D;
  }

  lemma RemainderIsSmall(N: int, D: int, R: int)
    requires IeeeRemainder(N, D, R)
    ensures -D <= 2 * R <= D
  {
    var n := SomeQuotient(N, D, R);
  }

  lemma SelectIsNearest(N: int, D: int, q: int, rem: int)
    requires D > 0 && -D <= rem < 0 && N == q * D + rem
    ensures IeeeRemainder(N, D, Select(rem, rem + D, q))
  {
    var R := Select(rem, rem + D, q);
    if R == rem {
      QuotientWitness(N, D, R, q);
    } else {
      assert (q - 1) * D == q * D - D;
      QuotientWitness(N, D, R, q - 1);
    }
  }

  lemma ParityOfQuotient(R: int, D: int, n: int, e: int)
    requires LeftByNearest(R, D, n) && e % 2 == 0
    ensures LeftByNearest(R, D, n + e)
  {
  }

  /** An even number of divisors makes no difference. */
  lemma ShiftByEven(N: int, D: int, R: int, e: int)
    requires IeeeRemainder(N, D, R) && e % 2 == 0
    ensures IeeeRemainder(N + e * D, D, R)
  {
    var n := SomeQuotient(N, D, R);
    Distribute(n, e, D);
    ParityOfQuotient(R, D, n, e);
    QuotientWitness(N + e * D, D, R, n + e);
  }

  predicate SameParity(x: int, y: int) { x % 2 == y % 2 }

  /** The 32-bit quotient wraps around, but keeps the parity of the whole one. */
  lemma WrappedIncrement(q: U32, n: nat)
    requires SameParity(q, n)
    ensures SameParity(Wrap32(q + 1), n + 1)
  {
  }

  lemma EvenMultiple(m: int, shift: nat)
    requires shift > 0
    ensures m * Pow2(shift) % 2 == 0
  {
    Assoc(m, Pow2(shift - 1), 2);
  }

  lemma Gather(m: int, B: int, rem: int, p: int)
    ensures (m * B + rem) * p == rem * p + m * p * B
  {
  }

  lemma DigitShift(B: nat, rem: nat, digit: int, rem': nat, m: int, shift: nat)
    requires shift >= 29 && rem' == rem * 0x2000_0000 - digit * B
    ensures (m * B + rem) * Pow2(shift) == ((m * 0x2000_0000 + digit) * B + rem') * Pow2(shift - 29)
  {
    Pow2Add(29, shift - 29);
    Pow2Of29();
    var p := Pow2(shift - 29);
    assert (m * 0x2000_0000 + digit) * B + rem' == (m * B + rem) * 0x2000_0000;
    assert (m * B + rem) * (0x2000_0000 * p) == (m * B + rem) * 0x2000_0000 * p;
  }
}
