/** What a significand must keep of an exact value so that rounding cannot tell them apart. */
module Sticky {
  import opened Arith

  /** sig compares with every multiple of g as num/den does: no rounding to a coarser grid, and no
      test for exactness on it, can distinguish the two. */
  ghost predicate Faithful(g: nat, sig: int, num: int, den: nat) {
    forall m: int :: ComparesAlike(g * m, sig, num, den)
  }

  ghost predicate ComparesAlike(p: int, sig: int, num: int, den: nat) {
    (sig < p <==> num < p * den) && (sig == p <==> num == p * den)
  }

  /** Strictly between two neighbouring multiples. */
  lemma FaithfulBetween(g: nat, M: int, sig: int, num: int, den: nat)
    requires g > 0 && den > 0 && M % g == 0
    requires M < sig < M + g && M * den < num < (M + g) * den
    ensures Faithful(g, sig, num, den)
  {
    DivBounds(M, g);
    var k := M / g;
    forall m: int ensures ComparesAlike(g * m, sig, num, den) {
      assert k * g == M && g * m == m * g && (k + 1) * g == M + g;
      if m <= k {
        MulLe(m, k, g);
        MulLe(g * m, M, den);
      } else {
        MulLe(k + 1, m, g);
        MulLe(M + g, g * m, den);
      }
    }
  }

  /** Exactly on a multiple. */
  lemma FaithfulAt(g: nat, sig: int, num: int, den: nat)
    requires den > 0 && num == sig * den
    ensures Faithful(g, sig, num, den)
  {
    forall m: int ensures ComparesAlike(g * m, sig, num, den) {
      if g * m < sig {
        MulLt(g * m, sig, den);
      } else if sig < g * m {
        MulLt(sig, g * m, den);
      }
    }
  }

  /** Rescaling numerator and denominator changes nothing. */
  lemma FaithfulRescale(g: nat, sig: int, num: int, den: nat, num': int, den': nat, j: nat, k: nat)
    requires Faithful(g, sig, num, den) && j > 0 && k > 0
    requires num * j == num' * k && den * j == den' * k
    ensures Faithful(g, sig, num', den')
  {
    forall m: int ensures ComparesAlike(g * m, sig, num', den') {
      var p := g * m;
      assert ComparesAlike(p, sig, num, den);
      Assoc(p, den, j);
      Assoc(p, den', k);
      SameOrder(num, p * den, j, k, num', p * den');
    }
  }

  lemma SameOrder(x: int, y: int, j: nat, k: nat, x': int, y': int)
    requires j > 0 && k > 0 && x * j == x' * k && y * j == y' * k
    ensures (x < y <==> x' < y') && (x == y <==> x' == y')
  {
    if x < y { MulLt(x, y, j); MulLtCancel(x', y', k); }
    if y < x { MulLt(y, x, j); MulLtCancel(y', x', k); }
    if x' < y' { MulLt(x', y', k); MulLtCancel(x, y, j); }
    if y' < x' { MulLt(y', x', k); MulLtCancel(y, x, j); }
  }

  /** On a coarser grid less is asked. */
  lemma FaithfulCoarser(g: nat, k: nat, sig: int, num: int, den: nat)
    requires Faithful(g, sig, num, den)
    ensures Faithful(g * k, sig, num, den)
  {
    forall m: int ensures ComparesAlike(g * k * m, sig, num, den) {
      Assoc(g, k, m);
      assert ComparesAlike(g * (k * m), sig, num, den);
    }
  }

  /** A left shift doubles significand, grid and value alike. */
  lemma FaithfulDouble(g: nat, sig: int, num: int, den: nat)
    requires Faithful(g, sig, num, 2 * den)
    ensures Faithful(2 * g, 2 * sig, num, den)
  {
    forall m: int ensures ComparesAlike(2 * g * m, 2 * sig, num, den) {
      assert ComparesAlike(g * m, sig, num, 2 * den);
      assert 2 * g * m == 2 * (g * m) && g * m * (2 * den) == 2 * (g * m) * den;
    }
  }
}
