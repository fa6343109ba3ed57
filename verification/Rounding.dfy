/** Rounding of a rational num/den to an integer (section 4.3 of IEEE 754-2019, and round-to-odd). */
module Rounding {
  import opened Arith
  import opened Sticky

  datatype Mode = NearEven | MinMag | Min | Max | NearMaxMag | Odd

  /** Whether num/den goes up to the next integer, from the parity of its floor, whether it is
      exact, and how its fraction compares with one half. */
  predicate Up(mode: Mode, neg: bool, odd: bool, exact: bool, half: int) {
    if exact then false
    else match mode
      case NearEven => half > 0 || (half == 0 && odd)
      case NearMaxMag => half >= 0
      case MinMag => false
      case Min => neg
      case Max => !neg
      case Odd => !odd
  }

  /** The magnitude num/den, carrying the sign neg, rounded to an integer magnitude. */
  function Round(mode: Mode, neg: bool, num: nat, den: nat): nat
    requires den > 0
  {
    var q, r := num / den, num % den;
    if Up(mode, neg, q % 2 == 1, r == 0, 2 * r - den) then q + 1 else q
  }

  /** What each rounding attribute asks of the signed integer z for the signed value x/den. */
  predicate Prescribed(mode: Mode, x: int, den: int, z: int) { Leaves(mode, x >= 0, x - z * den, den, z) }

  /** The same, of what rounding to z leaves: r/den. */
  predicate Leaves(mode: Mode, nonnegative: bool, r: int, den: int, z: int) {
    match mode
      case MinMag => if nonnegative then 0 <= r < den else -den < r <= 0
      case Min => 0 <= r < den
      case Max => -den < r <= 0
      case Odd => r == 0 || (z % 2 == 1 && -den < r < den)
      case NearEven => -den <= 2 * r <= den && (2 * r == den || 2 * r == -den ==> z % 2 == 0)
      case NearMaxMag => -den <= 2 * r <= den && (2 * r == den || 2 * r == -den ==> (nonnegative <==> r < 0))
  }

  function Signed(neg: bool, m: int): int { if neg then -m else m }

  lemma SignedTimes(neg: bool, q: int, den: int)
    ensures Signed(neg, q) * den == Signed(neg, q * den)
  {
  }

  /** Round delivers what the mode prescribes. */
  lemma RoundIsPrescribed(mode: Mode, neg: bool, num: nat, den: nat)
    requires den > 0
    ensures Prescribed(mode, Signed(neg, num), den, Signed(neg, Round(mode, neg, num, den)))
  {
    var q := Floor(num, den);
    DivIs(num, den, q);
    OneMore(q, den);
    SignedTimes(neg, q, den);
    SignedTimes(neg, q + 1, den);
    UpIsAllowed(mode, neg, num, num - q * den, den, q);
  }

  lemma UpIsAllowed(mode: Mode, neg: bool, num: nat, r: nat, den: nat, q: nat)
    requires r < den && r <= num && (num == 0 || r > 0 || q > 0)
    ensures var up := Up(mode, neg, q % 2 == 1, r == 0, 2 * r - den);
            Leaves(mode, Signed(neg, num) >= 0, Signed(neg, if up then r - den else r), den,
                Signed(neg, if up then q + 1 else q))
  {
  }

  /** And nothing else does. */
  lemma PrescribedIsUnique(mode: Mode, x: int, den: int, y: int, z: int)
    requires den > 0 && Prescribed(mode, x, den, y) && Prescribed(mode, x, den, z)
    ensures y == z
  {
    PrescribedInOrder(mode, x, den, y, z);
    PrescribedInOrder(mode, x, den, z, y);
  }

  lemma PrescribedInOrder(mode: Mode, x: int, den: int, y: int, z: int)
    requires den > 0 && Prescribed(mode, x, den, y) && Prescribed(mode, x, den, z)
    ensures z <= y
  {
    if y < z {
      OneMore(y, den);
      MulLe(y + 1, z, den);
      if z > y + 1 {
        OneMore(y + 1, den);
        MulLe(y + 2, z, den);
      }
      assert false;
    }
  }

  /** Exactly representable values stay put. */
  lemma RoundExact(mode: Mode, neg: bool, k: nat, den: nat)
    requires den > 0
    ensures Round(mode, neg, k * den, den) == k
  {
    DivIs(k * den, den, k);
  }

  /** An even number of whole units can be added before or after. */
  lemma RoundShift(mode: Mode, neg: bool, num: nat, den: nat, k: nat)
    requires den > 0 && k % 2 == 0
    ensures Round(mode, neg, num + k * den, den) == Round(mode, neg, num, den) + k
  {
    var q := Floor(num, den);
    DivIs(num, den, q);
    Distribute(q, k, den);
    DivIs(num + k * den, den, q + k);
  }

  /** Two fractions with the same floor, on the same side of its integer and of the half above it,
      round alike. */
  predicate SameCell(num: nat, den: nat, num': nat, den': nat, q: nat) {
    var r, r' := num - q * den, num' - q * den';
    && 0 <= r < den && 0 <= r' < den' && (r == 0 <==> r' == 0)
    && (2 * r < den <==> 2 * r' < den') && (2 * r == den <==> 2 * r' == den')
  }

  lemma RoundInCell(mode: Mode, neg: bool, num: nat, den: nat, num': nat, den': nat, q: nat)
    requires SameCell(num, den, num', den', q)
    ensures den > 0 && den' > 0 && Round(mode, neg, num, den) == Round(mode, neg, num', den')
    ensures num % den == 0 <==> num' % den' == 0
  {
    DivIs(num, den, q);
    DivIs(num', den', q);
  }

  /** Only the ratio matters. */
  lemma RoundScale(mode: Mode, neg: bool, num: nat, den: nat, k: nat)
    requires den > 0 && k > 0
    ensures den * k > 0 && Round(mode, neg, num * k, den * k) == Round(mode, neg, num, den)
    ensures num % den == 0 <==> num * k % (den * k) == 0
  {
    DivBounds(num, den);
    var q, r := num / den, num % den;
    ScaleParts(num, den, q, r, k);
    ScaleOrder(r, den, k);
    RoundInCell(mode, neg, num, den, num * k, den * k, q);
  }

  lemma ScaleOrder(r: nat, den: nat, k: nat)
    requires r < den && k > 0
    ensures r * k < den * k && (r == 0 <==> r * k == 0)
    ensures (2 * r < den <==> 2 * (r * k) < den * k) && (2 * r == den <==> 2 * (r * k) == den * k)
  {
    MulLt(r, den, k);
    if 2 * r < den { MulLt(2 * r, den, k); }
    if den < 2 * r { MulLt(den, 2 * r, k); }
    Assoc(2, r, k);
    if r > 0 { MulLt(0, r, k); }
  }

  lemma ScaleParts(num: nat, den: nat, q: nat, r: nat, k: nat)
    requires num == q * den + r
    ensures num * k == q * (den * k) + r * k
  {
    assert (q * den + r) * k == q * den * k + r * k;
    Assoc(q, den, k);
  }

  /** A significand that is faithful on half units rounds as the exact value does. */
  lemma RoundFaithful(mode: Mode, neg: bool, g: nat, sig: nat, num: nat, den: nat, G: nat, D: nat)
    requires g > 0 && den > 0 && Faithful(g, sig, num, den) && G == 2 * g && D == den * G
    ensures D > 0 && Round(mode, neg, sig, G) == Round(mode, neg, num, D)
    ensures sig % G == 0 <==> num % D == 0
  {
    var q := Floor(sig, G);
    FaithfulCell(g, sig, num, den, G, D, q);
    RoundInCell(mode, neg, sig, G, num, D, q);
  }

  lemma FaithfulCell(g: nat, sig: nat, num: nat, den: nat, G: nat, D: nat, q: nat)
    requires Faithful(g, sig, num, den) && G == 2 * g && D == den * G && q * G <= sig < q * G + G
    ensures SameCell(sig, G, num, D, q)
  {
    var u := den * g;
    Assoc(den, 2, g);
    Assoc(2, den, g);
    FaithfulHalf(g, sig, num, den, 2 * q);
    FaithfulHalf(g, sig, num, den, 2 * q + 1);
    FaithfulHalf(g, sig, num, den, 2 * q + 2);
    CellOfHalves(g, sig, num, u, q);
  }

  lemma CellOfHalves(g: nat, sig: nat, num: nat, u: nat, q: nat)
    requires sig < 2 * q * g <==> num < 2 * q * u
    requires sig == 2 * q * g <==> num == 2 * q * u
    requires sig < (2 * q + 1) * g <==> num < (2 * q + 1) * u
    requires sig == (2 * q + 1) * g <==> num == (2 * q + 1) * u
    requires sig < (2 * q + 2) * g <==> num < (2 * q + 2) * u
    requires q * (2 * g) <= sig < q * (2 * g) + 2 * g
    ensures SameCell(sig, 2 * g, num, 2 * u, q)
  {
    HalfUnits(q, g);
    HalfUnits(q, u);
    InCell(sig, g, q * (2 * g), num, u, q * (2 * u));
  }

  lemma InCell(sig: nat, g: nat, c: nat, num: nat, u: nat, c': nat)
    requires c <= sig < c + 2 * g
    requires (sig < c <==> num < c') && (sig == c <==> num == c')
    requires (sig < c + g <==> num < c' + u) && (sig == c + g <==> num == c' + u)
    requires sig < c + 2 * g <==> num < c' + 2 * u
    ensures var r, r' := sig - c, num - c';
            && 0 <= r < 2 * g && 0 <= r' < 2 * u && (r == 0 <==> r' == 0)
            && (2 * r < 2 * g <==> 2 * r' < 2 * u) && (2 * r == 2 * g <==> 2 * r' == 2 * u)
  {
  }

  lemma FaithfulHalf(g: nat, sig: nat, num: nat, den: nat, m: nat)
    requires Faithful(g, sig, num, den)
    ensures sig < m * g <==> num < m * (den * g)
    ensures sig == m * g <==> num == m * (den * g)
  {
    assert ComparesAlike(g * m, sig, num, den);
    assert g * m * den == m * (den * g);
  }

  lemma HalfUnits(q: nat, u: nat)
    ensures 2 * q * u == q * (2 * u) && (2 * q + 1) * u == q * (2 * u) + u && (2 * q + 2) * u == q * (2 * u) + 2 * u
  {
  }
}
