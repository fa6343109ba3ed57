/** The packing helpers for 64- and 32-bit formats: one algorithm, its constants, and the proof that
    it rounds correctly with the right exceptions. */
module RoundPack {
  import opened Arith
  import opened Encoding
  import opened Sticky
  import opened Rounding

  /** The weight of the hidden bit, half a unit in the last place of a significand to be packed,
      the exponent field of infinities, and the word width. */
  datatype Format = Format(hidden: nat, half: nat, top: nat, width: nat)

  const F64: Format := Format(0x10_0000_0000_0000, 0x200, 0x7FF, 64)
  const F32: Format := Format(0x80_0000, 0x40, 0xFF, 32)

  predicate WellFormed(fmt: Format) {
    && fmt.hidden > 0 && fmt.hidden % 2 == 0 && fmt.half > 0 && fmt.half % 2 == 0 && fmt.top > 2 && fmt.width > 1
    && Pow2(fmt.width) == 8 * (fmt.hidden * fmt.half)
  }

  /** An encoding and the exceptions raised with it. */
  datatype Packed = Packed(sign: bool, raw: nat, inexact: bool, overflow: bool, underflow: bool)

  /** v is num/den units rounded to the format's precision, or to whole units when it is smaller
      than that; e is the exponent of the last place kept. */
  ghost predicate IsRounding(hidden: nat, mode: Mode, neg: bool, num: nat, den: nat, e: nat, v: nat) {
    var d := den * Pow2(e);
    && d > 0 && (e == 0 || hidden * d <= num) && num < 2 * (hidden * d)
    && v == Round(mode, neg, num, d) * Pow2(e)
  }

  /** The first power of two too large for the format. */
  ghost function Limit(hidden: nat, top: nat): nat
    requires top > 1
  {
    2 * hidden * Pow2(top - 2)
  }

  /** Below the smallest normal number: before rounding, or after rounding as if the exponent
      could go lower (to half units, which is all that decides it). */
  ghost predicate Tiny(hidden: nat, mode: Mode, before: bool, neg: bool, num: nat, den: nat)
    requires den > 0
  {
    if before then num < hidden * den else Round(mode, neg, 2 * num, den) < 2 * hidden
  }

  /** Overflow goes to infinity unless the mode rounds toward zero (or to odd). */
  predicate ToInfinity(mode: Mode, neg: bool) {
    mode.NearEven? || mode.NearMaxMag? || (if neg then mode.Min? else mode.Max?)
  }

  /** Infinity or the largest finite number, as the mode says, with overflow and inexact. */
  function Overflowed(fmt: Format, mode: Mode, sign: bool): Packed
    requires WellFormed(fmt)
  {
    MulLe(1, fmt.top, fmt.hidden);
    var infinity := fmt.top * fmt.hidden;
    Packed(sign, if ToInfinity(mode, sign) then infinity else infinity - 1, true, true, false)
  }

  ghost predicate Rounded(hidden: nat, top: nat, mode: Mode, before: bool, neg: bool, num: nat, den: nat, e: nat,
                          v: nat,
                          z: Packed)
    requires den > 0 && top > 1 && hidden > 0
  {
    var infinity := top * hidden;
    && IsRounding(hidden, mode, neg, num, den, e, v)
    && z.sign == neg
    && (z.overflow <==> v >= Limit(hidden, top))
    && (z.overflow ==> z.inexact && z.raw == (if ToInfinity(mode, neg) then infinity else infinity - 1))
    && (!z.overflow ==> EncodedValue(hidden, z.raw) == v && (z.inexact <==> num % (den * Pow2(e)) != 0))
    && (z.underflow <==> z.inexact && Tiny(hidden, mode, before, neg, num, den))
  }

  /** The result and exceptions that IEEE 754-2019 asks for when the exact result is num/den units
      (sections 4.3, 7.4, 7.5 and 7.6), in a format with this hidden bit and exponent field of infinities. */
  ghost predicate CorrectlyRounded(hidden: nat, top: nat, mode: Mode, before: bool, neg: bool, num: nat, den: nat,
                                   z: Packed)
    requires den > 0 && top > 1 && hidden > 0
  {
    exists e: nat, v: nat :: Rounded(hidden, top, mode, before, neg, num, den, e, v, z)
  }

  /** Sets the last bit if something was lost below it. */
  function SetLast(x: nat, lost: bool): nat { if lost && x % 2 == 0 then x + 1 else x }

  /** Shifting right, with the bits lost gathered into the last one. */
  function Jam(a: nat, P: nat): nat
    requires P > 0
  {
    SetLast(a / P, a % P != 0)
  }

  /** Against even numbers, the jammed word compares as the whole one does. */
  lemma JamCompares(a: nat, P: nat, p: int)
    requires P > 0 && p % 2 == 0
    ensures Jam(a, P) < p <==> a < p * P
    ensures Jam(a, P) == p <==> a == p * P
  {
    var q := a / P;
    DivBounds(a, P);
    if p <= q { MulLe(p, q, P); }
    if p < q { MulLt(p, q, P); }
    if p >= q + 1 {
      MulLe(q + 1, p, P);
      OneMore(q, P);
    }
  }

  /** The library's form of it: distances beyond the word leave only the sticky bit. */
  function ShiftRightJam(width: nat, a: nat, dist: nat): nat
    requires width > 0
  {
    if dist < width - 1 then Jam(a, Pow2(dist)) else if a != 0 then 1 else 0
  }

  lemma ShiftRightJamIsJam(width: nat, a: nat, dist: nat)
    requires width > 0 && a < Pow2(width)
    ensures ShiftRightJam(width, a, dist) == Jam(a, Pow2(dist))
  {
    if dist >= width - 1 {
      Pow2Le(width - 1, dist);
      var q := if a < Pow2(dist) then 0 else 1;
      DivIs(a, Pow2(dist), q);
    }
  }

  /** sig, in units of 2^exp / (2*half), can stand for num/den. */
  ghost predicate StandsIn(half: nat, exp: int, sig: nat, num: nat, den: nat) {
    if exp >= 0 then Faithful(half, sig, num * (2 * half), den * Pow2(exp))
    else Faithful(half, sig, num * (2 * half) * Pow2(0 - exp), den)
  }

  lemma JamFaithful(half: nat, sig: nat, P: nat, num: nat, den: nat)
    requires half > 0 && half % 2 == 0 && P > 0 && den > 0 && Faithful(half, sig, num * P, den)
    ensures Faithful(half, Jam(sig, P), num, den)
  {
    forall m: int ensures ComparesAlike(half * m, Jam(sig, P), num, den) {
      EvenTimes(half, m);
      JamCompares(sig, P, half * m);
      Assoc(half, m, P);
      assert ComparesAlike(half * (m * P), sig, num * P, den);
      SameScaled(num, half * m, den, P);
    }
  }

  lemma SameScaled(num: int, x: int, den: nat, P: nat)
    requires P > 0
    ensures num * P < x * P * den <==> num < x * den
    ensures num * P == x * P * den <==> num == x * den
  {
    Assoc(x, P, den);
    Assoc(x, den, P);
    SameOrder(num, x * den, P, 1, num * P, x * den * P);
  }

  lemma EvenTimes(half: nat, m: int)
    requires half % 2 == 0
    ensures half * m % 2 == 0
  {
    assert half * m == half / 2 * m * 2;
  }

  function Increment(mode: Mode, neg: bool, half: nat): (inc: nat)
    requires half > 0
    ensures inc < 2 * half
  {
    if mode.NearEven? || mode.NearMaxMag? then half
    else if mode == (if neg then Min else Max) then 2 * half - 1
    else 0
  }

  /** Adding the increment, dropping the round bits and repairing the last bit is Round. */
  method RoundSig(mode: Mode, neg: bool, half: nat, sig: nat) returns (r: nat)
    requires half > 0
    ensures r == Round(mode, neg, sig, 2 * half)
  {
    ghost var q, rest := Parts(mode, neg, half, sig);
    var roundBits := sig % (2 * half);
    r := (sig + Increment(mode, neg, half)) / (2 * half);
    if roundBits != 0 {
      if mode.Odd? {
        return if r % 2 == 0 then r + 1 else r;
      }
    }
    if roundBits == half && mode.NearEven? {
      r := r - r % 2;
    }
  }

  lemma Parts(mode: Mode, neg: bool, half: nat, sig: nat) returns (q: nat, rest: nat)
    requires half > 0
    ensures sig == q * (2 * half) + rest && sig % (2 * half) == rest < 2 * half
    ensures (sig + Increment(mode, neg, half)) / (2 * half)
            == if rest + Increment(mode, neg, half) >= 2 * half then q + 1 else q
    ensures Round(mode, neg, sig, 2 * half)
            == if Up(mode, neg, q % 2 == 1, rest == 0, 2 * rest - 2 * half) then q + 1 else q
  {
    q := Floor(sig, 2 * half);
    rest := sig - q * (2 * half);
    DivIs(sig, 2 * half, q);
    OneMore(q, 2 * half);
    var sum := sig + Increment(mode, neg, half);
    DivIs(sum, 2 * half, if rest + Increment(mode, neg, half) >= 2 * half then q + 1 else q);
  }

  /** The carry into the next power of two can be told from the incremented word. */
  lemma CarryOut(mode: Mode, neg: bool, half: nat, sig: nat, top: nat)
    requires half > 0 && top % 2 == 0 && sig < top * (2 * half)
    ensures Round(mode, neg, sig, 2 * half) <= top
    ensures sig + Increment(mode, neg, half) >= top * (2 * half) <==> Round(mode, neg, sig, 2 * half) == top
  {
    var q, rest := Parts(mode, neg, half, sig);
    LastBelow(q, rest, top, 2 * half);
    UpNeedsRoom(mode, neg, half, q, rest, top);
  }

  lemma LastBelow(q: nat, rest: nat, top: nat, G: nat)
    requires q * G + rest < top * G && rest < G
    ensures q < top && (q + 1 == top ==> top * G == q * G + G) && (q + 1 < top ==> top * G >= q * G + 2 * G)
  {
    MulLtCancel(q, top, G);
    OneMore(q, G);
    if q + 1 < top {
      MulLe(q + 2, top, G);
    }
  }

  lemma UpNeedsRoom(mode: Mode, neg: bool, half: nat, q: nat, rest: nat, top: nat)
    requires half > 0 && top % 2 == 0 && rest < 2 * half
    ensures q + 1 == top ==>
      (Up(mode, neg, q % 2 == 1, rest == 0, 2 * rest - 2 * half) <==> rest + Increment(mode, neg, half) >= 2 * half)
  {
  }

  /** What a significand that stands in for num/den says about it. */
  lemma StandInRounds(hidden: nat, half: nat, mode: Mode, neg: bool, sig: nat, num: nat, den: nat, d: nat)
    requires half > 0 && d > 0 && Faithful(half, sig, num * (2 * half), d)
    ensures Round(mode, neg, sig, 2 * half) == Round(mode, neg, num, d)
    ensures sig % (2 * half) == 0 <==> num % d == 0
  {
    var G := 2 * half;
    MulLt(0, d, G);
    RoundFaithful(mode, neg, half, sig, num * G, d, G, d * G);
    RoundScale(mode, neg, num, d, G);
  }

  lemma StandInBound(half: nat, sig: nat, num: nat, d: nat, k: nat)
    requires half > 0 && Faithful(half, sig, num * (2 * half), d)
    ensures sig < k * (2 * half) <==> num < k * d
  {
    FaithfulHalf(half, sig, num * (2 * half), d, 2 * k);
    assert 2 * k * half == k * (2 * half);
    assert 2 * k * (d * half) == k * d * (2 * half);
    if num < k * d { MulLt(num, k * d, 2 * half); } else { MulLe(k * d, num, 2 * half); }
  }

  /** Exponent not negative: the value is not tiny, and the last place kept is 2^exp. */
  lemma NormalRange(fmt: Format, mode: Mode, neg: bool, e: nat, sig: nat, num: nat, den: nat)
    requires WellFormed(fmt) && den > 0 && StandsIn(fmt.half, e, sig, num, den)
    requires fmt.hidden * (2 * fmt.half) <= sig < 2 * fmt.hidden * (2 * fmt.half)
    ensures var s, d := Round(mode, neg, sig, 2 * fmt.half), den * Pow2(e);
            && fmt.hidden <= s <= 2 * fmt.hidden
            && IsRounding(fmt.hidden, mode, neg, num, den, e, s * Pow2(e))
            && fmt.hidden * d <= num && (sig % (2 * fmt.half) == 0 <==> num % d == 0)
  {
    MulLt(0, den, Pow2(e));
    FullSignificand(fmt.hidden, fmt.half, mode, neg, sig, num, den * Pow2(e));
  }

  lemma FullSignificand(hidden: nat, half: nat, mode: Mode, neg: bool, sig: nat, num: nat, d: nat)
    requires half > 0 && d > 0 && Faithful(half, sig, num * (2 * half), d)
    requires hidden * (2 * half) <= sig < 2 * hidden * (2 * half)
    ensures var s := Round(mode, neg, sig, 2 * half);
            && hidden <= s <= 2 * hidden && hidden * d <= num < 2 * (hidden * d)
            && s == Round(mode, neg, num, d) && (sig % (2 * half) == 0 <==> num % d == 0)
  {
    StandInRounds(hidden, half, mode, neg, sig, num, d, d);
    StandInBound(half, sig, num, d, hidden);
    StandInBound(half, sig, num, d, 2 * hidden);
    Assoc(2, hidden, d);
    CarryOut(mode, neg, half, sig, 2 * hidden);
    RoundAtLeast(mode, neg, sig, 2 * half, hidden);
  }

  lemma RoundAtLeast(mode: Mode, neg: bool, num: nat, den: nat, k: nat)
    requires den > 0 && k * den <= num
    ensures Round(mode, neg, num, den) >= k
  {
    var q := Floor(num, den);
    DivIs(num, den, q);
    if q < k { MulLe(q + 1, k, den); OneMore(q, den); }
  }

  lemma NotTiny(hidden: nat, mode: Mode, before: bool, neg: bool, num: nat, den: nat, p: nat)
    requires den > 0 && p > 0 && hidden * (den * p) <= num
    ensures !Tiny(hidden, mode, before, neg, num, den)
  {
    MulLe(1, p, den);
    MulLe(den, den * p, hidden);
    Assoc(2, hidden, den);
    RoundAtLeast(mode, neg, 2 * num, den, 2 * hidden);
  }

  /** Negative exponent: what is left after the shift is below the smallest normal number. */
  lemma SubnormalRange(fmt: Format, mode: Mode, neg: bool, sig: nat, num: nat, den: nat)
    requires WellFormed(fmt) && den > 0 && StandsIn(fmt.half, 0, sig, num, den)
    requires sig < fmt.hidden * (2 * fmt.half)
    ensures var s := Round(mode, neg, sig, 2 * fmt.half);
            && s <= fmt.hidden && num < fmt.hidden * den
            && IsRounding(fmt.hidden, mode, neg, num, den, 0, s)
            && (sig % (2 * fmt.half) == 0 <==> num % den == 0)
  {
    var hidden, half := fmt.hidden, fmt.half;
    StandInRounds(hidden, half, mode, neg, sig, num, den, den);
    StandInBound(half, sig, num, den, hidden);
    CarryOut(mode, neg, half, sig, hidden);
    assert den * Pow2(0) == den;
  }

  /** The helper's test for tininess is the definition. */
  lemma TinyTest(fmt: Format, mode: Mode, before: bool, neg: bool, n: nat, sig: nat, num: nat, den: nat)
    requires WellFormed(fmt) && den > 0 && n > 0 && StandsIn(fmt.half, 0 - n, sig, num, den)
    requires sig < 2 * fmt.hidden * (2 * fmt.half)
    ensures (before || n > 1 || sig + Increment(mode, neg, fmt.half) < 2 * fmt.hidden * (2 * fmt.half))
            <==> Tiny(fmt.hidden, mode, before, neg, num, den)
  {
    Swap(num, 2 * fmt.half, Pow2(n));
    if n == 1 {
      assert num * Pow2(1) == 2 * num;
      OneBelow(2 * fmt.hidden, fmt.half, mode, neg, sig, num, den);
      Assoc(2, fmt.hidden, den);
    } else {
      StandInBound(fmt.half, sig, num * Pow2(n), den, 2 * fmt.hidden);
      Assoc(2, fmt.hidden, den);
      FarBelowIsTiny(mode, neg, n, num, den, fmt.hidden);
    }
  }

  lemma OneBelow(limit: nat, half: nat, mode: Mode, neg: bool, sig: nat, num: nat, den: nat)
    requires half > 0 && den > 0 && limit % 2 == 0 && Faithful(half, sig, 2 * num * (2 * half), den)
    requires sig < limit * (2 * half)
    ensures 2 * num < limit * den
    ensures sig + Increment(mode, neg, half) < limit * (2 * half) <==> Round(mode, neg, 2 * num, den) < limit
  {
    StandInBound(half, sig, 2 * num, den, limit);
    StandInRounds(limit, half, mode, neg, sig, 2 * num, den, den);
    CarryOut(mode, neg, half, sig, limit);
  }

  lemma FarBelowIsTiny(mode: Mode, neg: bool, n: nat, num: nat, den: nat, hidden: nat)
    requires n > 1 && num * Pow2(n) < 2 * (hidden * den) && hidden > 0
    ensures den > 0 && num < hidden * den && Round(mode, neg, 2 * num, den) < 2 * hidden
  {
    Pow2Le(2, n);
    MulLe(4, Pow2(n), num);
    BelowIsTiny(mode, neg, 2 * num, den, hidden);
  }

  lemma Swap(num: nat, g: nat, p: nat)
    ensures num * g * p == num * p * g
  {
  }

  lemma BelowIsTiny(mode: Mode, neg: bool, num: nat, den: nat, k: nat)
    requires num < k * den && k > 0
    ensures den > 0 && Round(mode, neg, num, den) < 2 * k
  {
    var q := Floor(num, den);
    DivIs(num, den, q);
    MulLtCancel(q, k, den);
  }

  lemma OverflowIs(fmt: Format, mode: Mode, before: bool, neg: bool, e: nat, sig: nat, num: nat, den: nat, z: Packed)
    requires WellFormed(fmt) && den > 0 && StandsIn(fmt.half, e, sig, num, den)
    requires fmt.hidden * (2 * fmt.half) <= sig < 2 * fmt.hidden * (2 * fmt.half)
    requires fmt.top - 2 < e
             || (fmt.top - 2 == e && 2 * fmt.hidden * (2 * fmt.half) <= sig + Increment(mode, neg, fmt.half))
    requires z == Overflowed(fmt, mode, neg)
    ensures CorrectlyRounded(fmt.hidden, fmt.top, mode, before, neg, num, den, z)
  {
    var v := Round(mode, neg, sig, 2 * fmt.half) * Pow2(e);
    NormalRange(fmt, mode, neg, e, sig, num, den);
    NotTiny(fmt.hidden, mode, before, neg, num, den, Pow2(e));
    OverflowReached(fmt, mode, neg, e, sig);
    OverflowWitness(fmt, mode, before, neg, num, den, e, v, z);
  }

  lemma OverflowReached(fmt: Format, mode: Mode, neg: bool, e: nat, sig: nat)
    requires WellFormed(fmt) && fmt.hidden * (2 * fmt.half) <= sig < 2 * fmt.hidden * (2 * fmt.half)
    requires fmt.top - 2 < e
             || (fmt.top - 2 == e && 2 * fmt.hidden * (2 * fmt.half) <= sig + Increment(mode, neg, fmt.half))
    ensures Round(mode, neg, sig, 2 * fmt.half) * Pow2(e) >= Limit(fmt.hidden, fmt.top)
  {
    CarryOut(mode, neg, fmt.half, sig, 2 * fmt.hidden);
    RoundAtLeast(mode, neg, sig, 2 * fmt.half, fmt.hidden);
    ReachesLimit(fmt.hidden, Round(mode, neg, sig, 2 * fmt.half), fmt.top - 2, e);
  }

  lemma OverflowWitness(fmt: Format, mode: Mode, before: bool, neg: bool, num: nat, den: nat, e: nat, v: nat, z: Packed)
    requires WellFormed(fmt) && den > 0 && IsRounding(fmt.hidden, mode, neg, num, den, e, v)
    requires v >= Limit(fmt.hidden, fmt.top) && !Tiny(fmt.hidden, mode, before, neg, num, den)
    requires z == Overflowed(fmt, mode, neg)
    ensures CorrectlyRounded(fmt.hidden, fmt.top, mode, before, neg, num, den, z)
  {
    Witness(fmt, mode, before, neg, num, den, e, v, z);
  }

  lemma ReachesLimit(hidden: nat, s: nat, k: nat, e: nat)
    requires hidden <= s && (k < e || (k == e && s == 2 * hidden))
    ensures 2 * hidden * Pow2(k) <= s * Pow2(e)
  {
    if k < e {
      Pow2Lt(k, e);
      MulLe(2 * Pow2(k), Pow2(e), hidden);
      MulLe(hidden, s, Pow2(e));
    }
  }

  lemma Witness(fmt: Format, mode: Mode, before: bool, neg: bool, num: nat, den: nat, e: nat, v: nat, z: Packed)
    requires den > 0 && fmt.top > 1 && fmt.hidden > 0
             && Rounded(fmt.hidden, fmt.top, mode, before, neg, num, den, e, v, z)
    ensures CorrectlyRounded(fmt.hidden, fmt.top, mode, before, neg, num, den, z)
  {
  }

  /** The common tail: round, then add the exponent; a zero loses its exponent. */
  method RoundAndPack(fmt: Format, mode: Mode, neg: bool, exp: nat, sig: nat, underflow: bool) returns (z: Packed)
    requires WellFormed(fmt)
    requires exp > 0 ==> sig == 0 || fmt.hidden * (2 * fmt.half) <= sig
    ensures var raw := (if sig == 0 then 0 else exp * fmt.hidden) + Round(mode, neg, sig, 2 * fmt.half);
            z == Packed(neg, raw, sig % (2 * fmt.half) != 0, false, underflow)
    ensures sig == 0 ==> z == Packed(neg, 0, false, false, underflow)
  {
    var r := RoundSig(mode, neg, fmt.half, sig);
    var roundBits := sig % (2 * fmt.half);
    RoundsToZero(fmt, mode, neg, exp, sig);
    z := Packed(neg, (if r == 0 then 0 else exp) * fmt.hidden + r, roundBits != 0, false, underflow);
  }

  lemma RoundsToZero(fmt: Format, mode: Mode, neg: bool, exp: nat, sig: nat)
    requires WellFormed(fmt) && (exp > 0 ==> sig == 0 || fmt.hidden * (2 * fmt.half) <= sig)
    ensures sig == 0 ==> Round(mode, neg, sig, 2 * fmt.half) == 0 && sig % (2 * fmt.half) == 0
    ensures exp > 0 && sig > 0 ==> Round(mode, neg, sig, 2 * fmt.half) > 0
  {
    if sig == 0 {
      DivIs(0, 2 * fmt.half, 0);
    } else if exp > 0 {
      RoundAtLeast(mode, neg, sig, 2 * fmt.half, fmt.hidden);
    }
  }

  lemma NormalIs(fmt: Format, mode: Mode, before: bool, neg: bool, e: nat, sig: nat, num: nat, den: nat, z: Packed)
    requires WellFormed(fmt) && den > 0 && StandsIn(fmt.half, e, sig, num, den)
    requires fmt.hidden * (2 * fmt.half) <= sig < 2 * fmt.hidden * (2 * fmt.half)
    requires e < fmt.top - 2
             || (e == fmt.top - 2 && sig + Increment(mode, neg, fmt.half) < 2 * fmt.hidden * (2 * fmt.half))
    requires z == Packed(neg, e * fmt.hidden + Round(mode, neg, sig, 2 * fmt.half), sig % (2 * fmt.half) != 0, false,
             false)
    ensures CorrectlyRounded(fmt.hidden, fmt.top, mode, before, neg, num, den, z)
  {
    var hidden := fmt.hidden;
    var s := Round(mode, neg, sig, 2 * fmt.half);
    NormalRange(fmt, mode, neg, e, sig, num, den);
    NotTiny(hidden, mode, before, neg, num, den, Pow2(e));
    EncodedAt(hidden, e, s, z.raw);
    BelowLimit(fmt, mode, neg, e, sig);
    NormalWitness(fmt, mode, before, neg, num, den, e, s * Pow2(e), z);
  }

  lemma BelowLimit(fmt: Format, mode: Mode, neg: bool, e: nat, sig: nat)
    requires WellFormed(fmt) && sig < 2 * fmt.hidden * (2 * fmt.half)
    requires e < fmt.top - 2
             || (e == fmt.top - 2 && sig + Increment(mode, neg, fmt.half) < 2 * fmt.hidden * (2 * fmt.half))
    ensures Round(mode, neg, sig, 2 * fmt.half) * Pow2(e) < Limit(fmt.hidden, fmt.top)
  {
    CarryOut(mode, neg, fmt.half, sig, 2 * fmt.hidden);
    if e < fmt.top - 2 { Pow2Lt(e, fmt.top - 2); }
    Below(fmt.hidden, Round(mode, neg, sig, 2 * fmt.half), Pow2(e), Pow2(fmt.top - 2));
  }

  lemma NormalWitness(fmt: Format, mode: Mode, before: bool, neg: bool, num: nat, den: nat, e: nat, v: nat, z: Packed)
    requires WellFormed(fmt) && den > 0 && IsRounding(fmt.hidden, mode, neg, num, den, e, v)
    requires v < Limit(fmt.hidden, fmt.top) && !Tiny(fmt.hidden, mode, before, neg, num, den)
    requires z.sign == neg && !z.overflow && !z.underflow && EncodedValue(fmt.hidden, z.raw) == v
    requires z.inexact <==> num % (den * Pow2(e)) != 0
    ensures CorrectlyRounded(fmt.hidden, fmt.top, mode, before, neg, num, den, z)
  {
    Witness(fmt, mode, before, neg, num, den, e, v, z);
  }

  lemma Below(hidden: nat, s: nat, p: nat, q: nat)
    requires p > 0 && s <= 2 * hidden && ((s < 2 * hidden && p <= q) || (hidden > 0 && 2 * p <= q))
    ensures s * p < 2 * hidden * q
  {
    MulLe(s, 2 * hidden, p);
    if s < 2 * hidden { MulLt(s, 2 * hidden, p); }
    MulLe(p, q, 2 * hidden);
    if 2 * p <= q && hidden > 0 { MulLt(p, q, 2 * hidden); }
  }

  lemma SubnormalIs(fmt: Format, mode: Mode, before: bool, neg: bool, sig: nat, num: nat, den: nat, z: Packed)
    requires WellFormed(fmt) && den > 0 && StandsIn(fmt.half, 0, sig, num, den)
    requires sig < fmt.hidden * (2 * fmt.half)
    requires z.sign == neg && z.raw == Round(mode, neg, sig, 2 * fmt.half) && !z.overflow
    requires z.inexact == (sig % (2 * fmt.half) != 0)
             && z.underflow == (z.inexact && Tiny(fmt.hidden, mode, before, neg, num, den))
    ensures CorrectlyRounded(fmt.hidden, fmt.top, mode, before, neg, num, den, z)
  {
    SubnormalRange(fmt, mode, neg, sig, num, den);
    EncodedSmall(fmt.hidden, z.raw);
    Below(fmt.hidden, z.raw, 1, Pow2(fmt.top - 2));
    Witness(fmt, mode, before, neg, num, den, 0, z.raw, z);
  }

  lemma JamIsSmall(hidden: nat, half: nat, sig: nat, P: nat)
    requires P >= 2 && hidden > 0 && half > 0 && sig < 2 * hidden * (2 * half)
    ensures Jam(sig, P) < hidden * (2 * half)
  {
    var x := hidden * (2 * half);
    assert x == hidden * half * 2;
    JamCompares(sig, P, x);
    MulLe(2, P, x);
  }

  /** A negative exponent: the significand is shifted down to the subnormal position first. */
  method PackTiny(fmt: Format, mode: Mode, before: bool, sign: bool, exp: int, sig: nat, ghost num: nat,
                  ghost den: nat) returns (z: Packed)
    requires WellFormed(fmt) && den > 0 && exp < 0 && StandsIn(fmt.half, exp, sig, num, den)
    requires sig < 2 * fmt.hidden * (2 * fmt.half)
    ensures CorrectlyRounded(fmt.hidden, fmt.top, mode, before, sign, num, den, z)
  {
    var isTiny := before || exp < -1 || sig + Increment(mode, sign, fmt.half) < 2 * fmt.hidden * (2 * fmt.half);
    var n: nat := 0 - exp;
    TinyTest(fmt, mode, before, sign, n, sig, num, den);
    Shifted(fmt, sig, n, num, den);
    var shifted := ShiftRightJam(fmt.width, sig, n);
    var roundBits := shifted % (2 * fmt.half);
    z := RoundAndPack(fmt, mode, sign, 0, shifted, isTiny && roundBits != 0);
    SubnormalIs(fmt, mode, before, sign, shifted, num, den, z);
  }

  lemma Shifted(fmt: Format, sig: nat, n: nat, num: nat, den: nat)
    requires WellFormed(fmt) && den > 0 && n > 0 && StandsIn(fmt.half, 0 - n, sig, num, den)
    requires sig < 2 * fmt.hidden * (2 * fmt.half)
    ensures var shifted := ShiftRightJam(fmt.width, sig, n);
            StandsIn(fmt.half, 0, shifted, num, den) && shifted < fmt.hidden * (2 * fmt.half)
  {
    assert 2 * fmt.hidden * (2 * fmt.half) == 4 * (fmt.hidden * fmt.half);
    ShiftRightJamIsJam(fmt.width, sig, n);
    Pow2Le(1, n);
    JamIsSmall(fmt.hidden, fmt.half, sig, Pow2(n));
    JamFaithful(fmt.half, sig, Pow2(n), num * (2 * fmt.half), den);
    assert den * Pow2(0) == den;
  }

  /** What the helper makes of a zero significand with an exponent that is not negative: it looks at
      the exponent first. */
  function PackedZero(fmt: Format, mode: Mode, sign: bool, exp: nat): Packed
    requires WellFormed(fmt)
  {
    if exp > fmt.top - 2 then Overflowed(fmt, mode, sign) else Packed(sign, 0, false, false, false)
  }

  /** Packing a significand that stands in for num/den rounds num/den correctly if it is full, or the
      exponent is negative. */
  method RoundPack(fmt: Format, mode: Mode, before: bool, sign: bool, exp: int, sig: nat, ghost num: nat,
                   ghost den: nat)
      returns (z: Packed)
    requires WellFormed(fmt) && den > 0 && StandsIn(fmt.half, exp, sig, num, den)
    requires sig < 2 * fmt.hidden * (2 * fmt.half)
    requires exp >= 0 ==> sig == 0 || fmt.hidden * (2 * fmt.half) <= sig
    ensures exp < 0 || sig > 0 ==> CorrectlyRounded(fmt.hidden, fmt.top, mode, before, sign, num, den, z)
    ensures exp >= 0 && sig == 0 ==> z == PackedZero(fmt, mode, sign, exp)
  {
    var increment := Increment(mode, sign, fmt.half);
    if exp < 0 || fmt.top - 2 <= exp {
      if exp < 0 {
        z := PackTiny(fmt, mode, before, sign, exp, sig, num, den);
        return;
      } else if fmt.top - 2 < exp || 2 * fmt.hidden * (2 * fmt.half) <= sig + increment {
        var infinity := fmt.top * fmt.hidden;
        z := Packed(sign, if increment != 0 then infinity else infinity - 1, true, true, false);
        SmallIncrement(fmt, mode, sign);
        if sig > 0 { OverflowIs(fmt, mode, before, sign, exp, sig, num, den, z); }
        return;
      }
    }
    z := RoundAndPack(fmt, mode, sign, exp, sig, false);
    if sig > 0 { NormalIs(fmt, mode, before, sign, exp, sig, num, den, z); }
  }

  lemma SmallIncrement(fmt: Format, mode: Mode, sign: bool)
    requires WellFormed(fmt)
    ensures Increment(mode, sign, fmt.half) < 2 * fmt.hidden * (2 * fmt.half)
  {
    MulLe(1, 2 * fmt.hidden, 2 * fmt.half);
  }

  /** The exponent of the last place kept is determined by the value. */
  lemma LastPlaceUnique(hidden: nat, mode: Mode, neg: bool, num: nat, den: nat, e: nat, v: nat, e': nat, v': nat)
    requires IsRounding(hidden, mode, neg, num, den, e, v) && IsRounding(hidden, mode, neg, num, den, e', v')
    ensures e == e' && v == v'
  {
    if e < e' { NotLower(hidden, num, den, e, e'); }
    if e' < e { NotLower(hidden, num, den, e', e); }
  }

  lemma NotLower(hidden: nat, num: nat, den: nat, e: nat, e': nat)
    requires e < e' && hidden * (den * Pow2(e')) <= num
    ensures 2 * (hidden * (den * Pow2(e))) <= num
  {
    Pow2Lt(e, e');
    TwiceTimes(den, Pow2(e), Pow2(e'));
    TwiceTimes(hidden, den * Pow2(e), den * Pow2(e'));
  }

  lemma TwiceTimes(x: nat, p: nat, q: nat)
    requires 2 * p <= q
    ensures 2 * (x * p) <= x * q
  {
    MulLe(2 * p, q, x);
    Assoc(2, p, x);
  }

  /** The definition leaves no freedom: encoding and exceptions are determined. */
  lemma CorrectlyRoundedUnique(hidden: nat, top: nat, mode: Mode, before: bool, neg: bool, num: nat, den: nat,
                               z: Packed, z': Packed)
    requires den > 0 && top > 1 && hidden > 0
    requires CorrectlyRounded(hidden, top, mode, before, neg, num, den, z)
             && CorrectlyRounded(hidden, top, mode, before, neg, num, den, z')
    ensures z == z'
  {
    var e, v :| Rounded(hidden, top, mode, before, neg, num, den, e, v, z);
    var e', v' :| Rounded(hidden, top, mode, before, neg, num, den, e', v', z');
    LastPlaceUnique(hidden, mode, neg, num, den, e, v, e', v');
    EncodedInOrder(hidden, z.raw, z'.raw);
  }

  /** Only the ratio of num and den matters. */
  lemma CorrectlyRoundedScale(hidden: nat, top: nat, mode: Mode, before: bool, neg: bool, num: nat, den: nat, k: nat,
                              z: Packed)
    requires den > 0 && top > 1 && hidden > 0 && k > 0 && den * k > 0
    requires CorrectlyRounded(hidden, top, mode, before, neg, num * k, den * k, z)
    ensures CorrectlyRounded(hidden, top, mode, before, neg, num, den, z)
  {
    var e, v :| Rounded(hidden, top, mode, before, neg, num * k, den * k, e, v, z);
    var p := Pow2(e);
    LastPlaceScale(hidden, mode, neg, num, den, k, p);
    TinyScale(hidden, mode, before, neg, num, den, k);
    assert Rounded(hidden, top, mode, before, neg, num, den, e, v, z);
  }

  lemma LastPlaceScale(hidden: nat, mode: Mode, neg: bool, num: nat, den: nat, k: nat, p: nat)
    requires den > 0 && k > 0 && p > 0
    ensures den * p > 0 && den * k * p > 0
    ensures hidden * (den * k * p) <= num * k <==> hidden * (den * p) <= num
    ensures num * k < 2 * (hidden * (den * k * p)) <==> num < 2 * (hidden * (den * p))
    ensures Round(mode, neg, num * k, den * k * p) == Round(mode, neg, num, den * p)
    ensures num * k % (den * k * p) == 0 <==> num % (den * p) == 0
  {
    var d := den * p;
    MulLt(0, den, p);
    MulLt(0, d, k);
    Assoc(den, k, p);
    Assoc(den, p, k);
    assert den * k * p == d * k;
    RoundScale(mode, neg, num, d, k);
    SameBinade(hidden, num, d, k);
  }

  lemma SameBinade(hidden: nat, num: nat, d: nat, k: nat)
    requires k > 0
    ensures hidden * (d * k) <= num * k <==> hidden * d <= num
    ensures num * k < 2 * (hidden * (d * k)) <==> num < 2 * (hidden * d)
  {
    var h := hidden * d;
    Assoc(hidden, d, k);
    Assoc(2, h, k);
    if h <= num { MulLe(h, num, k); } else { MulLt(num, h, k); }
    if num < 2 * h { MulLt(num, 2 * h, k); } else { MulLe(2 * h, num, k); }
  }

  lemma TinyScale(hidden: nat, mode: Mode, before: bool, neg: bool, num: nat, den: nat, k: nat)
    requires den > 0 && k > 0 && den * k > 0
    ensures Tiny(hidden, mode, before, neg, num * k, den * k) <==> Tiny(hidden, mode, before, neg, num, den)
  {
    RoundScale(mode, neg, 2 * num, den, k);
    Assoc(2, num, k);
    Assoc(hidden, den, k);
    var h := hidden * den;
    if num < h { MulLt(num, h, k); } else { MulLe(h, num, k); }
  }
}
