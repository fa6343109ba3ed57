/** Encodings without their sign bit, as numbers: adding to one carries from the fraction into the
    exponent, and the values follow. Here `hidden` is 2^F, the weight of the hidden bit. */
module Encoding {
  import opened Arith
  import opened Floats

  function ExpField(hidden: nat, u: nat): (e: nat)
    requires hidden > 0
    ensures e * hidden <= u < e * hidden + hidden
  {
    DivBounds(u, hidden);
    u / hidden
  }

  /** The value, in units, of a biased exponent and a fraction. */
  function FieldValue(hidden: nat, exp: nat, frac: nat): nat {
    if exp == 0 then frac else (hidden + frac) * Pow2(exp - 1)
  }

  /** The value, in units, of the encoding u. */
  function EncodedValue(hidden: nat, u: nat): nat
    requires hidden > 0
  {
    var e := ExpField(hidden, u);
    FieldValue(hidden, e, u - e * hidden)
  }

  /** The value, in units, of the encoding u in a format with F fraction bits. */
  function RawValue(F: nat, u: nat): nat { EncodedValue(Pow2(F), u) }

  lemma EncodedIs(hidden: nat, u: nat, exp: nat, frac: nat)
    requires frac < hidden && u == exp * hidden + frac
    ensures EncodedValue(hidden, u) == FieldValue(hidden, exp, frac)
  {
    DivIs(u, hidden, exp);
  }

  /** Fields and raw encodings have the same values. */
  lemma RawIs(F: nat, u: nat, x: Fields)
    requires x.frac < Pow2(F) && u == x.exp * Pow2(F) + x.frac
    ensures RawValue(F, u) == Magnitude(F, x)
  {
    EncodedIs(Pow2(F), u, x.exp, x.frac);
  }

  /** A significand with its hidden bit, added to a shifted exponent; the carry that makes it
      2^(F+1) is right too. */
  lemma EncodedAt(hidden: nat, e: nat, s: nat, u: nat)
    requires 0 < hidden <= s <= 2 * hidden && u == e * hidden + s
    ensures EncodedValue(hidden, u) == s * Pow2(e)
  {
    OneMore(e, hidden);
    if s == 2 * hidden {
      OneMore(e + 1, hidden);
      EncodedIs(hidden, u, e + 2, 0);
      Carried(hidden, Pow2(e));
    } else {
      EncodedIs(hidden, u, e + 1, s - hidden);
    }
  }

  lemma Carried(f: nat, p: nat)
    ensures f * (2 * p) == 2 * f * p
  {
  }

  lemma EncodedSmall(hidden: nat, u: nat)
    requires u <= 2 * hidden && hidden > 0
    ensures EncodedValue(hidden, u) == u
  {
    if u < hidden {
      EncodedIs(hidden, u, 0, u);
    } else {
      EncodedAt(hidden, 0, u, u);
    }
  }

  lemma EncodedStep(hidden: nat, u: nat)
    requires hidden > 0
    ensures EncodedValue(hidden, u) < EncodedValue(hidden, u + 1)
  {
    var E := ExpField(hidden, u);
    if E == 0 {
      EncodedSmall(hidden, u);
      EncodedSmall(hidden, u + 1);
    } else {
      var s := u - (E - 1) * hidden;
      OneMore(E - 1, hidden);
      EncodedAt(hidden, E - 1, s, u);
      EncodedAt(hidden, E - 1, s + 1, u + 1);
      MulLt(s, s + 1, Pow2(E - 1));
    }
  }

  /** Encodings are ordered as their values. */
  lemma {:induction false} EncodedIncreases(hidden: nat, u: nat, v: nat)
    requires u < v && hidden > 0
    ensures EncodedValue(hidden, u) < EncodedValue(hidden, v)
    decreases v - u
  {
    EncodedStep(hidden, u);
    if u + 1 < v {
      EncodedIncreases(hidden, u + 1, v);
    }
  }

  lemma EncodedInOrder(hidden: nat, u: nat, v: nat)
    requires hidden > 0
    ensures u < v <==> EncodedValue(hidden, u) < EncodedValue(hidden, v)
    ensures u == v <==> EncodedValue(hidden, u) == EncodedValue(hidden, v)
  {
    if u < v { EncodedIncreases(hidden, u, v); }
    if v < u { EncodedIncreases(hidden, v, u); }
  }

  /** The value of an encoding, without fields: below twice the hidden bit an encoding is its own value,
      and one exponent up the value is twice as large. */
  ghost function ValueOf(hidden: nat, u: nat): nat
    requires hidden > 0
  {
    if u < 2 * hidden then u else 2 * ValueOf(hidden, u - hidden)
  }

  lemma {:induction false} ValueOfIs(hidden: nat, u: nat)
    requires hidden > 0
    ensures ValueOf(hidden, u) == EncodedValue(hidden, u)
  {
    if u < 2 * hidden {
      EncodedSmall(hidden, u);
    } else {
      OneExponentUp(hidden, u - hidden);
      ValueOfIs(hidden, u - hidden);
    }
  }

  lemma OneExponentUp(hidden: nat, u: nat)
    requires 0 < hidden <= u
    ensures EncodedValue(hidden, u + hidden) == 2 * EncodedValue(hidden, u)
  {
    var e := Floor(u, hidden);
    DivIs(u, hidden, e);
    if e == 0 { assert false; }
    OneMore(e - 1, hidden);
    var s := u - (e - 1) * hidden;
    EncodedAt(hidden, e - 1, s, u);
    OneMore(e, hidden);
    EncodedAt(hidden, e, s, u + hidden);
    Doubled(s, Pow2(e - 1));
  }

  lemma Doubled(s: nat, p: nat)
    ensures s * (2 * p) == 2 * (s * p)
  {
  }
}
