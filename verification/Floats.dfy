/** IEEE 754 fields and values. A finite value is counted in units of the format's smallest
    subnormal, so it is an integer; F is the number of fraction bits. */
module Floats {
  import opened Arith

  datatype Fields = Fields(sign: bool, exp: nat, frac: nat)

  function Magnitude(F: nat, x: Fields): nat {
    if x.exp == 0 then x.frac else (Pow2(F) + x.frac) * Pow2(x.exp - 1)
  }

  /** Leading zeros of a nonzero word of the given width. */
  function LeadingZeros(a: nat, width: nat): (n: nat)
    requires 0 < a < Pow2(width) && width > 0
    ensures n < width && Pow2(width - 1) <= a * Pow2(n) < Pow2(width)
    decreases Pow2(width) - a
  {
    if a >= Pow2(width - 1) then 0
    else
      var n := LeadingZeros(2 * a, width);
      assert a * Pow2(n + 1) == 2 * a * Pow2(n);
      TopBitShift(a, n + 1, width);
      n + 1
  }

  lemma TopBitShift(a: nat, n: nat, width: nat)
    requires a > 0 && width > 0 && a * Pow2(n) < Pow2(width)
    ensures n < width
  {
    MulLe(1, a, Pow2(n));
    if n >= width { Pow2Le(width, n); }
  }

  /** An exponent and a significand whose hidden bit is in place. */
  datatype Normal = Normal(exp: int, sig: nat)

  ghost predicate Normalised(F: nat, n: Normal) {
    Pow2(F) <= n.sig < 2 * Pow2(F) && n.exp >= 1 - F
  }

  /** The pair stands for `magnitude` units (both sides scaled so that exponents stay natural). */
  ghost predicate StandsFor(F: nat, n: Normal, magnitude: nat)
    requires n.exp >= 1 - F
  {
    magnitude * Pow2(F) == n.sig * Pow2(n.exp - 1 + F)
  }

  /** Moves a subnormal significand up until its hidden bit is set. */
  function NormSubnormal(F: nat, width: nat, sig: nat): (n: Normal)
    requires 0 < sig < Pow2(F) && F < width
    ensures Normalised(F, n) && StandsFor(F, n, sig) && n.exp <= 1
  {
    Pow2Le(F, width);
    var zeros := LeadingZeros(sig, width);
    var shift := zeros - (width - 1 - F);
    NormShift(F, width, sig, zeros);
    Normal(1 - shift, sig * Pow2(shift))
  }

  lemma NormShift(F: nat, width: nat, sig: nat, zeros: nat)
    requires 0 < sig < Pow2(F) && F < width && zeros < width
    requires Pow2(width - 1) <= sig * Pow2(zeros) < Pow2(width)
    ensures var shift := zeros - (width - 1 - F);
            && 0 <= shift <= F
            && Pow2(F) <= sig * Pow2(shift) < 2 * Pow2(F)
            && sig * Pow2(F) == sig * Pow2(shift) * Pow2(F - shift)
  {
    var spare := width - 1 - F;
    Pow2Add(F, spare);
    if zeros < spare {
      Pow2Le(zeros, spare);
      TooShort(sig, Pow2(zeros), Pow2(F), Pow2(spare));
    }
    var shift := zeros - spare;
    Pow2Add(shift, spare);
    CancelSpare(sig, Pow2(shift), Pow2(F), Pow2(spare));
    Pow2Add(shift, F - shift);
    Assoc(sig, Pow2(shift), Pow2(F - shift));
  }

  lemma TooShort(sig: nat, z: nat, f: nat, spare: nat)
    requires z <= spare && sig < f && spare > 0
    ensures sig * z < f * spare
  {
    MulLe(z, spare, sig);
    MulLt(sig, f, spare);
  }

  lemma CancelSpare(sig: nat, s: nat, f: nat, spare: nat)
    requires spare > 0 && f * spare <= sig * (s * spare) < 2 * (f * spare)
    ensures f <= sig * s < 2 * f
  {
    Assoc(sig, s, spare);
    Assoc(2, f, spare);
    MulLeCancel(f, sig * s, spare);
    MulLtCancel(sig * s, 2 * f, spare);
  }

  /** The exponent and significand of a nonzero finite value. */
  function Normalise(F: nat, width: nat, x: Fields): (n: Normal)
    requires x.frac < Pow2(F) && F < width && Magnitude(F, x) > 0
    ensures Normalised(F, n) && StandsFor(F, n, Magnitude(F, x))
    ensures n.exp <= if x.exp == 0 then 1 else x.exp
  {
    if x.exp == 0 then NormSubnormal(F, width, x.frac)
    else
      NormalStandsFor(F, x);
      Normal(x.exp, Pow2(F) + x.frac)
  }

  lemma NormalStandsFor(F: nat, x: Fields)
    requires x.exp > 0
    ensures StandsFor(F, Normal(x.exp, Pow2(F) + x.frac), Magnitude(F, x))
  {
    Pow2Add(x.exp - 1, F);
    Assoc(Pow2(F) + x.frac, Pow2(x.exp - 1), Pow2(F));
  }

  /** The operand of a format whose largest exponent field is `top`. */
  predicate IsNaN(top: nat, x: Fields) { x.exp == top && x.frac != 0 }

  predicate IsInfinite(top: nat, x: Fields) { x.exp == top && x.frac == 0 }

  /** Only zeros have magnitude zero. */
  lemma ZeroMagnitude(F: nat, x: Fields)
    ensures Magnitude(F, x) == 0 <==> x.exp == 0 && x.frac == 0
  {
    if x.exp > 0 { MulLt(0, Pow2(F) + x.frac, Pow2(x.exp - 1)); }
  }
}
