/** The packing helper for significands that are not normalised, and what it makes of numbers the
    format can represent. */
module NormRoundPack {
  import opened Arith
  import opened Floats
  import opened Encoding
  import opened Sticky
  import opened Rounding
  import opened RoundPack
  import opened Operations
  import opened RemExact

  /** exp and sig denote exactly V units. */
  ghost predicate Denotes(k: Kind, exp: int, sig: nat, V: nat)
    requires exp + k.F >= 0
  {
    V * Pow2(k.guard + k.F) == sig * Pow2(exp + k.F)
  }

  lemma {:induction false} ShlInjective(x: nat, y: nat, n: nat)
    requires Shl(x, n) == Shl(y, n)
    ensures x == y
  {
    if n > 0 { ShlInjective(x, y, n - 1); }
  }

  /** Moving the significand up and the exponent down leaves the value as it was. */
  lemma Shifted(k: Kind, exp: int, sig: nat, V: nat, shift: nat)
    requires exp + k.F >= 0 && Denotes(k, exp, sig, V)
    ensures exp >= shift ==> sig * Pow2(shift) * Pow2(exp - shift) == V * Pow2(k.guard)
    ensures exp < shift ==> sig * Pow2(shift) == V * Pow2(k.guard) * Pow2(shift - exp)
  {
    var m, n := k.guard + k.F, exp + k.F;
    ShlIs(sig, shift);
    ShlIs(V, k.guard);
    if exp >= shift {
      ShlAgain(sig * Pow2(shift), sig, shift, exp - shift);
      ShlSame(V, sig, m, n, 0);
      ShlAdd(V, k.guard, k.F);
      ShlAdd(sig, exp, k.F);
      ShlInjective(Shl(V, k.guard), Shl(sig, exp), k.F);
    } else {
      ShlAgain(V * Pow2(k.guard), V, k.guard, shift - exp);
      ShlSame(V, sig, m, n, shift);
      ShlAdd(V, k.guard + shift - exp, n);
      ShlAdd(sig, shift, n);
      ShlInjective(Shl(V, k.guard + shift - exp), Shl(sig, shift), n);
    }
  }

  /** An exact significand stands in for its value. */
  lemma ExactStandsIn(k: Kind, exp: int, sig: nat, V: nat)
    requires IsKind(k)
    requires exp >= 0 ==> sig * Pow2(exp) == V * Pow2(k.guard)
    requires exp < 0 ==> sig == V * Pow2(k.guard) * Pow2(0 - exp)
    ensures StandsIn(k.fmt.half, exp, sig, V, 1)
  {
    if exp >= 0 {
      FaithfulAt(k.fmt.half, sig, V * Pow2(k.guard), Pow2(exp));
    } else {
      FaithfulAt(k.fmt.half, sig, sig, 1);
    }
  }

  /** Puts the significand's top bit in place. */
  method NormShift(k: Kind, sig: nat) returns (shift: nat)
    requires IsKind(k) && 0 < sig < 2 * k.fmt.hidden * (2 * k.fmt.half)
    ensures k.fmt.hidden * (2 * k.fmt.half) <= sig * Pow2(shift) < 2 * k.fmt.hidden * (2 * k.fmt.half)
  {
    TopBits(k);
    var zeros := LeadingZeros(sig, k.fmt.width);
    assert zeros > 0;
    shift := zeros - 1;
    Assoc(sig, 2, Pow2(shift));
  }

  lemma TopBits(k: Kind)
    requires IsKind(k)
    ensures 2 * k.fmt.hidden * (2 * k.fmt.half) == Pow2(k.fmt.width - 1)
            && 2 * Pow2(k.fmt.width - 1) == Pow2(k.fmt.width)
  {
    assert 2 * k.fmt.hidden * (2 * k.fmt.half) == 4 * (k.fmt.hidden * k.fmt.half);
  }

  /** Room enough above: the significand goes straight into place. */
  lemma Direct(k: Kind, sig: nat, shift: nat, e: nat, V: nat, u: nat)
    requires IsKind(k) && k.guard <= shift && EncodedValue(k.fmt.hidden, u) == V
    requires k.fmt.hidden * (2 * k.fmt.half) <= sig * Pow2(shift) < 2 * k.fmt.hidden * (2 * k.fmt.half)
    requires sig * Pow2(shift) * Pow2(e) == V * Pow2(k.guard)
    ensures e * k.fmt.hidden + sig * Pow2(shift - k.guard) == u
  {
    var s, G := sig * Pow2(shift - k.guard), Pow2(k.guard);
    Pow2Add(shift - k.guard, k.guard);
    Assoc(sig, Pow2(shift - k.guard), G);
    WithoutGuard(k.fmt.hidden, s, G, Pow2(e), V);
    EncodedAt(k.fmt.hidden, e, s, e * k.fmt.hidden + s);
    EncodedInOrder(k.fmt.hidden, u, e * k.fmt.hidden + s);
  }

  lemma WithoutGuard(hidden: nat, s: nat, G: nat, p: nat, V: nat)
    requires G > 0 && hidden * G <= s * G < 2 * hidden * G && s * G * p == V * G
    ensures hidden <= s < 2 * hidden && V == s * p
  {
    MulLeCancel(hidden, s, G);
    MulLtCancel(s, 2 * hidden, G);
    assert s * G * p == s * p * G;
    MulLeCancel(V, s * p, G);
    MulLeCancel(s * p, V, G);
  }

  /** A zero significand has its exponent lowered by the whole word; if that does not bring it into
      range, the helper it is passed to takes it for an overflow. */
  predicate ZeroOverflows(k: Kind, exp: int, sig: nat) { sig == 0 && exp - (k.fmt.width - 1) > k.fmt.top - 2 }

  /** A number u of the format, given as any exponent and significand, is packed as it is and nothing
      is raised; but for that one case. */
  method NormRoundPack(k: Kind, mode: Mode, before: bool, sign: bool, exp: int, sig: nat, ghost V: nat, ghost u: nat)
      returns (z: Packed)
    requires IsKind(k) && sig < 2 * k.fmt.hidden * (2 * k.fmt.half) && exp + k.F >= 0 && Denotes(k, exp, sig, V)
    requires EncodedValue(k.fmt.hidden, u) == V && u < k.fmt.top * k.fmt.hidden
    ensures z == if ZeroOverflows(k, exp, sig) then Overflowed(k.fmt, mode, sign)
            else Packed(sign, u, false, false, false)
  {
    var shiftDist := k.fmt.width - 1;
    if sig == 0 {
      ZeroDenoted(k, exp, V, u);
    } else {
      shiftDist := NormShift(k, sig);
      Shifted(k, exp, sig, V, shiftDist);
    }
    var expZ := exp - shiftDist;
    if k.guard <= shiftDist && 0 <= expZ < k.fmt.top - 2 {
      if sig != 0 { Direct(k, sig, shiftDist, expZ, V, u); }
      var shifted := sig * Pow2(shiftDist - k.guard);
      return Packed(sign, (if sig != 0 then expZ else 0) * k.fmt.hidden + shifted, false, false, false);
    }
    ExactStandsIn(k, expZ, sig * Pow2(shiftDist), V);
    z := RoundPack.RoundPack(k.fmt, mode, before, sign, expZ, sig * Pow2(shiftDist), V, 1);
    if sig != 0 || expZ < 0 { PackedExactly(k.fmt.hidden, k.fmt.top, mode, before, sign, u, z); }
  }

  lemma ZeroDenoted(k: Kind, exp: int, V: nat, u: nat)
    requires k.fmt.hidden > 0 && exp + k.F >= 0 && Denotes(k, exp, 0, V) && EncodedValue(k.fmt.hidden, u) == V
    ensures V == 0 && u == 0
  {
    if V > 0 { MulLt(0, V, Pow2(k.guard + k.F)); }
    EncodedSmall(k.fmt.hidden, 0);
    EncodedInOrder(k.fmt.hidden, 0, u);
  }
}
