/** f64_rem and f32_rem to their final encodings: the exact IEEE remainder, and no exception but the
    invalid one. */
module RemResult {
  import opened Arith
  import opened Words
  import opened Floats
  import opened Formats
  import opened Encoding
  import opened Rounding
  import opened RoundPack
  import opened Operations
  import opened RemCore
  import opened RemSpec
  import opened RemExact
  import opened NormRoundPack
  import opened WordResults
  import opened WordForms
  import F64Rem
  import F32Rem

  /** The encoding's value, counted positive where its sign is `sign0`. */
  ghost function Relative(hidden: nat, sign0: bool, sign: bool, raw: nat): int
    requires hidden > 0
  {
    if sign == sign0 then EncodedValue(hidden, raw) else 0 - EncodedValue(hidden, raw)
  }

  /** The encoding's signed value is a - n*b for the integer n nearest a/b, ties to even, where b
      counts with a's sign (which makes no difference to the set of multiples); a zero has a's sign.
      With an infinite divisor it is a. */
  ghost predicate IsIeeeRemainder(k: Kind, a: Fields, b: Fields, sign: bool, raw: nat)
    requires k.fmt.hidden > 0
  {
    var va, vb, v := Magnitude(k.F, a), Magnitude(k.F, b), EncodedValue(k.fmt.hidden, raw);
    && raw < k.fmt.top * k.fmt.hidden && (v == 0 ==> sign == a.sign)
    && if IsInfinite(k.fmt.top, b) then sign == a.sign && v == va
       else IeeeRemainder(va, vb, Relative(k.fmt.hidden, a.sign, sign, raw))
  }

  predicate NothingRaised(z: Packed) { !z.inexact && !z.overflow && !z.underflow }

  ghost predicate Delivers(k: Kind, a: Fields, b: Fields, r: Answer)
    requires k.fmt.hidden > 0
  {
    var top := k.fmt.top;
    if IsNaN(top, a) || IsNaN(top, b) then r == Answer.PropagateNaN
    else if IsInfinite(top, a) || IsZero(b) then r == Answer.Invalid
    else r.Finite? && NothingRaised(r.packed) && IsIeeeRemainder(k, a, b, r.packed.sign, r.packed.raw)
  }

  /** The unsigned encoding of fields. */
  function Raw(k: Kind, x: Fields): nat { x.exp * k.fmt.hidden + x.frac }

  /** The representable number that a routine's sign, exponent and significand denote. */
  lemma Denoted(k: Kind, a: Fields, b: Fields, z: RemSpec.Outcome) returns (u: nat)
    requires IsKind(k) && a.frac < k.fmt.hidden && b.frac < k.fmt.hidden && b.exp < k.fmt.top
    requires z.Pack? && Correct(k.F, k.fmt.top, k.guard, a, b, z) && Magnitude(k.F, b) > 0
    ensures z.exp + k.F >= 0 && Denotes(k, z.exp, z.sig, EncodedValue(k.fmt.hidden, u))
    ensures IsIeeeRemainder(k, a, b, z.sign, u)
  {
    var va, vb := Magnitude(k.F, a), Magnitude(k.F, b);
    var s := if z.sign == a.sign then z.sig else 0 - z.sig;
    var n := Quotient(k.F, k.guard, va, vb, z.exp, s);
    RawIs(k.F, Raw(k, a), a);
    RawIs(k.F, Raw(k, b), b);
    u := RemainderIsRepresentable(k.fmt.hidden, Raw(k, a), Raw(k, b), n);
    FiniteRaw(k, b);
    SameSign(s, Pow2(z.exp + k.F), Pow2(k.guard + k.F), va - n * vb);
    RelativeIs(k.fmt.hidden, a.sign, z.sign, u, s, va - n * vb);
    QuotientWitness(va, vb, va - n * vb, n);
  }

  lemma Quotient(F: nat, unit: nat, a: nat, b: nat, exp: int, sig: int) returns (n: int)
    requires exp + F >= 0 && IsRemainder(F, unit, a, b, exp, sig)
    ensures NearestQuotient(a, b, n) && sig * Pow2(exp + F) == Pow2(unit + F) * (a - n * b)
  {
    n :| NearestQuotient(a, b, n) && sig * Pow2(exp + F) == Pow2(unit + F) * (a - n * b);
  }

  lemma RelativeIs(hidden: nat, sign0: bool, sign: bool, u: nat, s: int, r: int)
    requires hidden > 0 && EncodedValue(hidden, u) == Abs(r) && (s > 0 <==> r > 0) && (s < 0 <==> r < 0)
    requires (sign == sign0 ==> s >= 0) && (sign != sign0 ==> s < 0)
    ensures Relative(hidden, sign0, sign, u) == r && (EncodedValue(hidden, u) == 0 ==> sign == sign0)
  {
  }

  lemma FiniteRaw(k: Kind, x: Fields)
    requires x.frac < k.fmt.hidden && x.exp < k.fmt.top
    ensures Raw(k, x) < k.fmt.top * k.fmt.hidden
  {
    OneMore(x.exp, k.fmt.hidden);
    MulLe(x.exp + 1, k.fmt.top, k.fmt.hidden);
  }

  lemma SameSign(s: int, p: nat, q: nat, r: int)
    requires p > 0 && q > 0 && s * p == q * r
    ensures (s > 0 <==> r > 0) && (s < 0 <==> r < 0) && Abs(r) * q == Abs(s) * p
  {
    if s > 0 { MulLt(0, s, p); }
    if s < 0 { MulLt(s, 0, p); }
    if r > 0 { MulLt(0, r, q); }
    if r < 0 { MulLt(r, 0, q); }
    AbsTimes(s, p);
    AbsTimes(r, q);
  }

  method PackRemainder(k: Kind, mode: Mode, before: bool, ghost a: Fields, ghost b: Fields, z: RemSpec.Outcome)
      returns (r: Answer)
    requires IsKind(k) && a.frac < k.fmt.hidden && b.frac < k.fmt.hidden && a.exp < k.fmt.top && b.exp < k.fmt.top
    requires z.Pack? && Correct(k.F, k.fmt.top, k.guard, a, b, z) && !IsZero(b)
    requires z.sig < 2 * k.fmt.hidden * (2 * k.fmt.half) && z.exp < k.fmt.top
    ensures Delivers(k, a, b, r)
  {
    ZeroMagnitude(k.F, b);
    ghost var u := Denoted(k, a, b, z);
    var packed := NormRoundPack.NormRoundPack(k, mode, before, z.sign, z.exp, z.sig, EncodedValue(k.fmt.hidden, u), u);
    r := Finite(packed);
  }

  /** The first operand is its own remainder. */
  lemma FirstIsRemainder(k: Kind, a: Fields, b: Fields)
    requires IsKind(k) && a.frac < k.fmt.hidden && a.exp < k.fmt.top && !IsNaN(k.fmt.top, b) && !IsZero(b)
    requires IsInfinite(k.fmt.top, b) || NearestQuotient(Magnitude(k.F, a), Magnitude(k.F, b), 0)
    ensures Delivers(k, a, b, Finite(Packed(a.sign, Raw(k, a), false, false, false)))
  {
    RawIs(k.F, Raw(k, a), a);
    if !IsInfinite(k.fmt.top, b) {
      QuotientWitness(Magnitude(k.F, a), Magnitude(k.F, b), Magnitude(k.F, a), 0);
    }
    FiniteRaw(k, a);
  }

  /** From the routine's outcome to the encoding. */
  method Finish(k: Kind, mode: Mode, before: bool, a: Fields, b: Fields, z: RemSpec.Outcome) returns (r: Answer)
    requires IsKind(k) && a.frac < k.fmt.hidden && b.frac < k.fmt.hidden && a.exp <= k.fmt.top && b.exp <= k.fmt.top
    requires Correct(k.F, k.fmt.top, k.guard, a, b, z)
             && (z.Pack? ==> z.sig < 2 * k.fmt.hidden * (2 * k.fmt.half) && z.exp < k.fmt.top)
    ensures Delivers(k, a, b, r)
  {
    ZeroMagnitude(k.F, b);
    match z
    case PropagateNaN => r := Answer.PropagateNaN;
    case Invalid => r := Answer.Invalid;
    case ReturnFirst =>
      FirstIsRemainder(k, a, b);
      r := Finite(Packed(a.sign, Raw(k, a), false, false, false));
    case Pack(_, _, _) =>
      r := PackRemainder(k, mode, before, a, b, z);
  }

  method Answered64(mode: Mode, before: bool, uiA: U64, uiB: U64, fastInt64: bool) returns (r: Answer)
    ensures Delivers(Double, Fields64(uiA), Fields64(uiB), r)
  {
    DoubleIsKind();
    var z := F64Rem.Rem(uiA, uiB, fastInt64);
    r := Finish(Double, mode, before, Fields64(uiA), Fields64(uiB), z);
  }

  method Answered32(mode: Mode, before: bool, uiA: U32, uiB: U32) returns (r: Answer)
    ensures Delivers(Single, Fields32(uiA), Fields32(uiB), r)
  {
    SingleIsKind();
    var z := F32Rem.Rem(uiA, uiB);
    r := Finish(Single, mode, before, Fields32(uiA), Fields32(uiB), z);
  }

  // ----- The same, of the words

  /** The number encoded, in units. */
  ghost function Number(l: Layout, x: nat): int
    requires l.hidden > 0
  {
    Signed(Minus(l, x), Value(l, Part(l, x)))
  }

  /** r is what n times y leaves of x, and n is the integer nearest x/y, ties to even. */
  ghost predicate Leaves(x: int, y: int, r: int, n: int) {
    r == x - n * y && 2 * Abs(r) <= Abs(y) && (2 * Abs(r) == Abs(y) ==> n % 2 == 0)
  }

  /** z is the remainder of x by y: a zero has the sign of x, and only the invalid exception can be raised. */
  ghost predicate IsRemainderOf(l: Layout, x: nat, y: nat, z: Returned) {
    && IsLayout(l)
    && if Part(l, x) > l.infinity || Part(l, y) > l.infinity then z == PropagatedNaN(l, x, y)
       else if Part(l, x) == l.infinity || Part(l, y) == 0 then z == InvalidNaN(l)
       else if Part(l, y) == l.infinity then z == Quietly(x)
       else
         && z == Quietly(z.ui) && z.ui < 2 * l.signBit && Part(l, z.ui) < l.infinity
         && (Part(l, z.ui) == 0 ==> Minus(l, z.ui) == Minus(l, x))
         && exists n: int :: Leaves(Number(l, x), Number(l, y), Number(l, z.ui), n)
  }

  lemma SignedProduct(sx: bool, sy: bool, n: int, v: int)
    ensures Signed(sx != sy, n) * Signed(sy, v) == Signed(sx, n * v)
  {
    Difference(0, n, v);
    Difference(0, v, n);
  }

  /** A remainder by magnitudes is one by signed numbers, with the dividend's sign. */
  lemma SomeLeaves(sx: bool, sy: bool, va: nat, vb: nat, r: int)
    requires IeeeRemainder(va, vb, r)
    ensures exists n: int :: Leaves(Signed(sx, va), Signed(sy, vb), Signed(sx, r), n)
  {
    var n := SomeQuotient(va, vb, r);
    var m := Signed(sx != sy, n);
    SignedProduct(sx, sy, n, vb);
    var p := n * vb;
    LeavesBy(sx, sy, va, vb, r, n, p, m);
  }

  lemma LeavesBy(sx: bool, sy: bool, va: nat, vb: nat, r: int, n: int, p: int, m: int)
    requires r == va - p && LeftByNearest(r, vb, n)
    requires m == Signed(sx != sy, n) && m * Signed(sy, vb) == Signed(sx, p)
    ensures Leaves(Signed(sx, va), Signed(sy, vb), Signed(sx, r), m)
  {
  }

  lemma FiniteRemainder(k: Kind, l: Layout, x: nat, y: nat, a: Fields, c: Fields, p: Packed)
    requires SameFormat(k, l) && FieldsOf(l, x, a) && FieldsOf(l, y, c) && p.raw < l.infinity
    requires IeeeRemainder(Magnitude(k.F, a), Magnitude(k.F, c), Relative(k.fmt.hidden, a.sign, p.sign, p.raw))
    ensures var ui := SignedWord(l, p.sign, p.raw);
            exists n: int :: Leaves(Number(l, x), Number(l, y), Number(l, ui), n)
  {
    var r := Relative(k.fmt.hidden, a.sign, p.sign, p.raw);
    var ui := SignedWord(l, p.sign, p.raw);
    NumberOf(k, l, x, a);
    NumberOf(k, l, y, c);
    NumberOfResult(l, a.sign, p.sign, p.raw);
    SomeLeaves(a.sign, c.sign, Magnitude(k.F, a), Magnitude(k.F, c), r);
  }

  lemma NumberOf(k: Kind, l: Layout, x: nat, a: Fields)
    requires SameFormat(k, l) && FieldsOf(l, x, a)
    ensures Number(l, x) == Signed(a.sign, Magnitude(k.F, a))
  {
    Classified(l, k.F, x, a);
  }

  lemma NumberOfResult(l: Layout, sign0: bool, sign: bool, raw: nat)
    requires IsLayout(l) && raw < l.infinity
    ensures Number(l, SignedWord(l, sign, raw)) == Signed(sign0, Relative(l.hidden, sign0, sign, raw))
  {
    ValueOfIs(l.hidden, raw);
  }

  lemma FirstReturned(k: Kind, l: Layout, x: nat, a: Fields, raw: nat)
    requires SameFormat(k, l) && FieldsOf(l, x, a) && EncodedValue(l.hidden, raw) == Magnitude(k.F, a)
    ensures SignedWord(l, a.sign, raw) == x
  {
    Classified(l, k.F, x, a);
    ValueOfIs(l.hidden, Part(l, x));
    EncodedInOrder(l.hidden, raw, Part(l, x));
  }

  lemma RemainderDelivered(k: Kind, l: Layout, x: nat, y: nat, a: Fields, c: Fields, answer: Answer, signaling: bool)
    requires SameFormat(k, l) && FieldsOf(l, x, a) && FieldsOf(l, y, c)
    requires signaling <==> Signaling(l, x) || Signaling(l, y)
    requires Delivers(k, a, c, answer)
    ensures IsRemainderOf(l, x, y, Assembled(k.fmt, answer, signaling))
  {
    Classified(l, k.F, x, a);
    Classified(l, k.F, y, c);
    if answer.Finite? {
      FiniteRemainderDelivered(k, l, x, y, a, c, answer.packed);
    }
  }

  lemma FiniteRemainderDelivered(k: Kind, l: Layout, x: nat, y: nat, a: Fields, c: Fields, p: Packed)
    requires SameFormat(k, l) && FieldsOf(l, x, a) && FieldsOf(l, y, c)
    requires Part(l, x) < l.infinity && 0 < Part(l, y) <= l.infinity && NothingRaised(p)
    requires IsIeeeRemainder(k, a, c, p.sign, p.raw)
    ensures IsRemainderOf(l, x, y, Assembled(k.fmt, Answer.Finite(p), false))
  {
    Classified(l, k.F, y, c);
    if IsInfinite(l.top, c) {
      FirstReturned(k, l, x, a, p.raw);
    } else {
      FiniteRemainder(k, l, x, y, a, c, p);
      EncodedSmall(l.hidden, 0);
    }
  }

  lemma SameRemainder(x: int, y: int, r: int, r': int, n: int, n': int)
    requires y != 0 && Leaves(x, y, r, n) && Leaves(x, y, r', n')
    ensures r == r'
  {
    var m, m' := ByMagnitude(x, y, r, n), ByMagnitude(x, y, r', n');
    NearestQuotientUnique(x, Abs(y), m, m');
  }

  /** The quotient by the divisor's magnitude. */
  ghost function ByMagnitude(x: int, y: int, r: int, n: int): (m: int)
    requires y != 0 && Leaves(x, y, r, n)
    ensures NearestQuotient(x, Abs(y), m) && x - m * Abs(y) == r
  {
    var m := Signed(y < 0, n);
    SignedProduct(false, y < 0, n, Abs(y));
    SignedProduct(false, y < 0, m, y);
    LeftBy(x, Abs(y), r, m, m * Abs(y));
    m
  }

  lemma LeftBy(x: int, d: nat, r: int, m: int, p: int)
    requires p == m * d && r == x - p && 2 * Abs(r) <= d && (2 * Abs(r) == d ==> m % 2 == 0)
    ensures NearestQuotient(x, d, m)
  {
  }

  lemma SameNumber(l: Layout, x: nat, y: nat)
    requires IsLayout(l) && x < 2 * l.signBit && y < 2 * l.signBit && Number(l, x) == Number(l, y)
    requires Part(l, x) == 0 || Part(l, y) == 0 ==> Minus(l, x) == Minus(l, y)
    ensures x == y
  {
    ValueOfIs(l.hidden, Part(l, x));
    ValueOfIs(l.hidden, Part(l, y));
    EncodedInOrder(l.hidden, Part(l, x), Part(l, y));
    if Part(l, x) > 0 { PositiveValue(l, Part(l, x)); }
    if Part(l, y) > 0 { PositiveValue(l, Part(l, y)); }
  }

  /** The operands leave no choice of word or exceptions. */
  lemma RemainderIsDetermined(l: Layout, x: nat, y: nat, z: Returned, z': Returned)
    requires IsRemainderOf(l, x, y, z) && IsRemainderOf(l, x, y, z')
    ensures z == z'
  {
    if Part(l, x) < l.infinity && 0 < Part(l, y) < l.infinity {
      PositiveValue(l, Part(l, y));
      var n: int :| Leaves(Number(l, x), Number(l, y), Number(l, z.ui), n);
      var n': int :| Leaves(Number(l, x), Number(l, y), Number(l, z'.ui), n');
      SameRemainder(Number(l, x), Number(l, y), Number(l, z.ui), Number(l, z'.ui), n, n');
      ZeroIsSigned(l, z.ui, z'.ui);
      SameNumber(l, z.ui, z'.ui);
    }
  }

  /** Words of equal numbers are both zeros or neither is. */
  lemma ZeroIsSigned(l: Layout, x: nat, y: nat)
    requires IsLayout(l) && Number(l, x) == Number(l, y)
    ensures Part(l, x) == 0 <==> Part(l, y) == 0
  {
    if Part(l, x) > 0 { PositiveValue(l, Part(l, x)); }
    if Part(l, y) > 0 { PositiveValue(l, Part(l, y)); }
  }

  /** The word returned and the exceptions raised, for every pair of words. */
  method Rem64(mode: Mode, before: bool, uiA: U64, uiB: U64, fastInt64: bool) returns (z: Returned)
    ensures IsRemainderOf(Layout(0x10_0000_0000_0000, 0x7FF, 0x3FF0_0000_0000_0000, 0x7FF0_0000_0000_0000,
                                 0x8000_0000_0000_0000),
                          uiA, uiB, z)
  {
    var answer := Answered64(mode, before, uiA, uiB, fastInt64);
    z := Assembled(F64, answer, IsSigNaN64(uiA) || IsSigNaN64(uiB));
    FieldsOf64(uiA);
    FieldsOf64(uiB);
    SignalingTest64(uiA);
    SignalingTest64(uiB);
    DoubleLayout();
    RemainderDelivered(Double, LAYOUT64, uiA, uiB, Fields64(uiA), Fields64(uiB), answer,
                       IsSigNaN64(uiA) || IsSigNaN64(uiB));
  }

  method Rem32(mode: Mode, before: bool, uiA: U32, uiB: U32) returns (z: Returned)
    ensures IsRemainderOf(Layout(0x80_0000, 0xFF, 0x3F80_0000, 0x7F80_0000, 0x8000_0000), uiA, uiB, z)
  {
    var answer := Answered32(mode, before, uiA, uiB);
    z := Assembled(F32, answer, IsSigNaN32(uiA) || IsSigNaN32(uiB));
    FieldsOf32(uiA);
    FieldsOf32(uiB);
    SignalingTest32(uiA);
    SignalingTest32(uiB);
    SingleLayout();
    RemainderDelivered(Single, LAYOUT32, uiA, uiB, Fields32(uiA), Fields32(uiB), answer,
                       IsSigNaN32(uiA) || IsSigNaN32(uiB));
  }
}
