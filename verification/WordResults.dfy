/** What the arithmetic routines return, said of the words themselves: the encoding delivered and the
    exceptions raised, NaNs included (sections 5.3.1, 5.4.1, 6 and 7 of IEEE 754-2019). */
module WordResults {
  import opened Arith
  import opened Floats
  import opened Encoding
  import opened Rounding
  import opened RoundPack
  import opened Operations
  import opened RemExact

  /** The landmarks of a format: the weight of the hidden bit, the exponent field of infinities, and the
      encodings of one, of infinity and of negative zero. */
  datatype Layout = Layout(hidden: nat, top: nat, one: nat, infinity: nat, signBit: nat)

  ghost predicate IsLayout(l: Layout) {
    l.hidden > 1 && l.top > 2 && 0 < l.one < l.infinity && l.signBit == l.infinity + l.hidden
  }

  /** A word without its sign. */
  ghost function Part(l: Layout, ui: nat): nat { if ui >= l.signBit then ui - l.signBit else ui }

  ghost predicate Minus(l: Layout, ui: nat) { ui >= l.signBit }

  ghost predicate Signaling(l: Layout, ui: nat) { l.infinity < Part(l, ui) < l.infinity + l.hidden / 2 }

  ghost function Value(l: Layout, u: nat): nat
    requires l.hidden > 0
  {
    ValueOf(l.hidden, u)
  }

  datatype Flags = Flags(invalid: bool, divideByZero: bool, overflow: bool, underflow: bool, inexact: bool)

  /** The word that a routine returns and the exceptions it raises. */
  datatype Returned = Returned(ui: nat, raised: Flags)

  ghost function Quietly(ui: nat): Returned { Returned(ui, Flags(false, false, false, false, false)) }

  ghost function InvalidNaN(l: Layout): Returned {
    Returned(l.infinity + l.hidden / 2, Flags(true, false, false, false, false))
  }

  /** With a NaN operand: the default NaN, and the invalid exception if one of them is signaling. */
  ghost function PropagatedNaN(l: Layout, x: nat, y: nat): Returned {
    Returned(l.infinity + l.hidden / 2, Flags(Signaling(l, x) || Signaling(l, y), false, false, false, false))
  }

  ghost function SignedWord(l: Layout, neg: bool, u: nat): nat { if neg then l.signBit + u else u }

  lemma PositiveValue(l: Layout, u: nat)
    requires l.hidden > 0 && u > 0
    ensures Value(l, u) > 0
  {
    ValueOfIs(l.hidden, 0);
    ValueOfIs(l.hidden, u);
    EncodedInOrder(l.hidden, 0, u);
  }

  /** The value num/den, in units, rounded and delivered with its exceptions. */
  ghost predicate RoundedTo(l: Layout, mode: Mode, before: bool, neg: bool, num: nat, den: nat, z: Returned) {
    && l.hidden > 0 && l.top > 1 && den > 0
    && z.ui < 2 * l.signBit && !z.raised.invalid && !z.raised.divideByZero
    && CorrectlyRounded(l.hidden, l.top, mode, before, neg, num, den,
                        Packed(Minus(l, z.ui), Part(l, z.ui), z.raised.inexact, z.raised.overflow, z.raised.underflow))
  }

  /** The word is a finite number, not zero. */
  ghost predicate Finite(l: Layout, x: nat) { 0 < Part(l, x) < l.infinity }

  /** A quotient with a NaN, an infinity or a zero. */
  ghost predicate IsFixedQuotient(l: Layout, x: nat, y: nat, z: Returned) {
    var u, v, neg := Part(l, x), Part(l, y), Minus(l, x) != Minus(l, y);
    if u > l.infinity || v > l.infinity then z == PropagatedNaN(l, x, y)
    else if (u == l.infinity && v == l.infinity) || (u == 0 && v == 0) then z == InvalidNaN(l)
    else if u == l.infinity then z == Quietly(SignedWord(l, neg, l.infinity))
    else if v == 0 then z == Returned(SignedWord(l, neg, l.infinity), Flags(false, true, false, false, false))
    else z == Quietly(SignedWord(l, neg, 0))
  }

  /** And a product. */
  ghost predicate IsFixedProduct(l: Layout, x: nat, y: nat, z: Returned) {
    var u, v, neg := Part(l, x), Part(l, y), Minus(l, x) != Minus(l, y);
    if u > l.infinity || v > l.infinity then z == PropagatedNaN(l, x, y)
    else if (u == l.infinity && v == 0) || (u == 0 && v == l.infinity) then z == InvalidNaN(l)
    else if u == l.infinity || v == l.infinity then z == Quietly(SignedWord(l, neg, l.infinity))
    else z == Quietly(SignedWord(l, neg, 0))
  }

  /** z is x divided by y. */
  ghost predicate IsQuotient(l: Layout, mode: Mode, before: bool, x: nat, y: nat, z: Returned) {
    && IsLayout(l)
    && if Finite(l, x) && Finite(l, y) then
         RoundedTo(l, mode, before, Minus(l, x) != Minus(l, y),
                   Times(Value(l, Part(l, x)), Value(l, l.one)), Value(l, Part(l, y)), z)
       else IsFixedQuotient(l, x, y, z)
  }

  /** z is x times y. */
  ghost predicate IsProduct(l: Layout, mode: Mode, before: bool, x: nat, y: nat, z: Returned) {
    && IsLayout(l)
    && if Finite(l, x) && Finite(l, y) then
         RoundedTo(l, mode, before, Minus(l, x) != Minus(l, y),
                   Times(Value(l, Part(l, x)), Value(l, Part(l, y))), Value(l, l.one), z)
       else IsFixedProduct(l, x, y, z)
  }

  // ----- Laws that pin down what these mean

  lemma SameWord(l: Layout, x: nat)
    requires x < 2 * l.signBit
    ensures SignedWord(l, Minus(l, x), Part(l, x)) == x
  {
  }

  /** A value that has an encoding is delivered as it is, and nothing is raised. */
  lemma ExactResult(l: Layout, mode: Mode, before: bool, neg: bool, u: nat, k: nat, z: Returned)
    requires IsLayout(l) && l.infinity == l.top * l.hidden && u < l.infinity && k > 0
    requires RoundedTo(l, mode, before, neg, Times(Value(l, u), k), k, z)
    ensures z == Quietly(SignedWord(l, neg, u))
  {
    var p := Packed(Minus(l, z.ui), Part(l, z.ui), z.raised.inexact, z.raised.overflow, z.raised.underflow);
    TimesIs(Value(l, u), k);
    assert 1 * k == k;
    CorrectlyRoundedScale(l.hidden, l.top, mode, before, neg, Value(l, u), 1, k, p);
    ValueOfIs(l.hidden, u);
    PackedExactly(l.hidden, l.top, mode, before, neg, u, p);
  }

  /** Dividing by one delivers the dividend, and nothing is raised. */
  lemma DividedByOne(l: Layout, mode: Mode, before: bool, x: nat, z: Returned)
    requires l.infinity == l.top * l.hidden && x < 2 * l.signBit && Part(l, x) <= l.infinity
    requires IsQuotient(l, mode, before, x, l.one, z)
    ensures z == Quietly(x)
  {
    if Finite(l, x) {
      PositiveValue(l, l.one);
      ExactResult(l, mode, before, Minus(l, x), Part(l, x), Value(l, l.one), z);
    }
  }

  /** So does multiplying by one. */
  lemma TimesOne(l: Layout, mode: Mode, before: bool, x: nat, z: Returned)
    requires l.infinity == l.top * l.hidden && x < 2 * l.signBit && Part(l, x) <= l.infinity
    requires IsProduct(l, mode, before, x, l.one, z)
    ensures z == Quietly(x)
  {
    if Finite(l, x) {
      PositiveValue(l, l.one);
      ExactResult(l, mode, before, Minus(l, x), Part(l, x), Value(l, l.one), z);
    }
  }

  /** A finite nonzero number divided by itself is one. */
  lemma DividedByItself(l: Layout, mode: Mode, before: bool, x: nat, z: Returned)
    requires l.infinity == l.top * l.hidden && Finite(l, x)
    requires IsQuotient(l, mode, before, x, x, z)
    ensures z == Quietly(l.one)
  {
    PositiveValue(l, Part(l, x));
    TimesCommutes(Value(l, l.one), Value(l, Part(l, x)));
    ExactResult(l, mode, before, false, l.one, Value(l, Part(l, x)), z);
  }

  lemma TimesCommutes(m: nat, n: nat)
    ensures Times(m, n) == Times(n, m)
  {
    TimesIs(m, n);
    TimesIs(n, m);
  }

  /** The order of the factors does not matter. */
  lemma ProductCommutes(l: Layout, mode: Mode, before: bool, x: nat, y: nat, z: Returned)
    requires IsProduct(l, mode, before, x, y, z)
    ensures IsProduct(l, mode, before, y, x, z)
  {
    TimesCommutes(Value(l, Part(l, x)), Value(l, Part(l, y)));
  }

  /** A value, the mode and the tininess rule determine word and exceptions. */
  lemma RoundedToUnique(l: Layout, mode: Mode, before: bool, neg: bool, num: nat, den: nat, z: Returned, z': Returned)
    requires RoundedTo(l, mode, before, neg, num, den, z) && RoundedTo(l, mode, before, neg, num, den, z')
    ensures z == z'
  {
    CorrectlyRoundedUnique(l.hidden, l.top, mode, before, neg, num, den,
        Packed(Minus(l, z.ui), Part(l, z.ui), z.raised.inexact, z.raised.overflow, z.raised.underflow),
        Packed(Minus(l, z'.ui), Part(l, z'.ui), z'.raised.inexact, z'.raised.overflow, z'.raised.underflow));
  }

  /** What an overflow delivers: infinity to nearest and away from zero, the largest finite number otherwise. */
  lemma OverflowByMode(l: Layout, mode: Mode, before: bool, neg: bool, num: nat, den: nat, z: Returned)
    requires l.infinity == l.top * l.hidden && RoundedTo(l, mode, before, neg, num, den, z) && z.raised.overflow
    ensures Minus(l, z.ui) == neg && z.raised.inexact
    ensures Part(l, z.ui)
         == match mode
            case NearEven => l.infinity
            case NearMaxMag => l.infinity
            case Min => if neg then l.infinity else l.infinity - 1
            case Max => if neg then l.infinity - 1 else l.infinity
            case MinMag => l.infinity - 1
            case Odd => l.infinity - 1
  {
    var e, v :| Rounded(l.hidden, l.top, mode, before, neg, num, den, e, v,
                        Packed(Minus(l, z.ui), Part(l, z.ui),
                               z.raised.inexact, z.raised.overflow, z.raised.underflow));
  }

  lemma QuotientIsDetermined(l: Layout, mode: Mode, before: bool, x: nat, y: nat, z: Returned, z': Returned)
    requires IsQuotient(l, mode, before, x, y, z) && IsQuotient(l, mode, before, x, y, z')
    ensures z == z'
  {
    var u, v, neg := Part(l, x), Part(l, y), Minus(l, x) != Minus(l, y);
    if Finite(l, x) && Finite(l, y) {
      RoundedToUnique(l, mode, before, neg, Times(Value(l, u), Value(l, l.one)), Value(l, v), z, z');
    }
  }

  lemma ProductIsDetermined(l: Layout, mode: Mode, before: bool, x: nat, y: nat, z: Returned, z': Returned)
    requires IsProduct(l, mode, before, x, y, z) && IsProduct(l, mode, before, x, y, z')
    ensures z == z'
  {
    var u, v, neg := Part(l, x), Part(l, y), Minus(l, x) != Minus(l, y);
    if Finite(l, x) && Finite(l, y) {
      RoundedToUnique(l, mode, before, neg, Times(Value(l, u), Value(l, v)), Value(l, l.one), z, z');
    }
  }

  // ----- From fields and answers to words

  /** The fields are those of the word. */
  ghost predicate FieldsOf(l: Layout, ui: nat, x: Fields) {
    && ui < 2 * l.signBit && x.sign == Minus(l, ui)
    && x.exp <= l.top && x.frac < l.hidden && Part(l, ui) == x.exp * l.hidden + x.frac
  }

  lemma Classified(l: Layout, F: nat, ui: nat, x: Fields)
    requires IsLayout(l) && l.infinity == l.top * l.hidden && l.hidden == Pow2(F) && FieldsOf(l, ui, x)
    ensures Part(l, ui) > l.infinity <==> IsNaN(l.top, x)
    ensures Part(l, ui) == l.infinity <==> IsInfinite(l.top, x)
    ensures Part(l, ui) == 0 <==> IsZero(x)
    ensures Value(l, Part(l, ui)) == Magnitude(F, x)
  {
    RawIs(F, Part(l, ui), x);
    ValueOfIs(l.hidden, Part(l, ui));
    OneMore(x.exp, l.hidden);
    if x.exp < l.top { MulLe(x.exp + 1, l.top, l.hidden); }
    if x.exp > 0 { MulLe(1, x.exp, l.hidden); }
  }

  /** Both vocabularies for one format. */
  ghost predicate SameFormat(k: Kind, l: Layout) {
    && IsKind(k) && IsLayout(l) && k.fmt.hidden == l.hidden && k.fmt.top == l.top && l.infinity == l.top * l.hidden
    && Pow2(k.unitExp) == Value(l, l.one)
  }

  /** The word and the exceptions for each way an operation ends. */
  function Assembled(fmt: Format, answer: Answer, signaling: bool): Returned {
    var infinity := fmt.top * fmt.hidden;
    var signBit := infinity + fmt.hidden;
    var nan := infinity + fmt.hidden / 2;
    match answer
    case PropagateNaN => Returned(nan, Flags(signaling, false, false, false, false))
    case Invalid => Returned(nan, Flags(true, false, false, false, false))
    case Infinity(sign, divideByZero) =>
      Returned((if sign then signBit else 0) + infinity, Flags(false, divideByZero, false, false, false))
    case Zero(sign) => Returned(if sign then signBit else 0, Flags(false, false, false, false, false))
    case Finite(p) =>
      Returned((if p.sign then signBit else 0) + p.raw, Flags(false, false, p.overflow, p.underflow, p.inexact))
  }

  lemma FiniteDelivered(k: Kind, l: Layout, mode: Mode, before: bool, neg: bool, num: nat, den: nat, p: Packed)
    requires SameFormat(k, l) && den > 0 && CorrectlyRounded(l.hidden, l.top, mode, before, neg, num, den, p)
    ensures RoundedTo(l, mode, before, neg, num, den, Assembled(k.fmt, Answer.Finite(p), false))
  {
    RawAtMostInfinity(l.hidden, l.top, mode, before, neg, num, den, p);
  }

  lemma FixedDelivered(k: Kind, l: Layout, x: nat, y: nat, a: Fields, c: Fields, answer: Answer, signaling: bool)
    requires SameFormat(k, l) && FieldsOf(l, x, a) && FieldsOf(l, y, c)
    requires signaling <==> Signaling(l, x) || Signaling(l, y)
    requires !(Finite(l, x) && Finite(l, y))
    ensures DivideFixed(l.top, a, c, answer) ==> IsFixedQuotient(l, x, y, Assembled(k.fmt, answer, signaling))
    ensures MultiplyFixed(l.top, a, c, answer) ==> IsFixedProduct(l, x, y, Assembled(k.fmt, answer, signaling))
  {
    Classified(l, k.F, x, a);
    Classified(l, k.F, y, c);
  }

  lemma SameOrdinary(k: Kind, l: Layout, x: nat, y: nat, a: Fields, c: Fields)
    requires SameFormat(k, l) && FieldsOf(l, x, a) && FieldsOf(l, y, c)
    ensures Ordinary(l.top, a, c) <==> Finite(l, x) && Finite(l, y)
    ensures Value(l, Part(l, x)) == Magnitude(k.F, a) && Value(l, Part(l, y)) == Magnitude(k.F, c)
  {
    Classified(l, k.F, x, a);
    Classified(l, k.F, y, c);
  }

  lemma QuotientDelivered(k: Kind, l: Layout, mode: Mode, before: bool, x: nat, y: nat, a: Fields, c: Fields,
                          answer: Answer, signaling: bool)
    requires SameFormat(k, l) && FieldsOf(l, x, a) && FieldsOf(l, y, c)
    requires signaling <==> Signaling(l, x) || Signaling(l, y)
    requires DivideCorrect(k, mode, before, a, c, answer)
    ensures IsQuotient(l, mode, before, x, y, Assembled(k.fmt, answer, signaling))
  {
    SameOrdinary(k, l, x, y, a, c);
    if Finite(l, x) && Finite(l, y) {
      PositiveValue(l, Part(l, y));
      TimesIs(Value(l, Part(l, x)), Value(l, l.one));
      FiniteDelivered(k, l, mode, before, a.sign != c.sign, Times(Value(l, Part(l, x)), Value(l, l.one)),
                      Value(l, Part(l, y)), answer.packed);
    } else {
      FixedDelivered(k, l, x, y, a, c, answer, signaling);
    }
  }

  lemma ProductDelivered(k: Kind, l: Layout, mode: Mode, before: bool, x: nat, y: nat, a: Fields, c: Fields,
                         answer: Answer, signaling: bool)
    requires SameFormat(k, l) && FieldsOf(l, x, a) && FieldsOf(l, y, c)
    requires signaling <==> Signaling(l, x) || Signaling(l, y)
    requires MultiplyCorrect(k, mode, before, a, c, answer)
    ensures IsProduct(l, mode, before, x, y, Assembled(k.fmt, answer, signaling))
  {
    SameOrdinary(k, l, x, y, a, c);
    if Finite(l, x) && Finite(l, y) {
      PositiveValue(l, l.one);
      TimesIs(Value(l, Part(l, x)), Value(l, Part(l, y)));
      FiniteDelivered(k, l, mode, before, a.sign != c.sign, Times(Value(l, Part(l, x)), Value(l, Part(l, y))),
                      Value(l, l.one), answer.packed);
    } else {
      FixedDelivered(k, l, x, y, a, c, answer, signaling);
    }
  }
}
