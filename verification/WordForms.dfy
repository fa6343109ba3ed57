/** The 64- and 32-bit formats in the vocabulary of words. */
module WordForms {
  import opened Arith
  import opened Words
  import opened Floats
  import opened Formats
  import opened Encoding
  import opened Rounding
  import opened RoundPack
  import opened Operations
  import opened WordResults

  const LAYOUT64: Layout :=
    Layout(0x10_0000_0000_0000, 0x7FF, 0x3FF0_0000_0000_0000, 0x7FF0_0000_0000_0000, 0x8000_0000_0000_0000)
  const LAYOUT32: Layout := Layout(0x80_0000, 0xFF, 0x3F80_0000, 0x7F80_0000, 0x8000_0000)

  lemma OneOf(hidden: nat, F: nat, bias: nat, one: nat, unitExp: nat)
    requires hidden == Pow2(F) && bias > 0 && one == bias * hidden && unitExp == F + bias - 1
    ensures ValueOf(hidden, one) == Pow2(unitExp)
  {
    ValueOfIs(hidden, one);
    OneMore(bias - 1, hidden);
    EncodedAt(hidden, bias - 1, hidden, one);
    Pow2Add(F, bias - 1);
  }

  lemma DoubleLayout()
    ensures SameFormat(Double, LAYOUT64)
  {
    DoubleIsKind();
    OneOf(0x10_0000_0000_0000, 52, 0x3FF, 0x3FF0_0000_0000_0000, 1074);
  }

  lemma SingleLayout()
    ensures SameFormat(Single, LAYOUT32)
  {
    SingleIsKind();
    OneOf(0x80_0000, 23, 0x7F, 0x3F80_0000, 149);
  }

  lemma FieldsOf64(ui: U64)
    ensures FieldsOf(LAYOUT64, ui, Fields64(ui))
  {
    Parts64(ui);
  }

  lemma FieldsOf32(ui: U32)
    ensures FieldsOf(LAYOUT32, ui, Fields32(ui))
  {
    Parts32(ui);
  }

  /** The tests for signaling NaNs: the exponent all ones, the quiet bit clear, something below it. */
  predicate IsSigNaN64(ui: U64) {
    ui / 0x8_0000_0000_0000 % 0x1000 == 0xFFE && ui % 0x8_0000_0000_0000 != 0
  }

  predicate IsSigNaN32(ui: U32) { ui / 0x40_0000 % 0x200 == 0x1FE && ui % 0x40_0000 != 0 }

  lemma SignalingTest64(ui: U64)
    ensures IsSigNaN64(ui) <==> Signaling(LAYOUT64, ui)
  {
  }

  lemma SignalingTest32(ui: U32)
    ensures IsSigNaN32(ui) <==> Signaling(LAYOUT32, ui)
  {
  }

  /** The word returned for an answer. */
  method ReturnQuotient64(ghost mode: Mode, ghost before: bool, uiA: U64, uiB: U64, answer: Answer)
      returns (z: Returned)
    requires IsKind(Double) && DivideCorrect(Double, mode, before, Fields64(uiA), Fields64(uiB), answer)
    ensures IsQuotient(LAYOUT64, mode, before, uiA, uiB, z)
  {
    FieldsOf64(uiA);
    FieldsOf64(uiB);
    SignalingTest64(uiA);
    SignalingTest64(uiB);
    DoubleLayout();
    z := Assembled(F64, answer, IsSigNaN64(uiA) || IsSigNaN64(uiB));
    QuotientDelivered(Double, LAYOUT64, mode, before, uiA, uiB, Fields64(uiA), Fields64(uiB), answer,
                      IsSigNaN64(uiA) || IsSigNaN64(uiB));
  }

  /** The word returned for an answer. */
  method ReturnProduct64(ghost mode: Mode, ghost before: bool, uiA: U64, uiB: U64, answer: Answer)
      returns (z: Returned)
    requires IsKind(Double) && MultiplyCorrect(Double, mode, before, Fields64(uiA), Fields64(uiB), answer)
    ensures IsProduct(LAYOUT64, mode, before, uiA, uiB, z)
  {
    FieldsOf64(uiA);
    FieldsOf64(uiB);
    SignalingTest64(uiA);
    SignalingTest64(uiB);
    DoubleLayout();
    z := Assembled(F64, answer, IsSigNaN64(uiA) || IsSigNaN64(uiB));
    ProductDelivered(Double, LAYOUT64, mode, before, uiA, uiB, Fields64(uiA), Fields64(uiB), answer,
                     IsSigNaN64(uiA) || IsSigNaN64(uiB));
  }

  /** The word returned for an answer. */
  method ReturnQuotient32(ghost mode: Mode, ghost before: bool, uiA: U32, uiB: U32, answer: Answer)
      returns (z: Returned)
    requires IsKind(Single) && DivideCorrect(Single, mode, before, Fields32(uiA), Fields32(uiB), answer)
    ensures IsQuotient(LAYOUT32, mode, before, uiA, uiB, z)
  {
    FieldsOf32(uiA);
    FieldsOf32(uiB);
    SignalingTest32(uiA);
    SignalingTest32(uiB);
    SingleLayout();
    z := Assembled(F32, answer, IsSigNaN32(uiA) || IsSigNaN32(uiB));
    QuotientDelivered(Single, LAYOUT32, mode, before, uiA, uiB, Fields32(uiA), Fields32(uiB), answer,
                      IsSigNaN32(uiA) || IsSigNaN32(uiB));
  }

  /** The word returned for an answer. */
  method ReturnProduct32(ghost mode: Mode, ghost before: bool, uiA: U32, uiB: U32, answer: Answer)
      returns (z: Returned)
    requires IsKind(Single) && MultiplyCorrect(Single, mode, before, Fields32(uiA), Fields32(uiB), answer)
    ensures IsProduct(LAYOUT32, mode, before, uiA, uiB, z)
  {
    FieldsOf32(uiA);
    FieldsOf32(uiB);
    SignalingTest32(uiA);
    SignalingTest32(uiB);
    SingleLayout();
    z := Assembled(F32, answer, IsSigNaN32(uiA) || IsSigNaN32(uiB));
    ProductDelivered(Single, LAYOUT32, mode, before, uiA, uiB, Fields32(uiA), Fields32(uiB), answer,
                     IsSigNaN32(uiA) || IsSigNaN32(uiB));
  }

  /** Dividing or multiplying any number by one returns it as it is, and a finite number other than zero divided
      by itself is one; nothing is raised. */
  lemma OneIsNeutral64(mode: Mode, before: bool, x: U64, q: Returned, p: Returned, r: Returned)
    requires x % 0x8000_0000_0000_0000 <= 0x7FF0_0000_0000_0000
    requires var l := Layout(0x10_0000_0000_0000, 0x7FF, 0x3FF0_0000_0000_0000, 0x7FF0_0000_0000_0000,
                             0x8000_0000_0000_0000);
             && IsQuotient(l, mode, before, x, 0x3FF0_0000_0000_0000, q)
             && IsProduct(l, mode, before, x, 0x3FF0_0000_0000_0000, p)
             && IsQuotient(l, mode, before, x, x, r)
    ensures q == Returned(x, Flags(false, false, false, false, false)) && p == q
    ensures 0 < x % 0x8000_0000_0000_0000 < 0x7FF0_0000_0000_0000 ==>
              r == Returned(0x3FF0_0000_0000_0000, Flags(false, false, false, false, false))
  {
    DividedByOne(LAYOUT64, mode, before, x, q);
    TimesOne(LAYOUT64, mode, before, x, p);
    if 0 < x % 0x8000_0000_0000_0000 < 0x7FF0_0000_0000_0000 {
      DividedByItself(LAYOUT64, mode, before, x, r);
    }
  }

  /** Dividing or multiplying any number by one returns it as it is, and a finite number other than zero divided
      by itself is one; nothing is raised. */
  lemma OneIsNeutral32(mode: Mode, before: bool, x: U32, q: Returned, p: Returned, r: Returned)
    requires x % 0x8000_0000 <= 0x7F80_0000
    requires var l := Layout(0x80_0000, 0xFF, 0x3F80_0000, 0x7F80_0000, 0x8000_0000);
             && IsQuotient(l, mode, before, x, 0x3F80_0000, q) && IsProduct(l, mode, before, x, 0x3F80_0000, p)
             && IsQuotient(l, mode, before, x, x, r)
    ensures q == Returned(x, Flags(false, false, false, false, false)) && p == q
    ensures 0 < x % 0x8000_0000 < 0x7F80_0000 ==>
              r == Returned(0x3F80_0000, Flags(false, false, false, false, false))
  {
    DividedByOne(LAYOUT32, mode, before, x, q);
    TimesOne(LAYOUT32, mode, before, x, p);
    if 0 < x % 0x8000_0000 < 0x7F80_0000 {
      DividedByItself(LAYOUT32, mode, before, x, r);
    }
  }
}
