/** Comparisons on encodings (section 5.11 of IEEE 754-2019), for any width, and why they order the
    encoded values. */
module Compare {
  import opened Arith
  import opened Encoding
  import opened Rounding
  import opened RoundInt

  const Binary64: Binary := Binary(52, 0x3FF, 0x7FF, 0x10_0000_0000_0000, 0x8000_0000_0000_0000)

  lemma Binary64IsBinary()
    ensures IsBinary(Binary64)
  {
    Pow2Of64();
    assert Pow2(4) == 0x10;
    assert Pow2(12) == 0x1000;
    assert Pow2(20) == 0x10_0000;
    Pow2Of32();
    Pow2Add(20, 32);
  }

  /** The landmarks of the three formats: the encodings of one, of infinity and of negative zero, and that
      the first has the value that counts as one. */
  lemma Landmarks()
    ensures Binary32.bias * Binary32.hidden == 0x3F80_0000 && Binary32.top * Binary32.hidden == 0x7F80_0000
    ensures Binary64.bias * Binary64.hidden == 0x3FF0_0000_0000_0000
    ensures Binary64.top * Binary64.hidden == 0x7FF0_0000_0000_0000
    ensures Binary128.bias * Binary128.hidden == 0x3FFF_0000_0000_0000_0000_0000_0000_0000
    ensures Binary128.top * Binary128.hidden == 0x7FFF_0000_0000_0000_0000_0000_0000_0000
    ensures Binary32.signBit == 0x8000_0000 && Binary64.signBit == 0x8000_0000_0000_0000
    ensures Binary128.signBit == 0x8000_0000_0000_0000_0000_0000_0000_0000
    ensures forall b :: b == Binary32 || b == Binary64 || b == Binary128 ==>
              IsBinary(b) && EncodedValue(b.hidden, b.bias * b.hidden) == One(b.hidden, b.bias)
  {
    Binary32IsBinary();
    Binary64IsBinary();
    Binary128IsBinary();
    forall b | b == Binary32 || b == Binary64 || b == Binary128
      ensures IsBinary(b) && EncodedValue(b.hidden, b.bias * b.hidden) == One(b.hidden, b.bias)
    {
      OneIsEncoded(b);
    }
  }

  lemma OneIsEncoded(b: Binary)
    requires IsBinary(b)
    ensures EncodedValue(b.hidden, b.bias * b.hidden) == One(b.hidden, b.bias)
  {
    OneMore(b.bias - 1, b.hidden);
    EncodedAt(b.hidden, b.bias - 1, b.hidden, b.bias * b.hidden);
  }

  /** What a comparison returns, and whether it raises the invalid exception. */
  datatype Verdict = Verdict(holds: bool, invalid: bool)

  predicate NaN(b: Binary, ui: nat) { Unsigned(b, ui) > b.top * b.hidden }

  /** NaNs whose quiet bit, the fraction's highest, is clear. */
  predicate SignalingNaN(b: Binary, ui: nat) { NaN(b, ui) && Unsigned(b, ui) < b.top * b.hidden + b.hidden / 2 }

  /** The encoded number, infinities standing above and below all finite ones. */
  ghost function ExtendedReal(b: Binary, ui: nat): int
    requires b.hidden > 0
  {
    Signed(Negative(b, ui), EncodedValue(b.hidden, Unsigned(b, ui)))
  }

  function BothZero(b: Binary, x: nat, y: nat): bool { Unsigned(b, x) == 0 && Unsigned(b, y) == 0 }

  function LessThan(b: Binary, x: nat, y: nat): Verdict {
    if NaN(b, x) || NaN(b, y) then Verdict(false, true)
    else
      var signA, signB := Negative(b, x), Negative(b, y);
      Verdict(if signA != signB then signA && !BothZero(b, x, y) else x != y && (signA != (x < y)), false)
  }

  function LessOrEqual(b: Binary, x: nat, y: nat): Verdict {
    if NaN(b, x) || NaN(b, y) then Verdict(false, true)
    else
      var signA, signB := Negative(b, x), Negative(b, y);
      Verdict(if signA != signB then signA || BothZero(b, x, y) else x == y || (signA != (x < y)), false)
  }

  function Equal(b: Binary, x: nat, y: nat): Verdict {
    if NaN(b, x) || NaN(b, y) then Verdict(false, SignalingNaN(b, x) || SignalingNaN(b, y))
    else Verdict(x == y || BothZero(b, x, y), false)
  }

  /** All that the three formulas need to know about the values: a zero magnitude is the value
      zero, and magnitudes are ordered as their encodings. */
  lemma ValuesInOrder(b: Binary, x: nat, y: nat)
    requires b.hidden > 0
    ensures ExtendedReal(b, x) == 0 <==> Unsigned(b, x) == 0
    ensures Negative(b, x) ==> ExtendedReal(b, x) <= 0
    ensures !Negative(b, x) ==> ExtendedReal(b, x) >= 0
    ensures Negative(b, x) == Negative(b, y) ==>
              (ExtendedReal(b, x) < ExtendedReal(b, y) <==> x != y && (Negative(b, x) != (x < y)))
              && (ExtendedReal(b, x) == ExtendedReal(b, y) <==> x == y)
  {
    EncodedSmall(b.hidden, 0);
    EncodedInOrder(b.hidden, 0, Unsigned(b, x));
    EncodedInOrder(b.hidden, Unsigned(b, x), Unsigned(b, y));
  }

  /** Less than, on the encoded numbers; false and invalid if either is a NaN. */
  lemma LessThanIsOrder(b: Binary, x: nat, y: nat)
    requires b.hidden > 0
    ensures LessThan(b, x, y)
         == if NaN(b, x) || NaN(b, y) then Verdict(false, true)
            else Verdict(ExtendedReal(b, x) < ExtendedReal(b, y), false)
  {
    ValuesInOrder(b, x, y);
    ValuesInOrder(b, y, x);
  }

  /** Less or equal, likewise. */
  lemma LessOrEqualIsOrder(b: Binary, x: nat, y: nat)
    requires b.hidden > 0
    ensures LessOrEqual(b, x, y)
         == if NaN(b, x) || NaN(b, y) then Verdict(false, true)
            else Verdict(ExtendedReal(b, x) <= ExtendedReal(b, y), false)
  {
    ValuesInOrder(b, x, y);
    ValuesInOrder(b, y, x);
  }

  /** Equality, both zeros being equal; quiet NaNs compare unequal without an exception. */
  lemma EqualIsEquality(b: Binary, x: nat, y: nat)
    requires b.hidden > 0
    ensures Equal(b, x, y) == if NaN(b, x) || NaN(b, y) then Verdict(false, SignalingNaN(b, x) || SignalingNaN(b, y))
                              else Verdict(ExtendedReal(b, x) == ExtendedReal(b, y), false)
  {
    ValuesInOrder(b, x, y);
    ValuesInOrder(b, y, x);
  }

  /** Less than is the negation of the other two the other way round, and the order is total. */
  lemma TotalPreorder(b: Binary, x: nat, y: nat, z: nat)
    requires b.hidden > 0 && !NaN(b, x) && !NaN(b, y) && !NaN(b, z)
    ensures LessThan(b, x, y).holds <==> !LessOrEqual(b, y, x).holds
    ensures Equal(b, x, y).holds <==> LessOrEqual(b, x, y).holds && LessOrEqual(b, y, x).holds
    ensures LessOrEqual(b, x, x).holds
    ensures LessOrEqual(b, x, y).holds || LessOrEqual(b, y, x).holds
    ensures LessOrEqual(b, x, y).holds && LessOrEqual(b, y, z).holds ==> LessOrEqual(b, x, z).holds
  {
    LessThanIsOrder(b, x, y);
    EqualIsEquality(b, x, y);
    LessOrEqualIsOrder(b, x, y);
    LessOrEqualIsOrder(b, y, x);
    LessOrEqualIsOrder(b, y, z);
    LessOrEqualIsOrder(b, x, z);
    LessOrEqualIsOrder(b, x, x);
  }
}

/** f128_lt, f128_le and f128_eq: two 64-bit words. */
module F128Compare {
  import opened Words
  import opened Words128
  import opened RoundInt
  import opened F128RoundToInt
  import opened Compare

  predicate IsNaN(w: U128)
    ensures IsNaN(w) <==> NaN(Binary128, Value(w))
  {
    FieldOf(w);
    Exponent(w) == 0x7FFF && (w.v0 != 0 || Fraction64(w) != 0)
  }

  predicate IsSignaling(w: U128)
    ensures IsSignaling(w) <==> SignalingNaN(Binary128, Value(w))
  {
    FieldOf(w);
    w.v64 / 0x8000_0000_0000 % 0x1_0000 == 0xFFFE && (w.v0 != 0 || w.v64 % 0x8000_0000_0000 != 0)
  }

  predicate Zeros(a: U128, b: U128)
    ensures Zeros(a, b) <==> BothZero(Binary128, Value(a), Value(b))
  {
    FieldOf(a);
    FieldOf(b);
    a.v64 % TWO63 == 0 && b.v64 % TWO63 == 0 && a.v0 == 0 && b.v0 == 0
  }

  lemma SameWord(a: U128, b: U128)
    ensures Value(a) == Value(b) <==> a == b
  {
    if Value(a) == Value(b) {
      ValueIs(a, Value(b));
      ValueIs(b, Value(b));
    }
  }

  /** The word-pair formulas are the comparisons of the 128-bit encodings. */
  function Lt(a: U128, b: U128): (z: Verdict)
    ensures z == LessThan(Binary128, Value(a), Value(b))
  {
    FieldOf(a);
    FieldOf(b);
    SameWord(a, b);
    if IsNaN(a) || IsNaN(b) then Verdict(false, true)
    else
      var signA, signB := a.v64 >= TWO63, b.v64 >= TWO63;
      Verdict(if signA != signB then signA && !Zeros(a, b)
              else (a.v64 != b.v64 || a.v0 != b.v0) && (signA != Lt128(a, b)), false)
  }

  function Le(a: U128, b: U128): (z: Verdict)
    ensures z == LessOrEqual(Binary128, Value(a), Value(b))
  {
    FieldOf(a);
    FieldOf(b);
    SameWord(a, b);
    if IsNaN(a) || IsNaN(b) then Verdict(false, true)
    else
      var signA, signB := a.v64 >= TWO63, b.v64 >= TWO63;
      Verdict(if signA != signB then signA || Zeros(a, b)
              else (a.v64 == b.v64 && a.v0 == b.v0) || (signA != Lt128(a, b)), false)
  }

  function Eq(a: U128, b: U128): (z: Verdict)
    ensures z == Equal(Binary128, Value(a), Value(b))
  {
    FieldOf(a);
    FieldOf(b);
    SameWord(a, b);
    if IsNaN(a) || IsNaN(b) then Verdict(false, IsSignaling(a) || IsSignaling(b))
    else
      Verdict(a.v0 == b.v0 && (a.v64 == b.v64 || (a.v0 == 0 && a.v64 % TWO63 == 0 && b.v64 % TWO63 == 0)), false)
  }
}

/** f128M_lt, f128M_le and f128M_eq: four 32-bit words, most significant first. */
module F128MCompare {
  import opened Arith
  import opened Words
  import opened WordArrays
  import opened RoundInt
  import opened F128MRoundToInt
  import opened Compare

  lemma Parts(a: array<U32>)
    requires a.Length == 4
    ensures Unsigned(Binary128, Num(a[..]))
            == a[3] % TWO31 * 0x1_0000_0000_0000_0000_0000_0000 + a[2] * TWO64 + a[1] * TWO32 + a[0]
    ensures Negative(Binary128, Num(a[..])) <==> a[3] >= TWO31
  {
    Num4(a[..]);
  }

  method IsNaN(a: array<U32>) returns (nan: bool)
    requires a.Length == 4
    ensures nan <==> NaN(Binary128, Num(a[..]))
  {
    Parts(a);
    if a[3] / 0x1_0000 % 0x8000 != 0x7FFF {
      return false;
    }
    nan := a[3] % 0x1_0000 != 0 || a[2] != 0 || a[1] != 0 || a[0] != 0;
  }

  /** The quiet bit and the exponent, in the top word. */
  lemma QuietBit(w3: U32, low: nat)
    requires low < 0x1_0000_0000_0000_0000_0000_0000
    ensures var u, infinity := w3 % TWO31 * 0x1_0000_0000_0000_0000_0000_0000 + low, Binary128.top * Binary128.hidden;
            infinity < u < infinity + Binary128.hidden / 2
            <==> w3 / 0x8000 % 0x1_0000 == 0xFFFE && (w3 % 0x8000 != 0 || low != 0)
  {
    assert w3 % TWO31 == w3 / 0x8000 % 0x1_0000 * 0x8000 + w3 % 0x8000;
  }

  method IsSignaling(a: array<U32>) returns (signaling: bool)
    requires a.Length == 4
    ensures signaling <==> SignalingNaN(Binary128, Num(a[..]))
  {
    Parts(a);
    QuietBit(a[3], a[2] * TWO64 + a[1] * TWO32 + a[0]);
    if a[3] / 0x8000 % 0x1_0000 != 0xFFFE {
      return false;
    }
    signaling := a[3] % 0x8000 != 0 || a[2] != 0 || a[1] != 0 || a[0] != 0;
  }

  /** The first word that differs, from the top, decides. */
  method Compare128(a: array<U32>, b: array<U32>) returns (c: int)
    requires a.Length == 4 && b.Length == 4
    ensures c < 0 <==> Num(a[..]) < Num(b[..])
    ensures c == 0 <==> Num(a[..]) == Num(b[..])
  {
    var index := 3;
    assert Num(a[4..]) == 0 && Num(b[4..]) == 0;
    while true
      invariant 0 <= index < 4 && Num(a[index + 1..]) == Num(b[index + 1..])
      decreases index
    {
      Decide(a, b, index);
      if a[index] != b[index] {
        return if a[index] < b[index] then -1 else 1;
      }
      if index == 0 {
        assert a[0..] == a[..] && b[0..] == b[..];
        return 0;
      }
      index := index - 1;
    }
  }

  lemma Decide(a: array<U32>, b: array<U32>, index: nat)
    requires a.Length == 4 && b.Length == 4 && index < 4 && Num(a[index + 1..]) == Num(b[index + 1..])
    ensures a[index] == b[index] ==> Num(a[index..]) == Num(b[index..])
    ensures a[index] < b[index] ==> Num(a[..]) < Num(b[..])
    ensures a[index] > b[index] ==> Num(a[..]) > Num(b[..])
  {
    FromWord(a[..], index);
    FromWord(b[..], index);
    NumberFrom(a[..], index);
    NumberFrom(b[..], index);
    var fromA, fromB := From(a[..], index), From(b[..], index);
    OneMore(fromA, Weight(index));
    OneMore(fromB, Weight(index));
    if a[index] < b[index] { MulLe(fromA + 1, fromB, Weight(index)); }
    if a[index] > b[index] { MulLe(fromB + 1, fromA, Weight(index)); }
  }

  /** Whether any bit but the signs is set, looked for word by word. */
  method AnyMagnitude(a: array<U32>, b: array<U32>) returns (any: bool)
    requires a.Length == 4 && b.Length == 4
    ensures any <==> !BothZero(Binary128, Num(a[..]), Num(b[..]))
  {
    Parts(a);
    Parts(b);
    if a[3] % TWO31 != 0 || b[3] % TWO31 != 0 { return true; }
    if a[2] != 0 || b[2] != 0 { return true; }
    if a[1] != 0 || b[1] != 0 { return true; }
    any := a[0] != 0 || b[0] != 0;
  }

  lemma SameNumber(a: array<U32>, b: array<U32>)
    requires a.Length == 4 && b.Length == 4
    ensures Num(a[..]) == Num(b[..]) <==> a[3] == b[3] && a[2] == b[2] && a[1] == b[1] && a[0] == b[0]
  {
    var x1, y1 := a[3] * TWO32 + a[2], b[3] * TWO32 + b[2];
    var x0, y0 := a[1] * TWO32 + a[0], b[1] * TWO32 + b[0];
    Num4(a[..]);
    Num4(b[..]);
    SameDigits(a[3], a[2], b[3], b[2]);
    SameDigits(a[1], a[0], b[1], b[0]);
    SameHalves(x1, x0, y1, y0);
  }

  lemma SameDigits(x1: nat, x0: U32, y1: nat, y0: U32)
    ensures x1 * TWO32 + x0 == y1 * TWO32 + y0 <==> x1 == y1 && x0 == y0
  {
  }

  lemma SameHalves(x1: nat, x0: U64, y1: nat, y0: U64)
    ensures x1 * TWO64 + x0 == y1 * TWO64 + y0 <==> x1 == y1 && x0 == y0
  {
  }

  method Lt(a: array<U32>, b: array<U32>) returns (z: Verdict)
    requires a.Length == 4 && b.Length == 4
    ensures z == LessThan(Binary128, Num(a[..]), Num(b[..]))
  {
    Parts(a);
    Parts(b);
    var nanA := IsNaN(a);
    var nanB := IsNaN(b);
    if nanA || nanB {
      return Verdict(false, true);
    }
    var signA, signB := a[3] >= TWO31, b[3] >= TWO31;
    if signA != signB {
      if signB { return Verdict(false, false); }
      var any := AnyMagnitude(a, b);
      return Verdict(any, false);
    }
    var first, second := a, b;
    if signA {
      first, second := b, a;
    }
    var c := Compare128(first, second);
    z := Verdict(c < 0, false);
  }

  method Le(a: array<U32>, b: array<U32>) returns (z: Verdict)
    requires a.Length == 4 && b.Length == 4
    ensures z == LessOrEqual(Binary128, Num(a[..]), Num(b[..]))
  {
    Parts(a);
    Parts(b);
    var nanA := IsNaN(a);
    var nanB := IsNaN(b);
    if nanA || nanB {
      return Verdict(false, true);
    }
    var signA, signB := a[3] >= TWO31, b[3] >= TWO31;
    if signA != signB {
      if signA { return Verdict(true, false); }
      var any := AnyMagnitude(a, b);
      return Verdict(!any, false);
    }
    var first, second := a, b;
    if signA {
      first, second := b, a;
    }
    var c := Compare128(first, second);
    z := Verdict(c <= 0, false);
  }

  /** Equal words, or all zero but for the signs. */
  method SameOrZeros(a: array<U32>, b: array<U32>) returns (same: bool)
    requires a.Length == 4 && b.Length == 4
    ensures same <==> Num(a[..]) == Num(b[..]) || BothZero(Binary128, Num(a[..]), Num(b[..]))
  {
    Parts(a);
    Parts(b);
    SameNumber(a, b);
    if a[2] != b[2] { return false; }
    var possibleOppositeZeros := false;
    if a[3] != b[3] {
      possibleOppositeZeros := a[3] % TWO31 == 0 && b[3] % TWO31 == 0;
      if !possibleOppositeZeros { return false; }
    }
    var mash := a[2] != 0 || b[2] != 0;
    if a[1] != b[1] { return false; }
    mash := mash || a[1] != 0 || b[1] != 0;
    if a[0] != b[0] { return false; }
    if possibleOppositeZeros && (mash || a[0] != 0 || b[0] != 0) { return false; }
    same := true;
  }

  method Eq(a: array<U32>, b: array<U32>) returns (z: Verdict)
    requires a.Length == 4 && b.Length == 4
    ensures z == Equal(Binary128, Num(a[..]), Num(b[..]))
  {
    var same := SameOrZeros(a, b);
    if same {
      var nanA := IsNaN(a);
      var nanB := IsNaN(b);
      if !nanA && !nanB {
        return Verdict(true, false);
      }
    }
    var signalingA := IsSignaling(a);
    var signalingB := IsSignaling(b);
    z := Verdict(false, signalingA || signalingB);
  }
}
