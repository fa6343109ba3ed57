/** f128M_roundToInt: four 32-bit words in a buffer, scanned from the least significant one up. */
module F128MRoundToInt {
  import opened Arith
  import opened Words
  import opened WordArrays
  import opened Rounding
  import opened RoundInt

  // Throughout, a is the operand's buffer, z the result's, which may be the same, and w what a held
  // at the start.

  /** Finds the word that holds bit p, clearing the words below it and noting whether any was not zero. */
  method Scan(a: array<U32>, z: array<U32>, p: nat, ghost w: seq<U32>) returns (index: nat, bitPos: nat, extra: bool)
    requires a.Length == 4 && z.Length == 4 && p < 128 && Unread(a, 0, w)
    modifies z
    ensures index < 4 && bitPos < 32 && p == 32 * index + bitPos && Unread(a, index, w)
    ensures Num(z[..index]) == 0 && (extra <==> Num(w[..index]) != 0)
  {
    index, bitPos, extra := 0, p, false;
    while bitPos >= 32
      invariant p == 32 * index + bitPos && index < 4 && Unread(a, index, w)
      invariant Num(z[..index]) == 0 && (extra <==> Num(w[..index]) != 0)
      decreases bitPos
    {
      extra := SkipWord(a, z, index, extra, w);
      index := index + 1;
      bitPos := bitPos - 32;
    }
  }

  method SkipWord(a: array<U32>, z: array<U32>, index: nat, extra: bool, ghost w: seq<U32>) returns (extra': bool)
    requires a.Length == 4 && z.Length == 4 && index < 4 && Unread(a, index, w)
    requires Num(z[..index]) == 0 && (extra <==> Num(w[..index]) != 0)
    modifies z
    ensures Unread(a, index + 1, w) && Num(z[..index + 1]) == 0 && (extra' <==> Num(w[..index + 1]) != 0)
  {
    UnreadWord(a, index, w);
    extra' := extra || a[index] != 0;
    ghost var done, rest := z[..index], a[index + 1..];
    z[index] := 0;
    assert a[index + 1..] == rest;
    assert z[..index + 1] == done + [0] && w[..index + 1] == w[..index] + [w[index]];
    SkippedWord(done, w[..index], w[index]);
  }

  lemma UnreadWord(a: array<U32>, index: nat, w: seq<U32>)
    requires index < a.Length && Unread(a, index, w)
    ensures a[index] == w[index] && Unread(a, index + 1, w)
  {
    assert a[index] == a[index..][0] && a[index + 1..] == a[index..][1..] && w[index + 1..] == w[index..][1..];
  }

  lemma SkippedWord(zs: seq<U32>, xs: seq<U32>, word: U32)
    requires Num(zs) == 0
    ensures Num(zs + [0]) == 0 && (Num(xs + [word]) != 0 <==> Num(xs) != 0 || word != 0)
  {
    NumAppend(zs, 0);
    NumAppend(xs, word);
    WordCounts(word, Weight(|xs|));
  }

  lemma WordCounts(x: nat, weight: nat)
    requires weight > 0
    ensures x * weight == 0 <==> x == 0
  {
    if x > 0 { MulLt(0, x, weight); }
  }

  /** The number above and including word `index`. */
  ghost function From(ws: seq<U32>, index: nat): nat
    requires index <= |ws|
  {
    Num(ws[index..])
  }

  lemma FromWord(ws: seq<U32>, index: nat)
    requires index < |ws|
    ensures From(ws, index) == From(ws, index + 1) * TWO32 + ws[index]
  {
    NumFirst(ws[index..]);
    assert ws[index..][1..] == ws[index + 1..];
  }

  /** Writes a word, and the words above it with a carry. */
  method StoreAndPropagate(a: array<U32>, z: array<U32>, index: nat, wordZ: U32, carry: nat, ghost w: seq<U32>)
    requires a.Length == 4 && z.Length == 4 && index < 4 && carry <= 1 && Unread(a, index + 1, w)
    requires From(w, index + 1) + carry < Weight(3 - index)
    modifies z
    ensures z[..index] == old(z[..index])
    ensures From(z[..], index) == (From(w, index + 1) + carry) * TWO32 + wordZ
  {
    ghost var low, rest := z[..index], a[index + 1..];
    z[index] := wordZ;
    assert z[..index] == low && a[index + 1..] == rest;
    ghost var upTo := z[..index + 1];
    PropagateCarry(a, z, index, carry, w);
    assert z[..index] == upTo[..index];
    assert z[index] == upTo[index];
    FromWord(z[..], index);
    assert z[..][index + 1..] == z[index + 1..];
  }

  /** There is room for a carry above every word. */
  predicate Roomy(ws: seq<U32>) { |ws| == 4 && ws[3] < 0xC06F_0000 }

  lemma Room(ws: seq<U32>, index: nat, carry: nat)
    requires Roomy(ws) && index < 4 && carry <= 1 && (index == 3 ==> carry == 0)
    ensures From(ws, index + 1) + carry < Weight(3 - index)
  {
    if index < 3 {
      NumRoom(ws[index + 1..]);
    } else {
      assert ws[4..] == [];
    }
  }

  /** A sum at one word: the carry out of it, and its remainder and quotient below the unit. */
  lemma WordSum(H: nat, word: U32, inc: nat, unit: nat, m: nat)
    requires unit > 0 && TWO32 == Times(m, unit) && inc <= TWO31
    ensures var wordZ, carry := Wrap32(word + inc), if Wrap32(word + inc) < word then 1 else 0;
            var t := H * TWO32 + word + inc;
            && t == (H + carry) * TWO32 + wordZ
            && t % unit == wordZ % unit
            && (m % 2 == 0 ==> t / unit % 2 == wordZ / unit % 2) && (m == 1 ==> t / unit == H + carry)
  {
    var wordZ, carry := Wrap32(word + inc), if Wrap32(word + inc) < word then 1 else 0;
    Carry32(word, inc);
    LowPart(H + carry, wordZ, unit, m, TWO32);
  }

  /** A tie whose units bit is the lowest bit of the next word. */
  method TieAcrossWords(a: array<U32>, z: array<U32>, index: nat, carry: nat, ghost k: nat, ghost w: seq<U32>)
    requires a.Length == 4 && z.Length == 4 && index < 3 && Roomy(w) && carry <= 1 && Unread(a, index + 1, w)
    requires From(w, index + 1) + carry == k
    modifies z
    ensures z[..index] == old(z[..index])
    ensures From(z[..], index) == (k - k % 2) * TWO32
  {
    ghost var low, rest := z[..index], a[index + 1..];
    z[index] := 0;
    assert z[..index] == low && a[index + 1..] == rest;
    ghost var upTo := z[..index + 1];
    TieInWord(a, z, index + 1, carry, k, w);
    assert z[..index] == upTo[..index] && z[index] == upTo[index];
    FromWord(z[..], index);
  }

  /** The units bit is this word's lowest. */
  method TieInWord(a: array<U32>, z: array<U32>, index: nat, carry: nat, ghost k: nat, ghost w: seq<U32>)
    requires a.Length == 4 && z.Length == 4 && index < 4 && Roomy(w) && carry <= 1 && Unread(a, index, w)
    requires From(w, index) + carry == k
    modifies z
    ensures z[..index] == old(z[..index])
    ensures From(z[..], index) == k - k % 2
  {
    UnreadWord(a, index, w);
    var wordZ := Wrap32(a[index] + carry);
    var carry' := if wordZ == 0 then carry else 0;
    FromWord(w, index);
    ghost var h := From(w, index + 1) + carry';
    assert k == h * TWO32 + wordZ;
    assert k % 2 == wordZ % 2;
    Room(w, index, carry');
    StoreAndPropagate(a, z, index, wordZ - wordZ % 2, carry', w);
  }

  /** Half the units bit added to a word, h being the number above it: the sum is k units and a rest. */
  method AddHalf(word: U32, bit: U32, unit: nat, ghost h: nat, ghost m: nat, ghost q: nat, ghost r: nat)
      returns (wordZ: U32, carry: nat, rest: nat, low: nat, unitSet: bool, ghost k: nat)
    requires if bit == TWO31 then m == 1 else m % 2 == 0
    requires 0 < bit <= TWO31 && unit == 2 * bit && TWO32 == Times(m, unit) && h * TWO32 + word == Times(q, unit) + r
             && r < unit
    ensures carry <= 1 && word + bit == carry * TWO32 + wordZ && k == if r >= bit then q + 1 else q
    ensures rest <= wordZ && (h + carry) * TWO32 + (wordZ - rest) == Times(k, unit)
    ensures (rest == 0 <==> r == bit) && low == r
    ensures if bit == TWO31 then h + carry == k else unitSet <==> k % 2 == 1
    ensures unitSet && rest == 0 ==> wordZ >= unit
  {
    wordZ := Wrap32(word + bit);
    carry := if wordZ < word then 1 else 0;
    Carry32(word, bit);
    k := if r >= bit then q + 1 else q;
    HalfSum(word, bit, unit, h, m, q, r, wordZ, carry, k);
    SetBit(wordZ, unit);
    rest, low, unitSet := wordZ % unit, word % unit, wordZ / unit % 2 == 1;
  }

  lemma SetBit(x: nat, unit: nat)
    requires unit > 0
    ensures x % unit <= x && (x / unit % 2 == 1 ==> x >= unit)
  {
    ModAtMost(x, unit);
    if x / unit % 2 == 1 { AtLeastOne(x, unit); }
  }

  lemma HalfSum(word: U32, bit: U32, unit: nat, h: nat, m: nat, q: nat, r: nat, wordZ: U32, carry: nat, k: nat)
    requires 0 < bit <= TWO31 && unit == 2 * bit && TWO32 == Times(m, unit) && h * TWO32 + word == Times(q, unit) + r
             && r < unit
    requires wordZ == Wrap32(word + bit) && carry == (if wordZ < word then 1 else 0)
             && k == if r >= bit then q + 1 else q
    ensures (h + carry) * TWO32 + (wordZ - wordZ % unit) == Times(k, unit)
    ensures (wordZ % unit == 0 <==> r == bit) && word % unit == r
    ensures (m % 2 == 0 ==> wordZ / unit % 2 == k % 2) && (m == 1 ==> h + carry == k)
  {
    TimesIs(q, unit);
    TimesIs(k, unit);
    WordSum(h, word, bit, unit, m);
    WordSum(h, word, 0, unit, m);
    SumParts(q, r, unit, bit);
    SumParts(q, r, unit, 0);
  }

  /** The sum's word, masked, unless a tie reaches into the next word. */
  method AddAndMaskWord(word: U32, bit: U32, even: bool, extra: bool, ghost h: nat, ghost m: nat, ghost q: nat,
                        ghost r: nat)
      returns (inexact: bool, across: bool, wordZ: U32, carry: nat, ghost k: nat)
    requires 0 < bit <= TWO31 && TWO32 == Times(m, 2 * bit)
    requires if bit == TWO31 then m == 1 else m % 2 == 0
    requires h * TWO32 + word == Times(q, 2 * bit) + r && r < 2 * bit
    ensures carry <= 1 && (carry == 1 ==> word + bit >= TWO32)
    ensures inexact <==> extra || r != 0
    ensures across <==> bit == TWO31 && even && !extra && r == bit
    ensures across ==> h + carry == k && k == q + 1
    ensures !across ==> (h + carry) * TWO32 + wordZ == Times(k, 2 * bit)
    ensures !across ==> k == if r > bit || (r == bit && (!even || extra || q % 2 == 1)) then q + 1 else q
  {
    var unit: nat := 2 * bit;
    var rest, low, unitSet;
    wordZ, carry, rest, low, unitSet, k := AddHalf(word, bit, unit, h, m, q, r);
    inexact := extra || low != 0;
    var tie := even && !extra && rest == 0;
    across := tie && Wrap32(unit) == 0;
    if !across {
      wordZ := MaskWord(wordZ, unit, rest, tie && unitSet, h + carry, k);
      k := if tie && unitSet then k - 1 else k;
    }
  }

  /** The two nearest modes. Here `bit` is half the units bit, which itself no longer fits in a word
      when bit is the word's top bit. */
  method Nearest(a: array<U32>, z: array<U32>, even: bool, index: nat, bit: U32, extra: bool,
                 ghost m: nat, ghost q: nat, ghost r: nat, ghost w: seq<U32>)
      returns (inexact: bool, ghost k: nat)
    requires a.Length == 4 && z.Length == 4 && index < 4 && Roomy(w) && Unread(a, index, w)
    requires 0 < bit <= TWO31 && TWO32 == Times(m, 2 * bit) && (index == 3 ==> bit <= 0x8000)
    requires if bit == TWO31 then m == 1 else m % 2 == 0
    requires From(w, index) == Times(q, 2 * bit) + r && r < 2 * bit
    modifies z
    ensures z[..index] == old(z[..index])
    ensures inexact <==> extra || r != 0
    ensures From(z[..], index) == Times(k, 2 * bit)
    ensures k == if r > bit || (r == bit && (!even || extra || q % 2 == 1)) then q + 1 else q
  {
    FromWord(w, index);
    UnreadWord(a, index, w);
    var across, wordZ, carry;
    inexact, across, wordZ, carry, k := AddAndMaskWord(a[index], bit, even, extra, From(w, index + 1), m, q, r);
    if across {
      TieAcrossWords(a, z, index, carry, k, w);
      k := k - k % 2;
      TimesIs(k, TWO32);
    } else {
      Store(a, z, index, wordZ, carry, 2 * bit, k, w);
    }
  }

  /** Clears what is below the units bit, and in an odd tie the units bit too. */
  method MaskWord(word: U32, unit: nat, rest: nat, lower: bool, ghost h: nat, ghost k: nat) returns (wordZ: U32)
    requires unit > 0 && rest <= word && h * TWO32 + (word - rest) == Times(k, unit)
    requires lower ==> rest == 0 && word >= unit && k > 0
    ensures h * TWO32 + wordZ == Times(if lower then k - 1 else k, unit)
  {
    if lower {
      wordZ := word - unit;
    } else {
      wordZ := word - rest;
    }
  }

  method Store(a: array<U32>, z: array<U32>, index: nat, wordZ: U32, carry: nat, ghost unit: nat, ghost k: nat,
               ghost w: seq<U32>)
    requires a.Length == 4 && z.Length == 4 && index < 4 && Roomy(w) && carry <= 1 && (index == 3 ==> carry == 0)
    requires Unread(a, index + 1, w) && (From(w, index + 1) + carry) * TWO32 + wordZ == Times(k, unit)
    modifies z
    ensures z[..index] == old(z[..index])
    ensures From(z[..], index) == Times(k, unit)
  {
    Room(w, index, carry);
    StoreAndPropagate(a, z, index, wordZ, carry, w);
  }

  /** The word for the other modes: up by the units bit, or with it set, or as it is; then masked. */
  method DirectedWord(word: U32, bit: U32, up: bool, odd: bool, extra: bool, ghost h: nat, ghost m: nat, ghost q: nat,
                      ghost r: nat)
      returns (inexact: bool, wordZ: U32, carry: nat, ghost k: nat)
    requires 0 < bit <= TWO31 && TWO32 == Times(m, bit) && m % 2 == 0
    requires h * TWO32 + word == Times(q, bit) + r && r < bit
    ensures carry <= 1 && (carry == 1 ==> word + bit >= TWO32)
    ensures inexact <==> extra || r != 0
    ensures (h + carry) * TWO32 + wordZ == Times(k, bit)
    ensures k == if inexact && (up || (odd && q % 2 == 0)) then q + 1 else q
  {
    TimesIs(q, bit);
    WordSum(h, word, 0, bit, m);
    SumParts(q, r, bit, 0);
    inexact := extra || word % bit != 0;
    if inexact && up {
      wordZ, carry := RaiseWord(word, bit, h, m, q, r);
      k := q + 1;
    } else {
      wordZ := MaskOrSet(word, bit, h, m, q, inexact && odd);
      k := if inexact && odd && q % 2 == 0 then q + 1 else q;
      carry := 0;
    }
  }

  method RaiseWord(word: U32, bit: U32, ghost h: nat, ghost m: nat, ghost q: nat, ghost r: nat)
      returns (wordZ: U32, carry: nat)
    requires 0 < bit <= TWO31 && TWO32 == Times(m, bit) && h * TWO32 + word == q * bit + r && r < bit
    ensures carry <= 1 && (carry == 1 ==> word + bit >= TWO32)
    ensures (h + carry) * TWO32 + wordZ == Times(q + 1, bit)
  {
    var sum := Wrap32(word + bit);
    carry := if sum < word then 1 else 0;
    WordSum(h, word, bit, bit, m);
    SumParts(q, r, bit, bit);
    TimesIs(q + 1, bit);
    ModAtMost(sum, bit);
    wordZ := sum - sum % bit;
  }

  method MaskOrSet(word: U32, bit: U32, ghost h: nat, ghost m: nat, ghost q: nat, odd: bool) returns (wordZ: U32)
    requires 0 < bit && TWO32 == Times(m, bit) && m % 2 == 0
    requires word / bit % 2 == q % 2 && h * TWO32 + (word - word % bit) == Times(q, bit)
    ensures h * TWO32 + wordZ == Times(if odd && q % 2 == 0 then q + 1 else q, bit)
  {
    ModAtMost(word, bit);
    wordZ := word - word % bit;
    if odd && word / bit % 2 == 0 {
      RoomForUnits(word, bit, m, TWO32);
      wordZ := wordZ + bit;
    }
  }

  /** The bit at which the scan stops, as a unit of its word and of the whole number. */
  lemma UnitAt(index: nat, bitPos: nat)
    requires bitPos < 32
    ensures var bit := Pow2(bitPos);
            0 < bit <= TWO31 && (bit == TWO31 <==> bitPos == 31) && bit * Weight(index) == Pow2(32 * index + bitPos)
  {
    Pow2Of32();
    Pow2Le(bitPos, 31);
    if bitPos < 31 { Pow2Lt(bitPos, 31); }
    WeightIs(index);
    SameWeight(bitPos, 32 * index, 0, 32 * index + bitPos);
  }

  lemma UnitsInWord(bitPos: nat)
    requires bitPos < 32
    ensures TWO32 == Times(Pow2(32 - bitPos), Pow2(bitPos)) && Pow2(32 - bitPos) % 2 == 0
    ensures TWO32 == Times(Pow2(31 - bitPos), 2 * Pow2(bitPos))
    ensures if bitPos == 31 then Pow2(31 - bitPos) == 1 else Pow2(31 - bitPos) % 2 == 0
  {
    WordInUnits(32 - bitPos, bitPos);
    WordInUnits(31 - bitPos, bitPos + 1);
    Pow2Even(32 - bitPos);
    if bitPos != 31 { Pow2Even(31 - bitPos); }
  }

  lemma WordInUnits(m: nat, n: nat)
    requires m + n == 32
    ensures TWO32 == Times(Pow2(m), Pow2(n))
  {
    Pow2Of32();
    Pow2Add(m, n);
    TimesIs(Pow2(m), Pow2(n));
  }

  /** Words zero below `index`: the number is what is above. */
  lemma WholeNumber(ws: seq<U32>, index: nat)
    requires index <= |ws| && Num(ws[..index]) == 0
    ensures Num(ws) == From(ws, index) * Weight(index)
  {
    NumSplit(ws, index);
  }

  lemma Multiples(k: nat, unit: nat, weight: nat, L: nat)
    requires unit * weight == L
    ensures Times(k, unit) * weight == k * L
  {
    TimesIs(k, unit);
    Assoc(k, unit, weight);
  }

  lemma NumberFrom(ws: seq<U32>, index: nat)
    requires index <= |ws|
    ensures Num(ws) == From(ws, index) * Weight(index) + Num(ws[..index]) && Num(ws[..index]) < Weight(index)
  {
    NumSplit(ws, index);
    NumBound(ws[..index]);
  }

  /** Rounding to nearest, in terms of the words from `index` up and of what is below them. */
  lemma NearestParts(even: bool, neg: bool, v: nat, B: nat, lo: nat, bit: nat, L: nat) returns (q: nat, r: nat)
    requires bit > 0 && lo < B && L == 2 * bit * B
    ensures L > 0 && v == Times(q, 2 * bit) + r && r < 2 * bit
    ensures Round(if even then NearEven else NearMaxMag, neg, v * B + lo, L)
            == if r > bit || (r == bit && (!even || lo != 0 || q % 2 == 1)) then q + 1 else q
    ensures (v * B + lo) % L == 0 <==> r == 0 && lo == 0
  {
    q, r := StickyParts(if even then NearEven else NearMaxMag, neg, v, B, lo, 2 * bit);
    HalfTest(r, B, lo, 2 * bit);
    TimesIs(q, 2 * bit);
  }

  method RoundNearest(a: array<U32>, z: array<U32>, even: bool, neg: bool, p: nat, ghost L: nat, ghost w: seq<U32>)
      returns (inexact: bool)
    requires a.Length == 4 && z.Length == 4 && Roomy(w) && Unread(a, 0, w) && p < 112 && L == Pow2(p + 1)
    modifies z
    ensures Num(z[..]) == Round(if even then NearEven else NearMaxMag, neg, Num(w), L) * L
    ensures inexact <==> Num(w) % L != 0
  {
    var index, bitPos, extra := Scan(a, z, p, w);
    var bit := Pow2(bitPos);
    UnitAt(index, bitPos);
    UnitsInWord(bitPos);
    SmallBit(bitPos);
    NumberFrom(w, index);
    Assoc(2, bit, Weight(index));
    ghost var q, r := NearestParts(even, neg, From(w, index), Weight(index), Num(w[..index]), bit, L);
    ghost var k;
    ghost var low := z[..index];
    inexact, k := Nearest(a, z, even, index, bit, extra, Pow2(31 - bitPos), q, r, w);
    assert z[..][..index] == low;
    WholeNumber(z[..], index);
    Multiples(k, 2 * bit, Weight(index), L);
  }

  lemma SmallBit(bitPos: nat)
    ensures bitPos <= 15 ==> Pow2(bitPos) <= 0x8000
    ensures bitPos <= 16 ==> Pow2(bitPos) <= 0x1_0000
  {
    assert Pow2(8) == 0x100;
    assert Pow2(15) == 0x8000;
    if bitPos <= 15 { Pow2Le(bitPos, 15); }
    if bitPos <= 16 { Pow2Le(bitPos, 16); }
  }

  /** Whether a mode that does not round to nearest goes away from zero. */
  predicate Away(mode: Mode, neg: bool) { mode == (if neg then Min else Max) }

  method Directed(a: array<U32>, z: array<U32>, up: bool, odd: bool, index: nat, bit: U32, extra: bool,
                  ghost m: nat, ghost q: nat, ghost r: nat, ghost w: seq<U32>)
      returns (inexact: bool, ghost k: nat)
    requires a.Length == 4 && z.Length == 4 && index < 4 && Roomy(w) && Unread(a, index, w)
    requires 0 < bit <= TWO31 && TWO32 == Times(m, bit) && m % 2 == 0 && (index == 3 ==> bit <= 0x1_0000)
    requires From(w, index) == Times(q, bit) + r && r < bit
    modifies z
    ensures z[..index] == old(z[..index])
    ensures inexact <==> extra || r != 0
    ensures From(z[..], index) == Times(k, bit)
    ensures k == if inexact && (up || (odd && q % 2 == 0)) then q + 1 else q
  {
    FromWord(w, index);
    UnreadWord(a, index, w);
    var wordZ, carry;
    inexact, wordZ, carry, k := DirectedWord(a[index], bit, up, odd, extra, From(w, index + 1), m, q, r);
    Store(a, z, index, wordZ, carry, bit, k, w);
  }

  lemma DirectedParts(mode: Mode, neg: bool, v: nat, B: nat, lo: nat, bit: nat, L: nat) returns (q: nat, r: nat)
    requires bit > 0 && lo < B && L == bit * B && !mode.NearEven? && !mode.NearMaxMag?
    ensures L > 0 && v == Times(q, bit) + r && r < bit
    ensures Round(mode, neg, v * B + lo, L)
         == if (r != 0 || lo != 0) && (Away(mode, neg) || (mode.Odd? && q % 2 == 0)) then q + 1 else q
    ensures (v * B + lo) % L == 0 <==> r == 0 && lo == 0
  {
    q, r := StickyParts(mode, neg, v, B, lo, bit);
    TimesIs(q, bit);
  }

  method RoundDirected(a: array<U32>, z: array<U32>, mode: Mode, neg: bool, p: nat, ghost L: nat, ghost w: seq<U32>)
      returns (inexact: bool)
    requires a.Length == 4 && z.Length == 4 && Roomy(w) && Unread(a, 0, w) && p <= 112 && L == Pow2(p)
    requires !mode.NearEven? && !mode.NearMaxMag?
    modifies z
    ensures Num(z[..]) == Round(mode, neg, Num(w), L) * L
    ensures inexact <==> Num(w) % L != 0
  {
    var index, bitPos, extra := Scan(a, z, p, w);
    var bit := Pow2(bitPos);
    UnitAt(index, bitPos);
    UnitsInWord(bitPos);
    SmallBit(bitPos);
    NumberFrom(w, index);
    ghost var q, r := DirectedParts(mode, neg, From(w, index), Weight(index), Num(w[..index]), bit, L);
    ghost var k;
    ghost var low := z[..index];
    inexact, k := Directed(a, z, Away(mode, neg), mode.Odd?, index, bit, extra, Pow2(32 - bitPos), q, r, w);
    assert z[..][..index] == low;
    WholeNumber(z[..], index);
    Multiples(k, bit, Weight(index), L);
  }

  function Exponent(ui96: U32): nat { ui96 / 0x1_0000 % 0x8000 }

  lemma FieldOf(a: array<U32>)
    requires a.Length == 4
    ensures HasExponent(Binary128, Num(a[..]), Exponent(a[3]))
    ensures Negative(Binary128, Num(a[..])) <==> a[3] >= TWO31
    ensures Unsigned(Binary128, Num(a[..])) == 0 <==> a[3] % TWO31 == 0 && a[2] == 0 && a[1] == 0 && a[0] == 0
    ensures Unsigned(Binary128, Num(a[..])) == Exponent(a[3]) * Binary128.hidden
            <==> a[3] % 0x1_0000 == 0 && a[2] == 0 && a[1] == 0 && a[0] == 0
    ensures Exponent(a[3]) < 0x406F ==> Roomy(a[..])
  {
    Num4(a[..]);
    FieldOfTop(a[3], a[2] * TWO64 + a[1] * TWO32 + a[0], Num(a[..]));
  }

  lemma FieldOfTop(ui96: U32, low: nat, ui: nat)
    requires low < 0x1_0000_0000_0000_0000_0000_0000 && ui == ui96 * 0x1_0000_0000_0000_0000_0000_0000 + low
    ensures HasExponent(Binary128, ui, Exponent(ui96)) && (Negative(Binary128, ui) <==> ui96 >= TWO31)
    ensures Unsigned(Binary128, ui) == 0 <==> ui96 % TWO31 == 0 && low == 0
    ensures Unsigned(Binary128, ui) == Exponent(ui96) * Binary128.hidden <==> ui96 % 0x1_0000 == 0 && low == 0
  {
  }

  method RoundMiddle(a: array<U32>, z: array<U32>, mode: Mode, exact: bool, exp: nat) returns (inexact: bool)
    requires a.Length == 4 && z.Length == 4 && exp == Exponent(a[3]) && 0x3FFF <= exp < 0x406F
    modifies z
    ensures RoundedToInt(Binary128, mode, exact, old(Num(a[..])), Encoded(Num(z[..]), inexact))
  {
    Binary128IsBinary();
    FieldOf(a);
    ghost var w := a[..];
    assert Unread(a, 0, w) by { assert a[0..] == a[..] && w[0..] == w; }
    var bitPos := 0x406F - exp;
    var negative := a[3] >= TWO31;
    if mode.NearEven? || mode.NearMaxMag? {
      inexact := RoundNearest(a, z, mode.NearEven?, negative, bitPos - 1, LastBit(Binary128, exp), w);
    } else {
      inexact := RoundDirected(a, z, mode, negative, bitPos, LastBit(Binary128, exp), w);
    }
    inexact := exact && inexact;
    MiddleRange(Binary128, mode, exact, Num(w), exp, Encoded(Num(z[..]), inexact));
  }

  function Pack96(negative: bool, exp: nat): U32
    requires exp <= 0x3FFF
  {
    (if negative then TWO31 else 0) + exp * 0x1_0000
  }

  method CopyWords(a: array<U32>, z: array<U32>)
    requires a.Length == 4 && z.Length == 4
    modifies z
    ensures Num(z[..]) == old(Num(a[..]))
  {
    ghost var w := a[..];
    var ui96 := a[3];
    z[2] := a[2];
    z[1] := a[1];
    z[0] := a[0];
    z[3] := ui96;
    assert z[..] == w;
  }

  /** The top word of a magnitude below one, rounded. */
  method TopBelowOne(ui96: U32, sigExtra: bool, mode: Mode) returns (top: U32)
    ensures top == RoundedTop(mode, ui96, sigExtra)
  {
    var sign := ui96 >= TWO31;
    var mag1 := false;
    if (mode.NearEven? && (ui96 % 0x1_0000 != 0 || sigExtra)) || mode.NearMaxMag? {
      mag1 := Exponent(ui96) == 0x3FFE;
    } else if mode.Min? {
      mag1 := sign;
    } else if mode.Max? {
      mag1 := !sign;
    } else if mode.Odd? {
      mag1 := true;
    }
    top := Pack96(sign, if mag1 then 0x3FFF else 0);
  }

  /** The number of a top word with zeros below it. */
  function TopAlone(ui96: U32): nat { ui96 * 0x1_0000_0000_0000_0000_0000_0000 }

  /** What a call reads of its operand below the top word: zeros if it has just written them there. */
  ghost function AsRead(w: seq<U32>, inPlace: bool): nat
    requires |w| == 4
  {
    if inPlace && Exponent(w[3]) < 0x3FFF then TopAlone(w[3]) else Num(w)
  }

  /** Clears the lower words of the result, and then asks whether those of the operand are set. */
  method ClearAndTest(a: array<U32>, z: array<U32>) returns (sigExtra: bool)
    requires a.Length == 4 && z.Length == 4
    modifies z
    ensures z[0] == 0 && z[1] == 0 && z[2] == 0 && a[3] == old(a[3])
    ensures sigExtra <==> a != z && old(a[2] != 0 || a[1] != 0 || a[0] != 0)
  {
    z[2] := 0;
    z[1] := 0;
    z[0] := 0;
    sigExtra := a[2] != 0;
    if !sigExtra {
      sigExtra := a[1] != 0 || a[0] != 0;
    }
  }

  method BelowOne(a: array<U32>, z: array<U32>, mode: Mode, exact: bool) returns (inexact: bool)
    requires a.Length == 4 && z.Length == 4 && Exponent(a[3]) < 0x3FFF
    modifies z
    ensures RoundedToInt(Binary128, mode, exact, AsRead(old(a[..]), a == z), Encoded(Num(z[..]), inexact))
  {
    ghost var w := a[..];
    ghost var low := LowWords(w, a == z);
    var ui96 := a[3];
    var sigExtra := ClearAndTest(a, z);
    var top;
    inexact, top := SmallResult(mode, exact, ui96, sigExtra, low);
    z[3] := top;
    TopOnly(z[..]);
    SmallTop(mode, exact, ui96, low);
  }

  lemma TopOnly(ws: seq<U32>)
    requires |ws| == 4 && ws[0] == 0 && ws[1] == 0 && ws[2] == 0
    ensures Num(ws) == TopAlone(ws[3])
  {
    Num4(ws);
  }

  lemma LowWords(w: seq<U32>, inPlace: bool) returns (low: nat)
    requires |w| == 4 && Exponent(w[3]) < 0x3FFF
    ensures low < 0x1_0000_0000_0000_0000_0000_0000 && AsRead(w, inPlace) == TopAlone(w[3]) + low
    ensures low != 0 <==> !inPlace && (w[2] != 0 || w[1] != 0 || w[0] != 0)
  {
    Num4(w);
    low := if inPlace then 0 else w[2] * TWO64 + w[1] * TWO32 + w[0];
  }

  method SmallResult(mode: Mode, exact: bool, ui96: U32, sigExtra: bool, ghost low: nat)
      returns (inexact: bool, top: U32)
    requires Exponent(ui96) < 0x3FFF && (sigExtra <==> low != 0)
    ensures Encoded(TopAlone(top), inexact) == SmallOutcome(mode, exact, ui96, low)
  {
    inexact, top := false, ui96;
    if sigExtra || ui96 % TWO31 != 0 {
      inexact := exact;
      top := TopBelowOne(ui96, sigExtra, mode);
    }
  }

  /** The outcome for a magnitude below one, from its top word and from whether anything is below it. */
  function SmallOutcome(mode: Mode, exact: bool, ui96: U32, low: nat): Outcome {
    if low == 0 && ui96 % TWO31 == 0 then Encoded(TopAlone(ui96), false)
    else Encoded(TopAlone(RoundedTop(mode, ui96, low != 0)), exact)
  }

  lemma SmallTop(mode: Mode, exact: bool, ui96: U32, low: nat)
    requires low < 0x1_0000_0000_0000_0000_0000_0000 && Exponent(ui96) < 0x3FFF
    ensures RoundedToInt(Binary128, mode, exact, TopAlone(ui96) + low, SmallOutcome(mode, exact, ui96, low))
  {
    Binary128IsBinary();
    FieldOfTop(ui96, low, TopAlone(ui96) + low);
    SmallRange(Binary128, mode, exact, TopAlone(ui96) + low, Exponent(ui96), SmallOutcome(mode, exact, ui96, low));
  }

  function RoundedTop(mode: Mode, ui96: U32, sigExtra: bool): U32 {
    var exp, negative := Exponent(ui96), ui96 >= TWO31;
    Pack96(negative, if BecomesOne(Binary128, mode, negative, exp, ui96 % 0x1_0000 != 0 || sigExtra) then 0x3FFF else 0)
  }

  /** The low words matter to the result although the top word alone does not show it. */
  predicate NeedsLowWords(mode: Mode, exact: bool, ui96: U32, low: nat) {
    && Exponent(ui96) < 0x3FFF && low != 0
    && if ui96 % TWO31 == 0 then exact || mode == Odd || mode == (if ui96 >= TWO31 then Min else Max)
       else mode == NearEven && Exponent(ui96) == 0x3FFE && ui96 % 0x1_0000 == 0
  }

  /** A call with one buffer for operand and result is right exactly when the operand does not need
      the words that have been cleared: otherwise it misses a fraction. */
  lemma InPlaceIsRightIff(mode: Mode, exact: bool, ui96: U32, low: nat, r: Outcome)
    requires low < 0x1_0000_0000_0000_0000_0000_0000 && Exponent(ui96) < 0x3FFF
    requires RoundedToInt(Binary128, mode, exact, TopAlone(ui96), r)
    ensures RoundedToInt(Binary128, mode, exact, TopAlone(ui96) + low, r) <==> !NeedsLowWords(mode, exact, ui96, low)
  {
    Binary128IsBinary();
    OnlySmallOutcome(mode, exact, ui96, 0, r);
    OnlySmallOutcome(mode, exact, ui96, low, r);
    OutcomesAgree(mode, exact, ui96, low);
  }

  lemma OnlySmallOutcome(mode: Mode, exact: bool, ui96: U32, low: nat, r: Outcome)
    requires low < 0x1_0000_0000_0000_0000_0000_0000 && Exponent(ui96) < 0x3FFF
    ensures RoundedToInt(Binary128, mode, exact, TopAlone(ui96) + low, r) <==> r == SmallOutcome(mode, exact, ui96, low)
  {
    Binary128IsBinary();
    var z := SmallOutcome(mode, exact, ui96, low);
    SmallTop(mode, exact, ui96, low);
    if RoundedToInt(Binary128, mode, exact, TopAlone(ui96) + low, r) {
      RoundedToIntUnique(Binary128, mode, exact, TopAlone(ui96) + low, r, z);
    }
  }

  lemma OutcomesAgree(mode: Mode, exact: bool, ui96: U32, low: nat)
    requires Exponent(ui96) < 0x3FFF
    ensures SmallOutcome(mode, exact, ui96, 0) == SmallOutcome(mode, exact, ui96, low)
            <==> !NeedsLowWords(mode, exact, ui96, low)
  {
  }

  method RoundAsRead(a: array<U32>, z: array<U32>, mode: Mode, exact: bool) returns (r: Outcome)
    requires a.Length == 4 && z.Length == 4
    modifies z
    ensures RoundedToInt(Binary128, mode, exact, AsRead(old(a[..]), a == z), r)
    ensures r.Encoded? ==> r.ui == Num(z[..])
  {
    var exp := Exponent(a[3]);
    var inexact := false;
    if exp < 0x3FFF {
      inexact := BelowOne(a, z, mode, exact);
      r := Encoded(Num(z[..]), inexact);
    } else if 0x406F <= exp {
      r := Returned(a, z, mode, exact, exp);
    } else {
      inexact := RoundMiddle(a, z, mode, exact, exp);
      r := Encoded(Num(z[..]), inexact);
    }
  }

  /** The result is left in z; a NaN's bits are not modelled. With two buffers it is the rounded
      operand; with one it is that unless the operand needs the words that have been cleared. */
  method RoundToInt(a: array<U32>, z: array<U32>, mode: Mode, exact: bool) returns (r: Outcome)
    requires a.Length == 4 && z.Length == 4
    modifies z
    ensures r.Encoded? ==> r.ui == Num(z[..])
    ensures RoundedToInt(Binary(112, 0x3FFF, 0x7FFF, 0x1_0000_0000_0000_0000_0000_0000_0000,
                                0x8000_0000_0000_0000_0000_0000_0000_0000),
                         mode, exact, old(Num(a[..])), r)
            <==> a != z || !NeedsLowWords(mode, exact, old(a[3]), old(a[2] * TWO64 + a[1] * TWO32 + a[0]))
  {
    ghost var w := a[..];
    Num4(w);
    r := RoundAsRead(a, z, mode, exact);
    if Exponent(w[3]) < 0x3FFF && a == z {
      InPlaceIsRightIff(mode, exact, w[3], w[2] * TWO64 + w[1] * TWO32 + w[0], r);
    }
  }

  /** Infinities, NaNs and values too large to have a fraction. */
  method Returned(a: array<U32>, z: array<U32>, mode: Mode, exact: bool, exp: nat) returns (r: Outcome)
    requires a.Length == 4 && z.Length == 4 && exp == Exponent(a[3]) && 0x406F <= exp
    modifies z
    ensures RoundedToInt(Binary128, mode, exact, old(Num(a[..])), r)
    ensures r.Encoded? ==> r.ui == Num(z[..])
  {
    Binary128IsBinary();
    FieldOf(a);
    Num4(a[..]);
    ghost var ui := Num(a[..]);
    if exp == 0x7FFF && (a[3] % 0x1_0000 != 0 || a[2] != 0 || a[1] != 0 || a[0] != 0) {
      SpecialRange(Binary128, mode, exact, ui, PropagateNaN);
      return PropagateNaN;
    }
    CopyWords(a, z);
    r := Encoded(Num(z[..]), false);
    if exp == 0x7FFF {
      SpecialRange(Binary128, mode, exact, ui, r);
    } else {
      LargeRange(Binary128, mode, exact, ui, exp, r);
    }
  }
}
