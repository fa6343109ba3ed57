/** Right shifts of word arrays, in place, with the bits lost gathered into the last one. */
module WordShifts {
  import opened Arith
  import opened Words
  import opened WordArrays
  import opened RoundPack

  /** Shifting by whole words first: what lay in them counts only by being there. */
  lemma JamBelow(U: nat, W: nat, lo: nat, P: nat)
    requires P > 0 && lo < W
    ensures P * W > 0 && Jam(U * W + lo, P * W) == SetLast(Jam(U, P), lo != 0)
  {
    var q := Floor(U, P);
    var r := U - q * P;
    DivIs(U, P, q);
    MulLt(0, P, W);
    Split(U, W, lo, P, q, r);
    DivIs(U * W + lo, P * W, q);
  }

  lemma Split(U: nat, W: nat, lo: nat, P: nat, q: nat, r: nat)
    requires U == q * P + r && r < P && lo < W
    ensures U * W + lo == q * (P * W) + (r * W + lo) && r * W + lo < P * W
    ensures r * W + lo == 0 <==> r == 0 && lo == 0
  {
    Distribute(q * P, r, W);
    Assoc(q, P, W);
    MulLe(r + 1, P, W);
    OneMore(r, W);
    if r > 0 { MulLe(1, r, W); }
  }

  /** A word further up adds to the shifted number. */
  lemma JamAbove(A: nat, x: nat, P: nat, even: nat)
    requires P > 0 && even % 2 == 0
    ensures Jam(A + x * even * P, P) == Jam(A, P) + x * even
  {
    var q := Floor(A, P);
    DivIs(A, P, q);
    Distribute(q, x * even, P);
    DivIs(A + x * even * P, P, q + x * even);
    EvenProduct(x, even);
    SameLast(q, x * even);
  }

  lemma EvenProduct(x: nat, even: nat)
    requires even % 2 == 0
    ensures x * even % 2 == 0
  {
    Assoc(x, even / 2, 2);
  }

  lemma SameLast(q: nat, e: nat)
    requires e % 2 == 0
    ensures (q + e) % 2 == q % 2
  {
  }

  /** The two parts into which a shift cuts a word. */
  lemma CutWord(word: U32, d: nat, P: nat, P': nat)
    requires 1 <= d <= 31 && P == Pow2(d) && P' == Pow2(32 - d)
    ensures P * P' == TWO32 && P' % 2 == 0 && P' > 0
    ensures word / P < P' && word * P' == word / P * TWO32 + word % P * P' && word % P * P' + P' <= TWO32
    ensures Jam(word, P) < P'
    ensures Wrap32(word * P') == word % P * P'
  {
    Pow2Of32();
    SameWeight(d, 32 - d, 0, 32);
    Pow2Even(32 - d);
    var q := Floor(word, P);
    DivIs(word, P, q);
    CutParts(word, P, P', q, word - q * P);
  }

  lemma CutParts(word: U32, P: nat, P': nat, q: nat, r: nat)
    requires P > 0 && P' > 0 && P' % 2 == 0 && P * P' == TWO32 && word == q * P + r && r < P
    ensures q < P' && word * P' == q * TWO32 + r * P' && r * P' + P' <= TWO32
    ensures SetLast(q, r != 0) < P' && Wrap32(word * P') == r * P'
  {
    if q >= P' { MulLe(P', q, P); }
    Distribute(q * P, r, P');
    Assoc(q, P, P');
    MulLe(r + 1, P, P');
    OneMore(r, P');
    ModIs(word * P', TWO32, q, r * P');
  }

  /** After word i: the words written, and the part still to be joined to the next one, are the number
      so far shifted right. */
  ghost predicate ShiftedSoFar(ws: seq<U32>, zs: seq<U32>, part: nat, P: nat)
    requires P > 0
  {
    |ws| == |zs| + 1 && Num(zs) + part * Weight(|zs|) == Jam(Num(ws), P)
  }

  lemma ShiftNext(ws: seq<U32>, zs: seq<U32>, part: nat, d: nat, P: nat, P': nat, word: U32, high: nat, wordZ: U32)
    requires 1 <= d <= 31 && P == Pow2(d) && P' == Pow2(32 - d) && ShiftedSoFar(ws, zs, part, P)
    requires high == word / P && wordZ == Wrap32(word * P') + part
    ensures ShiftedSoFar(ws + [word], zs + [wordZ], high, P)
  {
    CutWord(word, d, P, P');
    AppendShifted(ws, zs, part, P, P', word, high, Wrap32(word * P'), wordZ, Weight(|zs|));
  }

  lemma AppendShifted(ws: seq<U32>, zs: seq<U32>, part: nat, P: nat, P': nat, word: U32, high: nat, low: nat,
                      wordZ: U32, weight: nat)
    requires P > 0 && P * P' == TWO32 && P' % 2 == 0 && ShiftedSoFar(ws, zs, part, P) && weight == Weight(|zs|)
    requires word * P' == high * TWO32 + low && wordZ == low + part
    ensures ShiftedSoFar(ws + [word], zs + [wordZ], high, P)
  {
    NumAppend(ws, word);
    NumAppend(zs, wordZ);
    JamAbove(Num(ws), word * weight, P, P');
    NextParts(word, low, part, high, P, P', weight);
  }

  lemma NextParts(word: nat, low: nat, part: nat, high: nat, P: nat, P': nat, weight: nat)
    requires P * P' == TWO32 && word * P' == high * TWO32 + low
    ensures word * (TWO32 * weight) == word * weight * P' * P
    ensures (low + part) * weight + high * (TWO32 * weight) == part * weight + word * weight * P'
  {
    assert word * weight * P' * P == word * weight * (P * P');
    assert word * weight * P' == word * P' * weight;
    Distribute(high * TWO32, low, weight);
    Distribute(low, part, weight);
    Assoc(high, TWO32, weight);
  }

  /** The words from w up, shifted right by less than a word, into the lowest places. */
  method ShortShiftRightJam(sig: array<U32>, w: nat, d: nat)
    requires w < sig.Length && 1 <= d <= 31
    modifies sig
    ensures Num(sig[..sig.Length - w]) == Jam(old(Num(sig[w..])), Pow2(d))
  {
    ghost var a := sig[..];
    var P, P' := Pow2(d), Pow2(32 - d);
    var lastIndex, i := sig.Length - w - 1, 0;
    var part := FirstPart(sig[w], d, P, P');
    FirstSoFar(a[w], part, P);
    assert a[w..w + 1] == [a[w]] && sig[..0] == [];
    while i != lastIndex
      invariant 0 <= i <= lastIndex && part < P'
      invariant sig[i..] == a[i..]
      invariant ShiftedSoFar(a[w..w + i + 1], sig[..i], part, P)
    {
      part := JoinNext(sig, a, w, i, d, P, P', part);
      i := i + 1;
    }
    assert a[w..w + i + 1] == a[w..];
    CutWord(0, d, P, P');
    ghost var done := sig[..i];
    sig[i] := part;
    assert sig[..i + 1] == done + [part];
    NumAppend(done, part);
  }

  method FirstPart(wordA: U32, d: nat, P: nat, ghost P': nat) returns (part: nat)
    requires 1 <= d <= 31 && P == Pow2(d) && P' == Pow2(32 - d)
    ensures part == Jam(wordA, P) && part < P'
  {
    CutWord(wordA, d, P, P');
    LostBits(wordA, P);
    part := wordA / P;
    if part * P != wordA {
      part := if part % 2 == 0 then part + 1 else part;
    }
  }

  lemma LostBits(x: nat, P: nat)
    requires P > 0
    ensures 0 <= x / P && (x / P * P != x <==> x % P != 0)
  {
    var q := Floor(x, P);
    DivIs(x, P, q);
  }

  lemma FirstSoFar(word: U32, part: nat, P: nat)
    requires P > 0 && part == Jam(word, P)
    ensures ShiftedSoFar([word], [], part, P)
  {
    NumAppend([], word);
    assert [] + [word] == [word];
  }

  /** One turn of the loop: the next word's low bits complete the word at i. */
  method JoinNext(sig: array<U32>, ghost a: seq<U32>, w: nat, i: nat, d: nat, P: nat, P': nat, part: nat)
      returns (part': nat)
    requires |a| == sig.Length && w + i + 1 < sig.Length && 1 <= d <= 31 && P == Pow2(d) && P' == Pow2(32 - d)
    requires part < P' && sig[i..] == a[i..] && ShiftedSoFar(a[w..w + i + 1], sig[..i], part, P)
    modifies sig
    ensures part' < P' && sig[i + 1..] == a[i + 1..] && ShiftedSoFar(a[w..w + i + 2], sig[..i + 1], part', P)
  {
    assert sig[w + i + 1] == sig[i..][w + 1] == a[w + i + 1];
    var wordA := sig[w + i + 1];
    CutWord(wordA, d, P, P');
    LostBits(wordA, P);
    part' := wordA / P;
    var wordZ: U32 := Wrap32(wordA * P') + part;
    ghost var ws, zs := a[w..w + i + 1], sig[..i];
    ShiftNext(ws, zs, part, d, P, P', wordA, part', wordZ);
    assert sig[i + 1..] == sig[i..][1..];
    sig[i] := wordZ;
    assert sig[..i + 1] == zs + [wordZ] && a[w..w + i + 2] == ws + [wordA];
  }

  /** The words from w up, moved to the lowest places. */
  method CopyDown(sig: array<U32>, w: nat)
    requires 0 < w < sig.Length
    modifies sig
    ensures sig[..sig.Length - w] == old(sig[w..])
  {
    ghost var a := sig[..];
    for i := 0 to sig.Length - w
      invariant sig[..i] == a[w..w + i] && sig[i..] == a[i..]
    {
      assert sig[w + i] == sig[i..][w] == a[w + i];
      assert sig[i + 1..] == sig[i..][1..];
      ghost var zs := sig[..i];
      sig[i] := sig[w + i];
      assert sig[..i + 1] == zs + [a[w + i]] && a[w..w + i + 1] == a[w..w + i] + [a[w + i]];
    }
  }

  /** Zeros in the w highest places. */
  method ClearTop(sig: array<U32>, w: nat)
    requires 0 < w <= sig.Length
    modifies sig
    ensures Num(sig[..]) == old(Num(sig[..sig.Length - w]))
  {
    ghost var low := sig[..sig.Length - w];
    for i := sig.Length - w to sig.Length
      invariant sig[..sig.Length - w] == low
      invariant Num(sig[..i]) == Num(low)
    {
      ghost var zs := sig[..i];
      sig[i] := 0;
      assert sig[..i + 1] == zs + [0];
      assert sig[..sig.Length - w] == zs[..sig.Length - w];
      NumAppend(zs, 0);
    }
    assert sig[..sig.Length] == sig[..];
  }

  /** Whether any of the w lowest words is not zero. */
  method AnyBelow(sig: array<U32>, w: nat) returns (jam: bool)
    requires w <= sig.Length
    ensures jam <==> Num(sig[..w]) != 0
  {
    jam := false;
    for i := 0 to w
      invariant Num(sig[..i]) == 0
    {
      NonzeroWord(sig[..w], i);
      if sig[i] != 0 {
        return true;
      }
      assert sig[..i + 1] == sig[..i] + [sig[i]];
      NumAppend(sig[..i], sig[i]);
    }
  }

  lemma NonzeroWord(ws: seq<U32>, i: nat)
    requires i < |ws|
    ensures ws[i] != 0 ==> Num(ws) != 0
    decreases |ws|
  {
    var n := |ws| - 1;
    if i < n { NonzeroWord(ws[..n], i); }
    MulLe(0, ws[n], Weight(n));
    if ws[i] != 0 && i == n { MulLt(0, ws[n], Weight(n)); }
  }

  /** The last bit of a number is the last bit of its lowest word. */
  method SetLastBit(sig: array<U32>)
    requires sig.Length > 0
    modifies sig
    ensures Num(sig[..]) == SetLast(old(Num(sig[..])), true)
  {
    NumFirst(sig[..]);
    ghost var upper := sig[1..];
    if sig[0] % 2 == 0 {
      sig[0] := sig[0] + 1;
    }
    assert sig[1..] == upper;
    NumFirst(sig[..]);
    assert sig[..][1..] == upper;
  }

  /** The number after its words below w are dropped and the rest shifted by d more. */
  lemma ShiftedByParts(ws: seq<U32>, w: nat, d: nat)
    requires w <= |ws|
    ensures Jam(Num(ws), Pow2(32 * w + d)) == SetLast(Jam(Num(ws[w..]), Pow2(d)), Num(ws[..w]) != 0)
  {
    NumSplit(ws, w);
    NumBound(ws[..w]);
    WeightIs(w);
    SameWeight(d, 32 * w, 0, 32 * w + d);
    JamBelow(Num(ws[w..]), Weight(w), Num(ws[..w]), Pow2(d));
  }

  /** A shift past the highest word leaves only the sticky bit. */
  lemma ShiftedOut(ws: seq<U32>, dist: nat)
    requires 32 * |ws| <= dist
    ensures Jam(Num(ws), Pow2(dist)) == SetLast(0, Num(ws) != 0)
  {
    NumBound(ws);
    WeightIs(|ws|);
    Pow2Le(32 * |ws|, dist);
    DivIs(Num(ws), Pow2(dist), 0);
  }

  /** Moves the words down and shifts them, without regard to what the words dropped held. */
  method ShiftWords(sig: array<U32>, w: nat, d: nat)
    requires w < sig.Length && d < 32 && (w > 0 || d > 0)
    modifies sig
    ensures Num(sig[..]) == Jam(old(Num(sig[w..])), Pow2(d))
  {
    if d != 0 {
      ShortShiftRightJam(sig, w, d);
    } else {
      WholeWords(Num(sig[w..]));
      CopyDown(sig, w);
    }
    assert w == 0 ==> sig[..sig.Length - w] == sig[..];
    if w != 0 {
      ClearTop(sig, w);
    }
  }

  lemma WholeWords(x: nat)
    ensures Jam(x, Pow2(0)) == x
  {
  }

  method ShiftRightJamM(sig: array<U32>, dist: nat)
    requires sig.Length > 0 && dist > 0
    modifies sig
    ensures Num(sig[..]) == Jam(old(Num(sig[..])), Pow2(dist))
  {
    ghost var a := sig[..];
    var wordDist := dist / 32;
    if sig.Length < wordDist {
      wordDist := sig.Length;
    }
    var wordJam := AnyBelow(sig, wordDist);
    assert sig[..wordDist] == a[..wordDist];
    if wordDist < sig.Length {
      ShiftedByParts(a, wordDist, dist % 32);
      assert sig[wordDist..] == a[wordDist..];
      ShiftWords(sig, wordDist, dist % 32);
    } else {
      ShiftedOut(a, dist);
      assert a[..wordDist] == a && sig[..0] == [];
      ClearTop(sig, wordDist);
    }
    if wordJam {
      SetLastBit(sig);
    }
  }
}
