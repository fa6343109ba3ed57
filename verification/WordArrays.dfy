/** Numbers held as arrays of 32-bit words, least significant first. */
module WordArrays {
  import opened Arith
  import opened Words

  function Weight(k: nat): (p: nat)
    ensures p > 0
  {
    if k == 0 then 1 else TWO32 * Weight(k - 1)
  }

  function Num(ws: seq<U32>): nat {
    if |ws| == 0 then 0 else Num(ws[..|ws| - 1]) + ws[|ws| - 1] * Weight(|ws| - 1)
  }

  lemma NumAppend(ws: seq<U32>, y: U32)
    ensures Num(ws + [y]) == Num(ws) + y * Weight(|ws|)
  {
    assert (ws + [y])[..|ws|] == ws;
  }

  lemma {:induction false} NumBound(ws: seq<U32>)
    ensures Num(ws) < Weight(|ws|)
  {
    if |ws| > 0 {
      var n := |ws| - 1;
      NumBound(ws[..n]);
      MulLe(ws[n] as int + 1, TWO32, Weight(n));
      OneMore(ws[n], Weight(n));
    }
  }

  /** The number from word k upward, and what is below it. */
  lemma {:induction false} NumSplit(ws: seq<U32>, k: nat)
    requires k <= |ws|
    ensures Num(ws) == Num(ws[k..]) * Weight(k) + Num(ws[..k])
  {
    if k == |ws| {
      assert ws[..k] == ws;
    } else {
      var n := |ws| - 1;
      NumSplit(ws[..n], k);
      assert ws[..n][..k] == ws[..k] && ws[..n][k..] == ws[k..][..n - k];
      WeightAdd(n - k, k);
      Assoc(ws[n], Weight(n - k), Weight(k));
      Distribute(Num(ws[k..n]), ws[n] * Weight(n - k), Weight(k));
    }
  }

  lemma {:induction false} WeightAdd(m: nat, n: nat)
    ensures Weight(m + n) == Weight(m) * Weight(n)
  {
    if m > 0 {
      WeightAdd(m - 1, n);
      Assoc(TWO32, Weight(m - 1), Weight(n));
    }
  }

  lemma {:induction false} WeightIs(k: nat)
    ensures Weight(k) == Pow2(32 * k)
  {
    if k > 0 {
      WeightIs(k - 1);
      Pow2Add(32, 32 * (k - 1));
      Pow2Of32();
    }
  }

  /** The lowest word of a number, and the rest. */
  lemma NumFirst(ws: seq<U32>)
    requires |ws| > 0
    ensures Num(ws) == Num(ws[1..]) * TWO32 + ws[0]
  {
    NumSplit(ws, 1);
    assert ws[..1] == [ws[0]];
    NumAppend([], ws[0]);
    assert [] + [ws[0]] == [ws[0]];
    assert Weight(1) == TWO32 * Weight(0);
  }

  lemma NumZero(ws: seq<U32>)
    requires forall i :: 0 <= i < |ws| ==> ws[i] == 0
    ensures Num(ws) == 0
  {
    if |ws| > 0 { NumZero(ws[..|ws| - 1]); }
  }

  /** Unless the top word is full, one more fits. */
  lemma NumRoom(ws: seq<U32>)
    requires |ws| > 0 && ws[|ws| - 1] < TWO32 - 1
    ensures Num(ws) + 1 < Weight(|ws|)
  {
    var n := |ws| - 1;
    NumBound(ws[..n]);
    MulLe(ws[n] as int + 2, TWO32, Weight(n));
    Distribute(ws[n], 2, Weight(n));
  }

  lemma Num4(a: seq<U32>)
    requires |a| == 4
    ensures Num(a) == a[3] * 0x1_0000_0000_0000_0000_0000_0000 + a[2] * TWO64 + a[1] * TWO32 + a[0]
  {
    NumFirst(a);
    NumFirst(a[1..]);
    NumFirst(a[2..]);
    NumFirst(a[3..]);
    assert a[1..][1..] == a[2..] && a[2..][1..] == a[3..] && a[3..][1..] == [];
  }

  /** zs, with a carry c out of its top, is xs plus `carry`. */
  ghost predicate CarrySum(xs: seq<U32>, carry: nat, zs: seq<U32>, c: nat) {
    |xs| == |zs| && c <= 1 && Num(zs) + c * Weight(|zs|) == Num(xs) + carry
  }

  lemma CarryOn(xs: seq<U32>, carry: nat, zs: seq<U32>, c: nat, word: U32)
    requires CarrySum(xs, carry, zs, c)
    ensures var wordZ := Wrap32(word + c); CarrySum(xs + [word], carry, zs + [wordZ], if wordZ == 0 then c else 0)
  {
    var wordZ := Wrap32(word + c);
    var c', weight := if wordZ == 0 then c else 0, Weight(|zs|);
    NumAppend(xs, word);
    NumAppend(zs, wordZ);
    assert wordZ + c' * TWO32 == word + c;
    Assoc(c', TWO32, weight);
    Distribute(wordZ, c' * TWO32, weight);
    Distribute(word, c, weight);
  }

  /** From `index` up, the buffer a still holds the words w it was given. */
  ghost predicate Unread(a: array<U32>, index: nat, w: seq<U32>)
    reads a
  {
    |w| == a.Length && index <= |w| && a[index..] == w[index..]
  }

  /** One word of a carry chain; z may be the buffer a itself. */
  method CarryWord(a: array<U32>, z: array<U32>, ghost low: nat, i: nat, ghost carry: nat, c: nat, ghost w: seq<U32>)
      returns (c': nat)
    requires a.Length == z.Length && low <= i < a.Length && Unread(a, i, w)
    requires CarrySum(w[low..i], carry, z[low..i], c)
    modifies z
    ensures z[..i] == old(z[..i]) && Unread(a, i + 1, w)
    ensures CarrySum(w[low..i + 1], carry, z[low..i + 1], c')
  {
    assert a[i] == a[i..][0] && a[i + 1..] == a[i..][1..] && w[i + 1..] == w[i..][1..];
    CarryOn(w[low..i], carry, z[low..i], c, w[i]);
    var wordZ := Wrap32(a[i] + c);
    ghost var done, rest := z[low..i], a[i + 1..];
    z[i] := wordZ;
    assert a[i + 1..] == rest;
    assert z[low..i + 1] == done + [wordZ];
    assert w[low..i + 1] == w[low..i] + [w[i]];
    c' := if wordZ == 0 then c else 0;
  }

  /** Adds a carry to the words above `index` of a, into z. */
  method PropagateCarry(a: array<U32>, z: array<U32>, index: nat, carry: nat, ghost w: seq<U32>)
    requires a.Length == z.Length && index < a.Length && carry <= 1 && Unread(a, index + 1, w)
    requires Num(w[index + 1..]) + carry < Weight(a.Length - index - 1)
    modifies z
    ensures z[..index + 1] == old(z[..index + 1])
    ensures Num(z[index + 1..]) == Num(w[index + 1..]) + carry
  {
    var i, c := index, carry;
    ghost var low := index + 1;
    while i != a.Length - 1
      invariant index <= i < a.Length
      invariant z[..low] == old(z[..low]) && Unread(a, i + 1, w)
      invariant CarrySum(w[low..i + 1], carry, z[low..i + 1], c)
    {
      i := i + 1;
      ghost var before := z[..i];
      assert z[..low] == before[..low];
      c := CarryWord(a, z, low, i, carry, c, w);
      assert z[..low] == z[..i][..low];
    }
    assert z[low..a.Length] == z[low..] && w[low..a.Length] == w[low..];
    NoCarryOut(w[low..], carry, z[low..], c);
  }

  lemma NoCarryOut(xs: seq<U32>, carry: nat, zs: seq<U32>, c: nat)
    requires CarrySum(xs, carry, zs, c) && Num(xs) + carry < Weight(|xs|)
    ensures Num(zs) == Num(xs) + carry
  {
    if c == 1 { assert false; }
  }
}
