/** The 32-bit Galois shift register that picks the way to evict. */
module Lfsr {

  const SEED: bv32 := 1

  function Next(reg: bv32): bv32 {
    (reg >> 1) ^ ((0 - (reg & 1)) & 0xd0000001)
  }

  predicate Bit(reg: bv32, i: bv32)
    requires i < 32
  {
    (reg >> i) & 1 == 1
  }

  /** The step bit by bit: every bit moves down one place, and if the lowest was set the bits 0, 28, 30
      and 31 are then flipped. */
  lemma BitsOfNext(reg: bv32, i: bv32)
    requires i < 32
    ensures Bit(Next(reg), i)
            <==> (i < 31 && Bit(reg, i + 1)) != (Bit(reg, 0) && (i == 0 || i == 28 || i == 30 || i == 31))
  {
  }

  function Previous(reg: bv32): bv32 {
    if reg < 0x8000_0000 then reg << 1 else ((reg ^ 0xd0000001) << 1) | 1
  }

  function Iterate(n: nat, reg: bv32): bv32 {
    if n == 0 then reg else Next(Iterate(n - 1, reg))
  }

  lemma PreviousOfNext(reg: bv32)
    ensures Previous(Next(reg)) == reg
  {
  }

  /** With `PreviousOfNext`: the step is a bijection on 32-bit words. */
  lemma NextOfPrevious(reg: bv32)
    ensures Next(Previous(reg)) == reg
  {
    if reg < 0x8000_0000 {
      assert Next(reg << 1) == reg;
    } else {
      assert Next(((reg ^ 0xd0000001) << 1) | 1) == reg;
    }
  }

  lemma {:induction false} NeverZero(n: nat)
    ensures Iterate(n, SEED) != 0
  {
    if n > 0 {
      NeverZero(n - 1);
      var prev := Iterate(n - 1, SEED);
      PreviousOfNext(prev);
      assert Previous(0) == 0;
    }
  }

  lemma {:induction false} CancelSteps(i: nat, j: nat, reg: bv32)
    requires i <= j && Iterate(i, reg) == Iterate(j, reg)
    ensures Iterate(j - i, reg) == reg
  {
    if i > 0 {
      PreviousOfNext(Iterate(i - 1, reg));
      PreviousOfNext(Iterate(j - 1, reg));
      CancelSteps(i - 1, j - 1, reg);
    }
  }

  /** A map from [0..n] into [0..n) repeats a value. */
  lemma {:induction false} Pigeonhole(f: nat -> nat, n: nat) returns (i: nat, j: nat)
    requires 0 < n && forall k: nat :: k <= n ==> f(k) < n
    ensures i < j <= n && f(i) == f(j)
  {
    if exists k: nat :: k < n && f(k) == f(n) {
      i :| i < n && f(i) == f(n);
      j := n;
    } else {
      // close the gap at f(n) by moving the values above it down by one
      var g := (k: nat) => if f(k) > f(n) then (f(k) - 1) as nat else f(k);
      assert f(0) != f(n);
      assert forall k: nat :: k <= n - 1 ==> g(k) < n - 1;
      i, j := Pigeonhole(g, n - 1);
    }
  }

  /** The register comes back to its seed, so the victim sequence is purely periodic. */
  lemma ReturnsToSeed() returns (period: nat)
    ensures 0 < period <= 0x1_0000_0000
    ensures Iterate(period, SEED) == SEED
    ensures forall n: nat :: Iterate(n + period, SEED) == Iterate(n, SEED)
  {
    var f := (k: nat) => Iterate(k, SEED) as nat;
    forall k: nat ensures f(k) < 0x1_0000_0000 {
      var x := Iterate(k, SEED);
      assert x as nat < 0x1_0000_0000;
    }
    var i, j := Pigeonhole(f, 0x1_0000_0000);
    SameNatSameWord(Iterate(i, SEED), Iterate(j, SEED));
    CancelSteps(i, j, SEED);
    period := j - i;
    forall n: nat ensures Iterate(n + period, SEED) == Iterate(n, SEED) {
      IterateFromSeed(n, period);
    }
  }

  lemma SameNatSameWord(x: bv32, y: bv32)
    requires x as nat == y as nat
    ensures x == y
  {
    assert (x as nat) as bv32 == x;
    assert (y as nat) as bv32 == y;
  }

  lemma {:induction false} IterateFromSeed(n: nat, period: nat)
    requires Iterate(period, SEED) == SEED
    ensures Iterate(n + period, SEED) == Iterate(n, SEED)
  {
    if n > 0 {
      IterateFromSeed(n - 1, period);
    }
  }
}
