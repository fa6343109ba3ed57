/** 32-, 64- and 128-bit machine words: wrap-around, two's complement, shifts. */
module Words {
  import opened Arith

  const TWO31: nat := 0x8000_0000
  const TWO32: nat := 0x1_0000_0000
  const TWO63: nat := 0x8000_0000_0000_0000
  const TWO64: nat := 0x1_0000_0000_0000_0000
  const TWO127: nat := 0x8000_0000_0000_0000_0000_0000_0000_0000
  const TWO128: nat := 0x1_0000_0000_0000_0000_0000_0000_0000_0000

  type U32 = w: nat | w < TWO32
  type U64 = w: nat | w < TWO64

  function Wrap32(x: int): U32 { x % TWO32 }

  function Wrap64(x: int): U64 { x % TWO64 }

  function Signed32(w: U32): int { if w < TWO31 then w else w - TWO32 }

  function Signed64(w: U64): int { if w < TWO63 then w else w - TWO64 }

  lemma SignedWrap32(t: int)
    requires -(TWO31 as int) <= t < TWO31
    ensures Signed32(Wrap32(t)) == t
  {
  }

  lemma WrapDifference64(x: int, y: int)
    ensures Wrap64(Wrap64(x) - Wrap64(y)) == Wrap64(x - y)
  {
    ModOfDifference(x, y, TWO64);
  }

  lemma WrapDifference32(x: int, y: int)
    ensures Wrap32(Wrap32(x) - Wrap32(y)) == Wrap32(x - y)
  {
    ModOfDifference(x, y, TWO32);
  }

  /** Two wrapped words whose true difference fits in a signed word subtract to it. */
  function Minus32(x: int, y: int): (r: U32)
    ensures -(TWO31 as int) <= x - y < TWO31 ==> Signed32(r) == x - y
  {
    WrapDifference32(x, y);
    Wrap32(Wrap32(x) - Wrap32(y))
  }

  function Minus64(x: int, y: int): (r: U64)
    ensures -(TWO63 as int) <= x - y < TWO63 ==> Signed64(r) == x - y
  {
    WrapDifference64(x, y);
    Wrap64(Wrap64(x) - Wrap64(y))
  }

  /** A sum of words that has wrapped around is below either of them. */
  lemma Carry32(x: U32, y: U32)
    ensures x + y == Wrap32(x + y) + (if Wrap32(x + y) < x then TWO32 else 0)
  {
    if x + y < TWO32 { ModIs(x + y, TWO32, 0, x + y); } else { ModIs(x + y, TWO32, 1, x + y - TWO32); }
  }
}
