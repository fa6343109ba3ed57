/** Why line sizes must not shrink on the way to memory: the write-back of a long line marks only
    the first of the shorter lines it covers. */
module CacheLineSizes {
  import opened Arith
  import opened CacheModel
  import opened CacheRefinement
  import opened CacheRuns
  import opened CacheSystem
  import opened Transducer
  import Lfsr

  /** Handing down base addresses selects the right line below for every byte, exactly when the lines
      below are at least as long. */
  lemma BaseSelectsSameLineIff(g: Geometry, below: Geometry)
    requires IsPowerOfTwo(g.linesz) && IsPowerOfTwo(below.linesz)
    ensures (forall addr: Word :: SelectsSameLine(g, below, addr)) <==> g.linesz <= below.linesz
  {
    if g.linesz <= below.linesz {
      forall addr: Word ensures SelectsSameLine(g, below, addr) {
        BaseSelectsSameLine(g, below, addr);
      }
    } else {
      SecondLineBelow(g, below);
    }
  }

  predicate SelectsSameLine(g: Geometry, below: Geometry, addr: Word) {
    DivBounds(addr, g.linesz);
    Line(below, addr - addr % g.linesz) == Line(below, addr)
  }

  lemma SecondLineBelow(g: Geometry, below: Geometry)
    requires below.linesz < g.linesz
    ensures !SelectsSameLine(g, below, below.linesz)
  {
    DivIs(below.linesz, g.linesz, 0);
    DivIs(below.linesz, below.linesz, 1);
  }

  // ----- Chains of two caches with room for one line each

  type LineSize = n: nat | 4 <= n < TWO64 && IsPowerOfTwo(n) witness 4

  function Small(linesz: LineSize): Geometry { Geometry(1, 1, linesz) }

  function One(linesz: LineSize, slot: Slot, reg: bv32): Level {
    TimesIs(1, 1);
    Level(Small(linesz), [slot], reg)
  }

  lemma FreshIsOne(linesz: LineSize)
    ensures Fresh(Small(linesz)) == One(linesz, Empty, Lfsr.SEED)
  {
    TimesIs(1, 1);
  }

  /** One access to such a cache. */
  lemma StepOfOne(linesz: LineSize, slot: Slot, reg: bv32, req: Request)
    ensures var line := Line(Small(linesz), req.addr);
            Step(One(linesz, slot, reg), req)
            == if Holds(slot, line) then (One(linesz, if req.store then Held(line, true) else slot, reg), [])
               else (One(linesz, Held(line, req.store), Lfsr.Next(reg)), Requests(Small(linesz), slot, req.addr))
  {
    var l := One(linesz, slot, reg);
    var line := Line(l.g, req.addr);
    assert FirstSlot(l.g, line) == 0;
    assert Find(l.slots, line, 1, 1) == None;
    assert VictimSlot(l, line) == 0;
    assert [slot][0 := Held(line, true)] == [Held(line, true)];
    assert [slot][0 := Held(line, req.store)] == [Held(line, req.store)];
  }

  /** The chain keeps what is stored in it: the promise of `NoStoreLost`, for one store. */
  ghost predicate Keeps(levels: seq<Level>, pre: seq<Request>, req: Request, post: seq<Request>) {
    var (mid, _) := ChainRun(levels, pre + [req]);
    var (end, mem) := ChainRun(mid, post);
    DirtySomewhere(end, req.addr) || Covered(mem, req.addr)
  }

  ghost predicate KeepsStores(levels: seq<Level>) {
    forall pre, req: Request, post :: req.store ==> Keeps(levels, pre, req, post)
  }

  /** The store is to the second of the shorter lines: both caches fetch their line 0. */
  lemma AfterStore(big: LineSize, small: LineSize)
    requires small < big
    ensures ChainRun([Fresh(Small(big)), Fresh(Small(small))], [Request(small, 1, true)]).0
         == [One(big, Held(0, true), Lfsr.Next(Lfsr.SEED)), One(small, Held(0, false), Lfsr.Next(Lfsr.SEED))]
  {
    var req := Request(small, 1, true);
    FreshIsOne(big);
    FreshIsOne(small);
    DivIs(small, big, 0);
    StepOfOne(big, Empty, Lfsr.SEED, req);
    var fill := Request(0, big, false);
    assert Fill(Small(big), small) == fill;
    StepOfOne(small, Empty, Lfsr.SEED, fill);
    FeedOne(Step, One(small, Empty, Lfsr.SEED), fill);
    ChainOfTwo(One(big, Empty, Lfsr.SEED), One(small, Empty, Lfsr.SEED), req);
  }

  /** The load evicts the long line; its write-back marks the first short line, whose own eviction
      writes back only that. */
  lemma AfterLoad(big: LineSize, small: LineSize, reg: bv32)
    requires small < big
    ensures big / small < LINE_LIMIT
    ensures ChainRun([One(big, Held(0, true), reg), One(small, Held(0, false), reg)], [Request(big, 1, false)])
         == ([One(big, Held(1, false), Lfsr.Next(reg)), One(small, Held(big / small, false), Lfsr.Next(reg))],
             [Writeback(Small(small), 0), Fill(Small(small), big)])
  {
    var req := Request(big, 1, false);
    LineFits(Small(small), big);
    ShortLines(big, small, reg);
    LongLine(big, reg);
    ChainOfTwo(One(big, Held(0, true), reg), One(small, Held(0, false), reg), req);
  }

  lemma LongLine(big: LineSize, reg: bv32)
    ensures Step(One(big, Held(0, true), reg), Request(big, 1, false))
         == (One(big, Held(1, false), Lfsr.Next(reg)), [Writeback(Small(big), 0), Fill(Small(big), big)])
  {
    DivIs(big, big, 1);
    StepOfOne(big, Held(0, true), reg, Request(big, 1, false));
    assert Requests(Small(big), Held(0, true), big) == [Writeback(Small(big), 0), Fill(Small(big), big)];
  }

  lemma MarksFirstLine(big: LineSize, small: LineSize, reg: bv32)
    ensures Step(One(small, Held(0, false), reg), Writeback(Small(big), 0)) == (One(small, Held(0, true), reg), [])
  {
    assert Writeback(Small(big), 0) == Request(0, big, true);
    StepOfOne(small, Held(0, false), reg, Request(0, big, true));
  }

  lemma EvictsFirstLine(big: LineSize, small: LineSize, reg: bv32)
    requires small < big && big / small < LINE_LIMIT
    ensures Step(One(small, Held(0, true), reg), Fill(Small(big), big))
         == (One(small, Held(big / small, false), Lfsr.Next(reg)),
             [Writeback(Small(small), 0), Fill(Small(small), big)])
  {
    DivIs(big, big, 1);
    DivBounds(big, small);
    assert Fill(Small(big), big) == Request(big, big, false);
    StepOfOne(small, Held(0, true), reg, Request(big, big, false));
    assert Requests(Small(small), Held(0, true), big) == [Writeback(Small(small), 0), Fill(Small(small), big)];
  }

  lemma ShortLines(big: LineSize, small: LineSize, reg: bv32)
    requires small < big && big / small < LINE_LIMIT
    ensures Run(One(small, Held(0, false), reg), [Writeback(Small(big), 0), Fill(Small(big), big)])
         == (One(small, Held(big / small, false), Lfsr.Next(reg)),
             [Writeback(Small(small), 0), Fill(Small(small), big)])
  {
    var w, f := Writeback(Small(big), 0), Fill(Small(big), big);
    MarksFirstLine(big, small, reg);
    EvictsFirstLine(big, small, reg);
    var out := [Writeback(Small(small), 0), Fill(Small(small), big)];
    FeedTwo(Step, One(small, Held(0, false), reg), w, One(small, Held(0, true), reg), [],
            f, One(small, Held(big / small, false), Lfsr.Next(reg)), out);
    assert [] + out == out;
  }

  lemma CleanIsNotDirty(linesz: LineSize, line: LineNo, reg: bv32, addr: Word)
    ensures !Dirty(One(linesz, Held(line, false), reg), addr)
  {
  }

  lemma ShorterLinesLoseAStore(big: LineSize, small: LineSize)
    requires small < big
    ensures !Keeps([Fresh(Small(big)), Fresh(Small(small))], [], Request(small, 1, true), [Request(big, 1, false)])
  {
    var reg := Lfsr.Next(Lfsr.SEED);
    AfterStore(big, small);
    AfterLoad(big, small, reg);
    CleanIsNotDirty(big, 1, Lfsr.Next(reg), small);
    CleanIsNotDirty(small, big / small, Lfsr.Next(reg), small);
    assert [] + [Request(small, 1, true)] == [Request(small, 1, true)];
  }

  /** Of two such caches, the pair loses no store exactly when the second has lines as long. */
  lemma LineSizesDecide(first: LineSize, second: LineSize)
    ensures KeepsStores([Fresh(Small(first)), Fresh(Small(second))]) <==> first <= second
  {
    var levels := [Fresh(Small(first)), Fresh(Small(second))];
    if first <= second {
      FreshIsEmpty(levels[0]);
      FreshIsEmpty(levels[1]);
      forall pre, req: Request, post | req.store ensures Keeps(levels, pre, req, post) {
        NoStoreLost(levels, pre, req, post);
      }
    } else {
      ShorterLinesLoseAStore(first, second);
      assert !Keeps(levels, [], Request(second, 1, true), [Request(first, 1, false)]);
    }
  }
}
