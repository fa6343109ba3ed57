/** What holds over every run of one level and of a chain of levels: a dirty line leaves only by
    being written back, and no store is lost on its way to memory. */
module CacheRuns {
  import opened Arith
  import opened CacheModel
  import opened CacheRefinement
  import opened Transducer

  ghost predicate Dirty(l: Level, addr: Word) {
    var line := Line(l.g, addr);
    line in Contents(l.slots) && Contents(l.slots)[line]
  }

  /** A store request that reaches the byte at `addr`. */
  predicate Covers(req: Request, addr: Word) { req.store && req.addr <= addr < req.addr + req.bytes }

  ghost predicate Covered(reqs: seq<Request>, addr: Word) { exists r :: r in reqs && Covers(r, addr) }

  /** The write-back of a line is a store to its base address and covers the whole line. */
  lemma WritebackCovers(g: Geometry, addr: Word)
    ensures Writeback(g, Line(g, addr)) == Request(addr - addr % g.linesz, g.linesz, true)
    ensures Covers(Writeback(g, Line(g, addr)), addr)
    ensures Line(g, addr - addr % g.linesz) == Line(g, addr)
  {
    LineFits(g, addr);
    DivIs(addr - addr % g.linesz, g.linesz, addr / g.linesz);
  }

  lemma StoreMakesDirty(l: Level, req: Request)
    requires Inv(l) && req.store
    ensures Dirty(Step(l, req).0, req.addr)
  {
    StepRefinesMap(l, req);
  }

  lemma DirtyStep(l: Level, addr: Word, req: Request)
    requires Inv(l) && Dirty(l, addr)
    ensures Dirty(Step(l, req).0, addr) || Writeback(l.g, Line(l.g, addr)) in Step(l, req).1
  {
    StepRefinesMap(l, req);
    var (l', out) := Step(l, req);
    var m, line := Contents(l.slots), Line(l.g, addr);
    if victim: LineNo :| FillEvicting(l.g, m, req, Contents(l'.slots), out, victim) {
      if victim == line {
        assert out[0] == Writeback(l.g, line);
      }
    }
  }

  /** A dirty line leaves only by being written back. */
  lemma {:induction false} DirtyUntilWrittenBack(l: Level, addr: Word, reqs: seq<Request>)
    requires Inv(l) && Dirty(l, addr)
    ensures var (l', out) := Run(l, reqs);
            Dirty(l', addr) || Writeback(l.g, Line(l.g, addr)) in out
    decreases |reqs|
  {
    if reqs != [] {
      var init, last := reqs[..|reqs| - 1], reqs[|reqs| - 1];
      DirtyUntilWrittenBack(l, addr, init);
      RunKeepsInv(l, init);
      assert reqs == init + [last];
      FeedLast(Step, l, init, last);
      if Dirty(Run(l, init).0, addr) {
        DirtyStep(Run(l, init).0, addr, last);
      }
    }
  }

  // ----- A chain of levels, each the miss handler of the one before; the last talks to memory.

  ghost predicate ChainInv(levels: seq<Level>) {
    && (forall i :: 0 <= i < |levels| ==> Inv(levels[i]) && IsPowerOfTwo(levels[i].g.linesz))
    && (forall i, j :: 0 <= i < j < |levels| ==> levels[i].g.linesz <= levels[j].g.linesz)
  }

  function ChainRun(levels: seq<Level>, reqs: seq<Request>): (r: (seq<Level>, seq<Request>))
    ensures |r.0| == |levels|
  {
    if levels == [] then ([], reqs)
    else
      var (l, out) := Run(levels[0], reqs);
      var (rest, mem) := ChainRun(levels[1..], out);
      ([l] + rest, mem)
  }

  lemma {:induction false} ChainRunKeepsInv(levels: seq<Level>, reqs: seq<Request>)
    requires ChainInv(levels)
    ensures ChainInv(ChainRun(levels, reqs).0)
    ensures forall i :: 0 <= i < |levels| ==> ChainRun(levels, reqs).0[i].g == levels[i].g
  {
    if levels != [] {
      RunKeepsInv(levels[0], reqs);
      var rest := levels[1..];
      assert forall i :: 0 <= i < |rest| ==> rest[i] == levels[i + 1];
      ChainRunKeepsInv(rest, Run(levels[0], reqs).1);
    }
  }

  lemma {:induction false} ChainRunAppend(levels: seq<Level>, xs: seq<Request>, ys: seq<Request>)
    ensures var (mid, mem1) := ChainRun(levels, xs);
            var (end, mem2) := ChainRun(mid, ys);
            ChainRun(levels, xs + ys) == (end, mem1 + mem2)
  {
    if levels != [] {
      FeedAppend(Step, levels[0], xs, ys);
      var (l, out) := Run(levels[0], xs);
      ChainRunAppend(levels[1..], out, Run(l, ys).1);
    }
  }

  ghost predicate DirtySomewhere(levels: seq<Level>, addr: Word) {
    exists i :: 0 <= i < |levels| && Dirty(levels[i], addr)
  }

  /** Powers of two divide the larger ones. */
  lemma {:induction false} SmallerLineNests(small: nat, large: nat) returns (k: nat)
    requires IsPowerOfTwo(small) && IsPowerOfTwo(large) && small <= large
    ensures large == k * small
    decreases large
  {
    if small == large {
      k := 1;
    } else {
      if small > large / 2 {
        HalfIsNotBetween(small, large);
      }
      var h := SmallerLineNests(small, large / 2);
      k := 2 * h;
    }
  }

  lemma {:induction false} HalfIsNotBetween(small: nat, large: nat)
    requires IsPowerOfTwo(small) && IsPowerOfTwo(large) && small < large
    ensures small <= large / 2
    decreases large
  {
    if small > 1 && large > 2 {
      HalfIsNotBetween(small / 2, large / 2);
    }
  }

  /** The base address a level writes back selects, below, the line of every byte it covers. */
  lemma BaseSelectsSameLine(g: Geometry, below: Geometry, addr: Word)
    requires IsPowerOfTwo(g.linesz) && IsPowerOfTwo(below.linesz) && g.linesz <= below.linesz
    ensures Line(below, addr - addr % g.linesz) == Line(below, addr)
  {
    var k := SmallerLineNests(g.linesz, below.linesz);
    var n, m := addr / g.linesz, addr / below.linesz;
    DivBounds(addr, g.linesz);
    DivBounds(addr, below.linesz);
    assert m * below.linesz == m * k * g.linesz;
    MulLtCancel(m * k, n + 1, g.linesz);
    MulLe(m * k, n, g.linesz);
    DivIs(addr - addr % g.linesz, below.linesz, m);
  }

  lemma DirtyAtTop(l: Level, rest: seq<Level>, addr: Word)
    requires Dirty(l, addr)
    ensures DirtySomewhere([l] + rest, addr)
  {
    assert ([l] + rest)[0] == l;
  }

  lemma DirtyBelow(l: Level, rest: seq<Level>, addr: Word)
    requires DirtySomewhere(rest, addr)
    ensures DirtySomewhere([l] + rest, addr)
  {
    var i :| 0 <= i < |rest| && Dirty(rest[i], addr);
    assert ([l] + rest)[i + 1] == rest[i];
  }

  lemma DirtyFurtherDown(levels: seq<Level>, addr: Word)
    requires DirtySomewhere(levels, addr) && levels != [] && !Dirty(levels[0], addr)
    ensures DirtySomewhere(levels[1..], addr)
  {
    var i :| 0 <= i < |levels| && Dirty(levels[i], addr);
    assert levels[1..][i - 1] == levels[i];
  }

  lemma TailInv(levels: seq<Level>)
    requires ChainInv(levels) && levels != []
    ensures Inv(levels[0]) && IsPowerOfTwo(levels[0].g.linesz) && ChainInv(levels[1..])
    ensures levels[1..] != [] ==> levels[0].g.linesz <= levels[1].g.linesz
  {
    assert forall i :: 0 <= i < |levels[1..]| ==> levels[1..][i] == levels[i + 1];
  }

  lemma {:induction false} NothingLeavesTheChainSilently(levels: seq<Level>, addr: Word, reqs: seq<Request>)
    requires ChainInv(levels) && DirtySomewhere(levels, addr)
    ensures var (levels', mem) := ChainRun(levels, reqs);
            DirtySomewhere(levels', addr) || Covered(mem, addr)
    decreases |levels|, 0
  {
    var l, rest := levels[0], levels[1..];
    TailInv(levels);
    var (l', out) := Run(l, reqs);
    var (rest', mem) := ChainRun(rest, out);
    assert ChainRun(levels, reqs) == ([l'] + rest', mem);
    if Dirty(l, addr) {
      DirtyUntilWrittenBack(l, addr, reqs);
      if Dirty(l', addr) {
        DirtyAtTop(l', rest', addr);
      } else {
        HandedDown(l.g, rest, addr, out);
      }
    } else {
      DirtyFurtherDown(levels, addr);
      NothingLeavesTheChainSilently(rest, addr, out);
    }
    if DirtySomewhere(rest', addr) {
      DirtyBelow(l', rest', addr);
    }
  }

  /** Once a level has written a line back, the levels below keep it dirty or pass it on. */
  lemma {:induction false} HandedDown(g: Geometry, rest: seq<Level>, addr: Word, out: seq<Request>)
    requires ChainInv(rest) && IsPowerOfTwo(g.linesz) && (rest != [] ==> g.linesz <= rest[0].g.linesz)
    requires Writeback(g, Line(g, addr)) in out
    ensures var (rest', mem) := ChainRun(rest, out);
            DirtySomewhere(rest', addr) || Covered(mem, addr)
    decreases |rest|, 2
  {
    var w := Writeback(g, Line(g, addr));
    WritebackCovers(g, addr);
    if rest == [] {
      assert Covers(w, addr);
    } else {
      var k :| 0 <= k < |out| && out[k] == w;
      BaseSelectsSameLine(g, rest[0].g, addr);
      assert out == out[..k] + [w] + out[k + 1..];
      KeptAfterStore(rest, addr, out[..k], w, out[k + 1..]);
    }
  }

  /** A store to the line of `addr` at the top is not lost whatever comes before and after it. */
  lemma {:induction false} KeptAfterStore(levels: seq<Level>, addr: Word, pre: seq<Request>, req: Request,
                                          post: seq<Request>)
    requires ChainInv(levels) && levels != [] && req.store && Line(levels[0].g, req.addr) == Line(levels[0].g, addr)
    ensures var (levels', mem) := ChainRun(levels, pre + [req] + post);
            DirtySomewhere(levels', addr) || Covered(mem, addr)
    decreases |levels|, 1
  {
    ChainRunAppend(levels, pre + [req], post);
    ChainRunKeepsInv(levels, pre + [req]);
    StoreAtTop(levels, pre, req);
    var mid := ChainRun(levels, pre + [req]).0;
    assert Dirty(mid[0], addr);
    NothingLeavesTheChainSilently(mid, addr, post);
  }

  lemma StoreAtTop(levels: seq<Level>, pre: seq<Request>, req: Request)
    requires levels != [] && ChainInv(levels) && req.store
    ensures var mid := ChainRun(levels, pre + [req]).0;
            mid[0].g == levels[0].g && Dirty(mid[0], req.addr)
  {
    RunKeepsInv(levels[0], pre);
    RunKeepsInv(levels[0], pre + [req]);
    FeedLast(Step, levels[0], pre, req);
    StoreMakesDirty(Run(levels[0], pre).0, req);
  }

  /** No store is lost: after any later traffic some level still holds its line dirty, or memory
      has received, after the store, a store covering its address. */
  lemma NoStoreLost(levels: seq<Level>, pre: seq<Request>, req: Request, post: seq<Request>)
    requires levels != [] && ChainInv(levels) && req.store
    ensures var (mid, _) := ChainRun(levels, pre + [req]);
            var (end, mem) := ChainRun(mid, post);
            DirtySomewhere(end, req.addr) || Covered(mem, req.addr)
  {
    ChainRunKeepsInv(levels, pre + [req]);
    StoreAtTop(levels, pre, req);
    NothingLeavesTheChainSilently(ChainRun(levels, pre + [req]).0, req.addr, post);
  }
}
