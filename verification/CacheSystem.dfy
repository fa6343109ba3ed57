/** The emulator's own arrangement: separate data and instruction caches in front of one
    second-level cache, fed by the two in any interleaving. */
module CacheSystem {
  import opened CacheModel
  import opened CacheRefinement
  import opened CacheRuns
  import opened Transducer

  const ACCESS_BYTES := 64

  datatype Event = DataRead(addr: Word) | InstructionRead(addr: Word) | DataWrite(addr: Word)

  datatype System = System(dc: Level, ic: Level, l2: Level)

  function RequestOf(e: Event): Request { Request(e.addr, ACCESS_BYTES, e.DataWrite?) }

  /** One emulator event: the first-level cache it reaches, then the second level on its behalf,
      and what memory sees. */
  function SystemStep(s: System, e: Event): (System, seq<Request>) {
    var (first, out) := Step(if e.InstructionRead? then s.ic else s.dc, RequestOf(e));
    var (l2, mem) := Run(s.l2, out);
    (if e.InstructionRead? then System(s.dc, first, l2) else System(first, s.ic, l2), mem)
  }

  ghost predicate SystemInv(s: System) {
    && Inv(s.dc) && Inv(s.ic) && Inv(s.l2)
    && IsPowerOfTwo(s.dc.g.linesz) && IsPowerOfTwo(s.l2.g.linesz) && s.dc.g.linesz <= s.l2.g.linesz
  }

  ghost predicate HeldDirty(s: System, addr: Word) { Dirty(s.dc, addr) || Dirty(s.l2, addr) }

  lemma SystemStepKeepsInv(s: System, e: Event)
    requires SystemInv(s)
    ensures SystemInv(SystemStep(s, e).0)
  {
    var l1 := if e.InstructionRead? then s.ic else s.dc;
    StepRefinesMap(l1, RequestOf(e));
    RunKeepsInv(s.l2, Step(l1, RequestOf(e)).1);
  }

  lemma {:induction false} RunKeepsSystemInv(s: System, events: seq<Event>)
    requires SystemInv(s)
    ensures SystemInv(Feed(SystemStep, s, events).0)
    decreases |events|
  {
    if events != [] {
      var init, last := events[..|events| - 1], events[|events| - 1];
      assert events == init + [last];
      RunKeepsSystemInv(s, init);
      FeedLast(SystemStep, s, init, last);
      SystemStepKeepsInv(Feed(SystemStep, s, init).0, last);
    }
  }

  lemma LevelsDirty(levels: seq<Level>, s: System, addr: Word)
    requires levels == [s.dc, s.l2] || levels == [s.l2]
    requires DirtySomewhere(levels, addr)
    ensures HeldDirty(s, addr)
  {
  }

  lemma SecondLevelKeepsStores(s: System, addr: Word, reqs: seq<Request>)
    requires SystemInv(s) && Dirty(s.l2, addr)
    ensures var (l2, mem) := Run(s.l2, reqs);
            Dirty(l2, addr) || Covered(mem, addr)
  {
    var levels := [s.l2];
    assert Dirty(levels[0], addr);
    NothingLeavesTheChainSilently(levels, addr, reqs);
    ChainOfOne(s.l2, reqs);
  }

  lemma DataAccessKeepsStores(s: System, e: Event, addr: Word)
    requires SystemInv(s) && HeldDirty(s, addr) && !e.InstructionRead?
    ensures var (s', mem) := SystemStep(s, e);
            HeldDirty(s', addr) || Covered(mem, addr)
  {
    var (s', mem) := SystemStep(s, e);
    var levels := [s.dc, s.l2];
    assert Dirty(levels[0], addr) || Dirty(levels[1], addr);
    NothingLeavesTheChainSilently(levels, addr, [RequestOf(e)]);
    ChainOfTwo(s.dc, s.l2, RequestOf(e));
    if DirtySomewhere([s'.dc, s'.l2], addr) {
      LevelsDirty([s'.dc, s'.l2], s', addr);
    }
  }

  /** No event makes a dirty line disappear. */
  lemma EventKeepsStores(s: System, e: Event, addr: Word)
    requires SystemInv(s) && HeldDirty(s, addr)
    ensures var (s', mem) := SystemStep(s, e);
            HeldDirty(s', addr) || Covered(mem, addr)
  {
    if !e.InstructionRead? {
      DataAccessKeepsStores(s, e, addr);
    } else if !Dirty(s.dc, addr) {
      SecondLevelKeepsStores(s, addr, Step(s.ic, RequestOf(e)).1);
    }
  }

  lemma ChainOfOne(l: Level, reqs: seq<Request>)
    ensures ChainRun([l], reqs) == ([Run(l, reqs).0], Run(l, reqs).1)
  {
    assert [l][1..] == [];
    assert ChainRun([], Run(l, reqs).1) == ([], Run(l, reqs).1);
    assert [Run(l, reqs).0] + [] == [Run(l, reqs).0];
  }

  lemma ChainOfTwo(l1: Level, l2: Level, req: Request)
    ensures var (l1', out) := Step(l1, req);
            var (l2', mem) := Run(l2, out);
            ChainRun([l1, l2], [req]) == ([l1', l2'], mem)
  {
    FeedOne(Step, l1, req);
    assert [l1, l2][1..] == [l2];
    var (l1', out) := Step(l1, req);
    ChainOfOne(l2, out);
    assert [l1'] + [Run(l2, out).0] == [l1', Run(l2, out).0];
  }

  /** Whatever reads and writes follow it, in any order and through either cache, a stored byte's
      line is still dirty in the data or second-level cache, or a store covering it has since
      reached memory. */
  lemma {:induction false} NoStoreLostInSystem(s: System, addr: Word, post: seq<Event>)
    requires SystemInv(s)
    ensures var stored := SystemStep(s, DataWrite(addr)).0;
            var (end, mem) := Feed(SystemStep, stored, post);
            SystemInv(end) && (HeldDirty(end, addr) || Covered(mem, addr))
    decreases |post|
  {
    var stored := SystemStep(s, DataWrite(addr)).0;
    if post == [] {
      SystemStepKeepsInv(s, DataWrite(addr));
      StoreMakesDirty(s.dc, RequestOf(DataWrite(addr)));
    } else {
      var init, last := post[..|post| - 1], post[|post| - 1];
      assert post == init + [last];
      NoStoreLostInSystem(s, addr, init);
      FeedLast(SystemStep, stored, init, last);
      var mid := Feed(SystemStep, stored, init).0;
      SystemStepKeepsInv(mid, last);
      if HeldDirty(mid, addr) {
        EventKeepsStores(mid, last, addr);
      }
    }
  }

  /** The same, of any store in any run. */
  lemma NoStoreLostInRun(start: System, events: seq<Event>, k: nat)
    requires SystemInv(start) && k < |events| && events[k].DataWrite?
    ensures var (end, mem) := Feed(SystemStep, start, events);
            var before := Feed(SystemStep, start, events[..k + 1]).1;
            before <= mem && (HeldDirty(end, events[k].addr) || Covered(mem[|before|..], events[k].addr))
  {
    var pre, post := events[..k], events[k + 1..];
    assert events[..k + 1] == pre + [events[k]] && events == events[..k + 1] + post;
    FeedAppend(SystemStep, start, events[..k + 1], post);
    FeedLast(SystemStep, start, pre, events[k]);
    RunKeepsSystemInv(start, pre);
    NoStoreLostInSystem(Feed(SystemStep, start, pre).0, events[k].addr, post);
  }
}
