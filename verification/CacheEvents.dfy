/** What the emulator's events mean for its first-level caches, read off the events themselves. */
module CacheEvents {
  import opened CacheModel
  import opened CacheRefinement
  import opened CacheAccounts
  import opened CacheSystem
  import opened Transducer

  /** What the data cache is asked, and what the instruction cache is. */
  ghost function DataAccesses(events: seq<Event>): seq<Request> {
    if events == [] then []
    else
      var e := events[|events| - 1];
      DataAccesses(events[..|events| - 1]) + if e.InstructionRead? then [] else [Request(e.addr, 64, e.DataWrite?)]
  }

  ghost function InstructionAccesses(events: seq<Event>): seq<Request> {
    if events == [] then []
    else
      var e := events[|events| - 1];
      InstructionAccesses(events[..|events| - 1]) + if e.InstructionRead? then [Request(e.addr, 64, false)] else []
  }

  lemma NextAccess(events: seq<Event>, e: Event)
    ensures DataAccesses(events + [e])
         == DataAccesses(events) + if e.InstructionRead? then [] else [Request(e.addr, 64, e.DataWrite?)]
    ensures InstructionAccesses(events + [e])
         == InstructionAccesses(events) + if e.InstructionRead? then [Request(e.addr, 64, false)] else []
  {
    assert (events + [e])[..|events + [e]| - 1] == events;
  }

  // ----- The instruction cache

  ghost predicate OnlyLoads(reqs: seq<Request>) { forall r :: r in reqs ==> !r.store }

  lemma {:induction false} InstructionsOnlyLoad(events: seq<Event>)
    ensures OnlyLoads(InstructionAccesses(events))
  {
    if events != [] {
      InstructionsOnlyLoad(events[..|events| - 1]);
    }
  }

  lemma {:induction false} NoStores(reqs: seq<Request>)
    requires OnlyLoads(reqs)
    ensures Sum(StoresIn, reqs) == 0 && Sum(BytesStoredBy, reqs) == 0
  {
    if reqs != [] {
      assert reqs[0] in reqs;
      assert forall r :: r in reqs[1..] ==> r in reqs;
      NoStores(reqs[1..]);
    }
  }

  lemma {:induction false} NoneDirty(slots: seq<Slot>, s: nat)
    requires CountDirty(slots) == 0 && s < |slots|
    ensures !NeedsWriteback(slots[s])
  {
    if s > 0 {
      NoneDirty(slots[1..], s - 1);
    }
  }

  /** A cache that is only read from holds nothing dirty and writes nothing back. */
  lemma LoadsStayClean(l: Level, reqs: seq<Request>)
    requires IsFresh(l) && OnlyLoads(reqs)
    ensures Sum(StoresIn, reqs) == 0 && Sum(BytesStoredBy, reqs) == 0 && Sum(StoresIn, Run(l, reqs).1) == 0
    ensures forall s: nat :: s < |Run(l, reqs).0.slots| ==> !NeedsWriteback(Run(l, reqs).0.slots[s])
  {
    NoStores(reqs);
    LinesAreConserved(l, reqs);
    var slots := Run(l, reqs).0.slots;
    forall s: nat | s < |slots| ensures !NeedsWriteback(slots[s]) {
      NoneDirty(slots, s);
    }
  }

  // ----- The data cache

  /** The event writes to the line. */
  ghost predicate WritesLine(g: Geometry, e: Event, line: nat) { e.DataWrite? && e.addr / g.linesz == line }

  /** Event j made the data cache fetch the line: it was a data event there, and the line was not held. */
  ghost predicate FetchesAt(g: Geometry, events: seq<Event>, j: nat, line: nat)
    requires j < |events|
  {
    && !events[j].InstructionRead? && events[j].addr / g.linesz == line
    && line !in Contents(Run(Fresh(g), DataAccesses(events[..j])).0.slots)
  }

  /** Some write to the line, and no fetch of it after that. */
  ghost predicate WrittenSinceFetch(g: Geometry, events: seq<Event>, line: nat) {
    exists k :: 0 <= k < |events| && WritesLine(g, events[k], line)
                && forall j :: k < j < |events| ==> !FetchesAt(g, events, j, line)
  }

  lemma SameFetches(g: Geometry, events: seq<Event>, e: Event, j: nat, line: nat)
    requires j < |events|
    ensures FetchesAt(g, events + [e], j, line) <==> FetchesAt(g, events, j, line)
  {
    assert (events + [e])[..j] == events[..j];
  }

  lemma WrittenNext(g: Geometry, events: seq<Event>, e: Event, line: nat)
    ensures WrittenSinceFetch(g, events + [e], line)
            <==> WritesLine(g, e, line)
                 || (WrittenSinceFetch(g, events, line) && !FetchesAt(g, events + [e], |events|, line))
  {
    var events' := events + [e];
    forall j: nat | j < |events| ensures FetchesAt(g, events', j, line) <==> FetchesAt(g, events, j, line) {
      SameFetches(g, events, e, j, line);
    }
    if WritesLine(g, e, line) {
      assert WritesLine(g, events'[|events|], line);
    }
    if WrittenSinceFetch(g, events, line) && !FetchesAt(g, events', |events|, line) {
      var k :| 0 <= k < |events| && WritesLine(g, events[k], line)
               && forall j :: k < j < |events| ==> !FetchesAt(g, events, j, line);
      assert WritesLine(g, events'[k], line);
    }
    if WrittenSinceFetch(g, events', line) && !WritesLine(g, e, line) {
      var k :| 0 <= k < |events'| && WritesLine(g, events'[k], line)
               && forall j :: k < j < |events'| ==> !FetchesAt(g, events', j, line);
      assert WritesLine(g, events[k], line) && !FetchesAt(g, events', |events|, line);
      assert forall j :: k < j < |events| ==> !FetchesAt(g, events', j, line);
    }
  }

  /** One access and its effect on a line's dirty bit. */
  lemma BitAfter(l: Level, req: Request, line: LineNo)
    requires Inv(l)
    ensures var m, m', own := Contents(l.slots), Contents(Step(l, req).0.slots), Line(l.g, req.addr) == line;
            line in m' ==> (line in m || own) && m'[line] == ((own && req.store) || (line in m && m[line]))
  {
    StepRefinesMap(l, req);
  }

  /** Over every run, a line held by the data cache is dirty exactly when some write to it came after
      its last fetch. */
  lemma {:induction false} DirtyIffWritten(g: Geometry, events: seq<Event>, line: LineNo)
    ensures var m := Contents(Run(Fresh(g), DataAccesses(events)).0.slots);
            line in m ==> (m[line] <==> WrittenSinceFetch(g, events, line))
    decreases |events|
  {
    FreshIsEmpty(Fresh(g));
    if events != [] {
      var init, e := events[..|events| - 1], events[|events| - 1];
      assert events == init + [e];
      DirtyIffWritten(g, init, line);
      WrittenNext(g, init, e, line);
      NextAccess(init, e);
      assert events[..|init|] == init;
      RunKeepsInv(Fresh(g), DataAccesses(init));
      if !e.InstructionRead? {
        var req := Request(e.addr, 64, e.DataWrite?);
        FeedLast(Step, Fresh(g), DataAccesses(init), req);
        BitAfter(Run(Fresh(g), DataAccesses(init)).0, req, line);
      } else {
        assert DataAccesses(events) == DataAccesses(init);
      }
    }
  }
}
