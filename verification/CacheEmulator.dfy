/** The emulator's three cache objects: data and instruction caches that share the second level
    as their miss handler. */
module CacheEmulator {
  import opened CacheModel
  import opened CacheRefinement
  import opened CacheRuns
  import opened CacheSystem
  import opened CacheEvents
  import opened CacheSim
  import opened Transducer

  /** Two caches with one miss handler, which they reach but neither reaches the other. */
  ghost predicate Sharing(first: Cache, second: Cache, handler: Cache)
    reads first`missHandler, first`Repr, first`tags, second`missHandler, second`Repr, second`tags
  {
    && first.missHandler == handler && second.missHandler == handler
    && Apart(first, second) && Apart(second, first)
  }

  ghost predicate Arranged(dc: Cache, ic: Cache, l2: Cache)
    reads dc, dc.Repr, ic, ic.Repr, l2, l2.Repr
  {
    dc.Valid() && ic.Valid() && l2.Valid() && Sharing(dc, ic, l2) && l2 in dc.Repr && l2 in ic.Repr
  }

  ghost predicate Apart(c: Cache, from: Cache)
    reads c`tags, from`Repr
  {
    c !in from.Repr && c.tags !in from.Repr
  }

  /** An access through one of them leaves the other as it was, and still valid. */
  method AccessFirst(first: Cache, second: Cache, handler: Cache, addr: Word, store: bool)
    requires first.Valid() && second.Valid() && Sharing(first, second, handler)
    modifies first.Repr
    ensures first.Valid() && second.Valid() && Sharing(first, second, handler)
    ensures first.Repr == old(first.Repr) && second.Repr == old(second.Repr)
    ensures first.history == old(first.history) + [Request(addr, ACCESS_BYTES, store)]
    ensures second.level == old(second.level) && second.history == old(second.history)
    ensures first.level == Step(old(first.level), Request(addr, ACCESS_BYTES, store)).0
    ensures handler.history == old(handler.history) + Step(old(first.level), Request(addr, ACCESS_BYTES, store)).1
  {
    first.Access(addr, ACCESS_BYTES, store);
    second.StaysValid();
  }

  /** And takes the shared handler through what the miss sends it. */
  method AccessShared(first: Cache, other: Cache, handler: Cache, req: Request)
    requires first.Valid() && other.Valid() && handler.Valid() && Sharing(first, other, handler)
             && req.bytes == ACCESS_BYTES
    modifies first.Repr
    ensures first.Valid() && other.Valid() && handler.Valid() && Sharing(first, other, handler)
    ensures first.Repr == old(first.Repr) && other.Repr == old(other.Repr)
    ensures first.level == Step(old(first.level), req).0 && other.level == old(other.level)
    ensures first.history == old(first.history) + [req] && other.history == old(other.history)
    ensures handler.level == Run(old(handler.level), Step(old(first.level), req).1).0
    ensures handler.sent == old(handler.sent) + Run(old(handler.level), Step(old(first.level), req).1).1
  {
    ghost var before, out := handler.history, Step(first.level, req).1;
    AccessFirst(first, other, handler, req.addr, req.store);
    handler.HistoryLeadsHere(before, out);
  }

  predicate PowersOfTwo(g: Geometry) { IsPowerOfTwo(g.sets) && IsPowerOfTwo(g.linesz) }

  method NewCaches(gd: Geometry, gi: Geometry, g2: Geometry) returns (dc: Cache, ic: Cache, l2: Cache)
    requires PowersOfTwo(gd) && PowersOfTwo(gi) && PowersOfTwo(g2)
    ensures dc.Valid() && ic.Valid() && l2.Valid()
    ensures fresh(dc.Repr) && fresh(ic.Repr) && fresh(l2.Repr)
    ensures Apart(dc, ic) && Apart(ic, dc) && Apart(dc, l2) && Apart(ic, l2)
    ensures dc.g == gd && ic.g == gi && l2.g == g2
    ensures System(dc.level, ic.level, l2.level) == System(Fresh(gd), Fresh(gi), Fresh(g2)) && l2.sent == []
    ensures dc.history == [] && ic.history == []
  {
    dc := new Cache(gd.sets, gd.ways, gd.linesz);
    ic := new Cache(gi.sets, gi.ways, gi.linesz);
    l2 := new Cache(g2.sets, g2.ways, g2.linesz);
  }

  /** Linking one cache leaves another, and the handler, valid. */
  method LinkBeside(c: Cache, other: Cache, handler: Cache)
    requires c.Valid() && other.Valid() && handler.Valid() && Apart(c, other) && Apart(c, handler)
    modifies c`missHandler, c`Repr, c`depth
    ensures c.Valid() && other.Valid() && handler.Valid() && c.missHandler == handler
    ensures c.Repr == old(c.Repr) + handler.Repr
  {
    c.SetMissHandler(handler);
  }

  /** `cache_init`. */
  method CacheInit(dc: Cache, ic: Cache, l2: Cache)
    requires dc.Valid() && ic.Valid() && l2.Valid()
    requires Apart(dc, ic) && Apart(ic, dc) && Apart(dc, l2) && Apart(ic, l2)
    modifies dc`missHandler, dc`Repr, dc`depth, ic`missHandler, ic`Repr, ic`depth
    ensures Arranged(dc, ic, l2)
    ensures dc.Repr == old(dc.Repr) + l2.Repr && ic.Repr == old(ic.Repr) + l2.Repr
  {
    LinkBeside(ic, dc, l2);
    LinkBeside(dc, ic, l2);
  }

  method BuildCaches(gd: Geometry, gi: Geometry, g2: Geometry) returns (dc: Cache, ic: Cache, l2: Cache)
    requires PowersOfTwo(gd) && PowersOfTwo(gi) && PowersOfTwo(g2)
    ensures Arranged(dc, ic, l2)
    ensures fresh(dc.Repr) && fresh(ic.Repr) && dc.g == gd && ic.g == gi && l2.g == g2
    ensures System(dc.level, ic.level, l2.level) == System(Fresh(gd), Fresh(gi), Fresh(g2)) && l2.sent == []
    ensures dc.history == [] && ic.history == []
  {
    dc, ic, l2 := NewCaches(gd, gi, g2);
    CacheInit(dc, ic, l2);
  }

  /** From `start` these events lead to s, and send this to memory. */
  ghost predicate Leads(start: System, events: seq<Event>, s: System, sent: seq<Request>) {
    Feed(SystemStep, start, events).0 == s && Feed(SystemStep, start, events).1 == sent
  }

  lemma LeadsOn(start: System, events: seq<Event>, e: Event, s: System, sent: seq<Request>, s': System,
                sent': seq<Request>)
    requires Leads(start, events, s, sent) && s' == SystemStep(s, e).0 && sent' == sent + SystemStep(s, e).1
    ensures Leads(start, events + [e], s', sent')
  {
    FeedLast(SystemStep, start, events, e);
  }

  /** Three caches of any sizes, linked as the program links its own. */
  class Emulator {
    const dc: Cache
    const ic: Cache
    const l2: Cache
    ghost var events: seq<Event>

    /** Where the three caches are. */
    ghost function State(): System
      reads dc`level, ic`level, l2`level
    {
      System(dc.level, ic.level, l2.level)
    }

    ghost function Start(): System { System(Fresh(dc.g), Fresh(ic.g), Fresh(l2.g)) }

    ghost predicate Valid()
      reads this, dc, dc.Repr, ic, ic.Repr, l2, l2.Repr
    {
      && this !in dc.Repr && this !in ic.Repr && Arranged(dc, ic, l2)
      && Leads(Start(), events, State(), l2.sent)
      && dc.history == DataAccesses(events) && ic.history == InstructionAccesses(events)
    }

    constructor (gd: Geometry, gi: Geometry, g2: Geometry)
      requires PowersOfTwo(gd) && PowersOfTwo(gi) && PowersOfTwo(g2)
      ensures Valid() && events == [] && dc.g == gd && ic.g == gi && l2.g == g2
      ensures fresh(dc.Repr) && fresh(ic.Repr)
    {
      var dcache, icache, second := BuildCaches(gd, gi, g2);
      FeedNone(SystemStep, System(Fresh(gd), Fresh(gi), Fresh(g2)));
      dc, ic, l2 := dcache, icache, second;
      events := [];
    }

    /** One event, through the cache it reaches, is a step of the three caches. */
    method Reach(first: Cache, other: Cache, e: Event)
      requires Arranged(dc, ic, l2)
      requires if e.InstructionRead? then first == ic && other == dc else first == dc && other == ic
      modifies first.Repr
      ensures Arranged(dc, ic, l2) && dc.Repr == old(dc.Repr) && ic.Repr == old(ic.Repr)
      ensures first.history == old(first.history) + [RequestOf(e)] && other.history == old(other.history)
      ensures State() == SystemStep(old(State()), e).0 && l2.sent == old(l2.sent) + SystemStep(old(State()), e).1
    {
      AccessShared(first, other, l2, RequestOf(e));
    }

    method Deliver(first: Cache, other: Cache, e: Event)
      requires Valid() && (if e.InstructionRead? then first == ic && other == dc else first == dc && other == ic)
      modifies this`events, first.Repr
      ensures Valid() && events == old(events) + [e] && dc.Repr == old(dc.Repr) && ic.Repr == old(ic.Repr)
      ensures first.history == old(first.history) + [Request(e.addr, 64, e.DataWrite?)]
      ensures other.history == old(other.history)
    {
      ghost var before, sent := State(), l2.sent;
      NextAccess(events, e);
      Reach(first, other, e);
      Log(e, before, sent);
    }

    ghost method Log(e: Event, before: System, sent: seq<Request>)
      requires this !in dc.Repr && this !in ic.Repr && Arranged(dc, ic, l2) && Leads(Start(), events, before, sent)
      requires State() == SystemStep(before, e).0 && l2.sent == sent + SystemStep(before, e).1
      requires dc.history == DataAccesses(events + [e]) && ic.history == InstructionAccesses(events + [e])
      modifies this`events
      ensures Valid() && events == old(events) + [e]
    {
      LeadsOn(Start(), events, e, before, sent, State(), l2.sent);
      events := events + [e];
    }

    method DcRead(addr: Word)
      requires Valid()
      modifies this`events, dc.Repr
      ensures Valid() && events == old(events) + [DataRead(addr)]
      ensures dc.history == old(dc.history) + [Request(addr, 64, false)] && ic.history == old(ic.history)
      ensures dc.readAccesses == old(dc.readAccesses) + 1 && dc.bytesRead == old(dc.bytesRead) + 64
      ensures dc.writeAccesses == old(dc.writeAccesses) && dc.bytesWritten == old(dc.bytesWritten)
    {
      Deliver(dc, ic, DataRead(addr));
      dc.CountersFollow(Request(addr, 64, false));
    }

    method IcRead(addr: Word)
      requires Valid()
      modifies this`events, ic.Repr
      ensures Valid() && events == old(events) + [InstructionRead(addr)]
      ensures ic.history == old(ic.history) + [Request(addr, 64, false)] && dc.history == old(dc.history)
      ensures ic.readAccesses == old(ic.readAccesses) + 1 && ic.bytesRead == old(ic.bytesRead) + 64
      ensures ic.writeAccesses == old(ic.writeAccesses) && ic.bytesWritten == old(ic.bytesWritten)
    {
      Deliver(ic, dc, InstructionRead(addr));
      ic.CountersFollow(Request(addr, 64, false));
    }

    method DcWrite(addr: Word)
      requires Valid()
      modifies this`events, dc.Repr
      ensures Valid() && events == old(events) + [DataWrite(addr)]
      ensures dc.history == old(dc.history) + [Request(addr, 64, true)] && ic.history == old(ic.history)
      ensures dc.writeAccesses == old(dc.writeAccesses) + 1 && dc.bytesWritten == old(dc.bytesWritten) + 64
      ensures dc.readAccesses == old(dc.readAccesses) && dc.bytesRead == old(dc.bytesRead)
    {
      Deliver(dc, ic, DataWrite(addr));
      dc.CountersFollow(Request(addr, 64, true));
    }

    /** What the second level had sent to memory by the end of the first n events. */
    ghost function SentBy(n: nat): seq<Request>
      requires n <= |events|
      reads this`events
    {
      Feed(SystemStep, Start(), events[..n]).1
    }

    /** Of the objects themselves: whatever was written is still dirty in the data cache or the second
        level, or the second level has since stored it to memory. */
    lemma NoWriteLost(k: nat)
      requires Valid() && k < |events| && events[k].DataWrite?
      requires IsPowerOfTwo(dc.g.linesz) && IsPowerOfTwo(l2.g.linesz) && dc.g.linesz <= l2.g.linesz
      ensures SentBy(k + 1) <= l2.sent
      ensures HeldDirty(State(), events[k].addr) || Covered(l2.sent[|SentBy(k + 1)|..], events[k].addr)
    {
      FreshIsEmpty(Fresh(dc.g));
      FreshIsEmpty(Fresh(ic.g));
      FreshIsEmpty(Fresh(l2.g));
      NoStoreLostInRun(Start(), events, k);
    }

    /** The instruction cache never holds a dirty line and never writes one back. */
    lemma InstructionCacheIsClean()
      requires Valid()
      ensures ic.writebacks == 0 && ic.writeAccesses == 0 && ic.bytesWritten == 0
      ensures forall i :: 0 <= i < ic.tags.Length && ic.tags[i] >= 0x8000_0000_0000_0000 ==>
                ic.tags[i] < 0xC000_0000_0000_0000
    {
      InstructionsOnlyLoad(events);
      LoadsStayClean(Fresh(ic.g), ic.history);
      forall i | 0 <= i < ic.tags.Length && ic.tags[i] >= 0x8000_0000_0000_0000
        ensures ic.tags[i] < 0xC000_0000_0000_0000
      {
        WordOfLine(ic.tags[i], 0);
      }
    }

    /** The dirty bit of a valid word of the data cache: some write to its line came after its last fetch. */
    lemma DirtyBitIsWritten(i: nat)
      requires Valid() && i < dc.tags.Length && dc.tags[i] >= 0x8000_0000_0000_0000
      ensures dc.tags[i] >= 0xC000_0000_0000_0000
              <==> WrittenSinceFetch(dc.g, events, dc.tags[i] as nat % 0x4000_0000_0000_0000)
    {
      var line := dc.WordIsHeld(i);
      DirtyIffWritten(dc.g, events, line);
    }
  }
}
