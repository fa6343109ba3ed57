/** The simulator object itself: packed 64-bit tag words in one flat array, updated in place,
    with a chain of miss handlers behind it. */
module CacheSim {
  import opened Arith
  import opened CacheModel
  import opened CacheRefinement
  import opened CacheAccounts
  import opened Transducer
  import Lfsr

  const VALID: nat := 0x8000_0000_0000_0000
  const DIRTY: nat := 0x4000_0000_0000_0000

  // The mask operations on a tag word, written as arithmetic on bits 63 and 62.

  predicate HasDirty(w: Word) { DIRTY <= w < VALID || VALID + DIRTY <= w }

  function WithoutDirty(w: Word): Word { if HasDirty(w) then w - DIRTY else w }

  function WithDirty(w: Word): Word { if HasDirty(w) then w else w + DIRTY }

  function WithValid(w: Word): Word { if w >= VALID then w else w + VALID }

  function WithoutFlags(w: Word): Word { WithoutDirty(if w >= VALID then w - VALID else w) }

  function Decode(w: Word): Slot {
    if w < VALID then Empty
    else if w < VALID + DIRTY then Held(w - VALID, false)
    else Held(w - VALID - DIRTY, true)
  }

  /** A tag comparison that ignores the dirty bit finds exactly the word holding the line. */
  lemma TagComparison(w: Word, line: LineNo)
    ensures WithoutDirty(w) == WithValid(line) <==> Holds(Decode(w), line)
    ensures Decode(WithValid(line)) == Held(line, false)
    ensures Holds(Decode(w), line) ==> Decode(WithDirty(w)) == Held(line, true)
    ensures w >= VALID && HasDirty(w) <==> NeedsWriteback(Decode(w))
    ensures w >= VALID ==> WithoutFlags(w) == Decode(w).line
  {
  }

  /** The second lookup of a missing store compares the installed entry with its own tag. */
  predicate EntryIsFound(addr: Word, linesz: nat) {
    linesz > 0 && WithoutDirty(WithValid(addr / linesz)) == WithValid(addr / linesz)
  }

  /** Some word would match the tag that the search for `addr` compares with. */
  ghost predicate SomeEntryMatches(addr: Word, linesz: nat) {
    linesz > 0 && exists w: Word :: WithoutDirty(w) == WithValid(addr / linesz)
  }

  /** Why lines must be at least four bytes: the entry a miss installs is found again, whatever
      the address, exactly when they are. With one- or two-byte lines there is an address whose
      search comes back null whatever the set holds. */
  lemma EveryFilledEntryIsFound(linesz: nat)
    requires IsPowerOfTwo(linesz)
    ensures (forall addr: Word :: EntryIsFound(addr, linesz)) <==> linesz >= 4
    ensures (forall addr: Word :: SomeEntryMatches(addr, linesz)) <==> linesz >= 4
  {
    if linesz >= 4 {
      forall addr: Word ensures EntryIsFound(addr, linesz) && SomeEntryMatches(addr, linesz) {
        FoundWhenWide(addr, linesz);
      }
    } else {
      var addr := LostAddress(linesz);
      assert !SomeEntryMatches(addr, linesz) && !EntryIsFound(addr, linesz);
    }
  }

  lemma LostAddress(linesz: nat) returns (addr: Word)
    requires IsPowerOfTwo(linesz) && linesz < 4
    ensures forall w: Word :: WithoutDirty(w) != WithValid(addr / linesz)
  {
    addr := if linesz == 1 then DIRTY else 2 * DIRTY;
    DivIs(addr, linesz, DIRTY);
  }

  lemma FoundWhenWide(addr: Word, linesz: nat)
    requires linesz >= 4
    ensures EntryIsFound(addr, linesz)
  {
    DivBounds(addr, linesz);
    MulLe(4, linesz, addr / linesz);
  }

  /** After a miss has installed its line the second lookup finds it, in the victim's slot, and
      marking it there is what a missing store amounts to. */
  lemma LookupAfterFill(l: Level, line: LineNo)
    requires Inv(l) && Lookup(l, line).None? && BaseAddress(l.g, line) < TWO64
    ensures Lookup(Install(l, line, false), line) == Some(VictimSlot(l, line))
    ensures Place(Install(l, line, false), VictimSlot(l, line), line, true) == Install(l, line, true)
  {
    var s := VictimSlot(l, line);
    var l' := Install(l, line, false);
    LookupIsMembership(l, line);
    ReplaceSlot(l.slots, s, line, false);
    assert forall t: nat :: t < |l.slots| && SlotOk(l.g, t, l.slots[t]) ==> SlotOk(l.g, t, l'.slots[t]);
    LookupIsMembership(l', line);
    assert l'.slots[s := Held(line, true)] == l.slots[s := Held(line, true)];
  }

  lemma StepKeepsInv(l: Level, req: Request)
    requires Inv(l)
    ensures Inv(Step(l, req).0) && WholeLines(l.g, Step(l, req).1)
  {
    StepRefinesMap(l, req);
    OutputOfStep(l, req);
  }

  /** The packed words stand for these slots. */
  ghost predicate Packs(words: seq<Word>, slots: seq<Slot>) {
    |words| == |slots| && forall i :: 0 <= i < |words| ==> Decode(words[i]) == slots[i]
  }

  // ----- One access, on the words themselves

  /** The word holds the line, dirty or not. */
  ghost predicate HoldsLine(w: nat, line: nat) {
    w == line + 0x8000_0000_0000_0000 || w == line + 0xC000_0000_0000_0000
  }

  /** The first word from lo up that holds the line; hi if there is none below it. */
  ghost function FirstHit(ws: seq<nat>, line: nat, lo: nat, hi: nat): (i: nat)
    requires lo <= hi
    ensures lo <= i <= hi && (i < hi && i < |ws| ==> HoldsLine(ws[i], line))
    ensures forall k :: lo <= k < i && k < |ws| ==> !HoldsLine(ws[k], line)
    decreases hi - lo
  {
    if lo == hi || (lo < |ws| && HoldsLine(ws[lo], line)) then lo else FirstHit(ws, line, lo + 1, hi)
  }

  /** Where the set that the address selects begins. */
  ghost function SetBase(g: Geometry, addr: Word): nat { addr / g.linesz % g.sets * g.ways }

  /** The way drawn after so many misses: the register then holds the next word of the sequence from 1. */
  ghost function Drawn(g: Geometry, misses: nat): nat { Lfsr.Iterate(misses + 1, 1) as nat % g.ways }

  /** The index of the word that an access finds or replaces, and whether it hits. */
  ghost function Target(g: Geometry, misses: nat, ws: seq<nat>, addr: Word): (nat, bool) {
    var first := SetBase(g, addr);
    var i := FirstHit(ws, addr / g.linesz, first, first + g.ways);
    if i < first + g.ways then (i, true) else (first + Drawn(g, misses), false)
  }

  /** At most one word changes: a store that hits sets the dirty bit of the word found, and a miss
      puts the line in the way drawn. */
  ghost function WordsAfterAccess(g: Geometry, misses: nat, ws: seq<nat>, addr: Word, store: bool): seq<nat> {
    var (i, hit) := Target(g, misses, ws, addr);
    if i >= |ws| || (hit && !store) then ws
    else ws[i := addr / g.linesz + if store then 0xC000_0000_0000_0000 else 0x8000_0000_0000_0000]
  }

  /** What that says of every word: on a hit only a word that holds the line can change, to the dirty
      form of it, and on a miss only the word in the way drawn. */
  lemma OnlyTargetChanges(g: Geometry, misses: nat, ws: seq<nat>, addr: Word, store: bool)
    ensures var ws', line, first := WordsAfterAccess(g, misses, ws, addr, store), addr / g.linesz,
                addr / g.linesz % g.sets * g.ways;
            var hit := exists k :: first <= k < first + g.ways && k < |ws| && HoldsLine(ws[k], line);
            && |ws'| == |ws|
            && (forall k :: 0 <= k < |ws| && ws'[k] != ws[k] ==>
                  first <= k < first + g.ways
                  && (hit ==> store && HoldsLine(ws[k], line) && ws'[k] == line + 0xC000_0000_0000_0000)
                  && (!hit ==> k == first + Lfsr.Iterate(misses + 1, 1) as nat % g.ways))
            && (!hit && first + g.ways <= |ws| ==>
                  ws'[first + Lfsr.Iterate(misses + 1, 1) as nat % g.ways]
                  == line + if store then 0xC000_0000_0000_0000 else 0x8000_0000_0000_0000)
  {
  }

  /** The store that writes back what a dirty word stands for. */
  ghost function WriteBackOf(w: nat, linesz: nat): Request
    requires w >= 0xC000_0000_0000_0000
  {
    Request((w - 0xC000_0000_0000_0000) * linesz % 0x1_0000_0000_0000_0000, linesz, true)
  }

  /** The load that fetches the line of an address. */
  ghost function FetchOf(addr: Word, linesz: nat): Request
    requires linesz > 0
  {
    ModAtMost(addr, linesz);
    Request(addr - addr % linesz, linesz, false)
  }

  /** What a miss sends on: if the word in the way drawn is valid and dirty, a store to the address
      it stands for; then a load from the start of the line. */
  ghost function WordsSent(g: Geometry, misses: nat, ws: seq<nat>, addr: Word): seq<Request> {
    var (i, hit) := Target(g, misses, ws, addr);
    if hit then []
    else (if i < |ws| && ws[i] >= 0xC000_0000_0000_0000 then [WriteBackOf(ws[i], g.linesz)] else [])
         + [FetchOf(addr, g.linesz)]
  }

  /** The word that a line becomes, and what is read off a word. */
  lemma WordOfLine(w: Word, line: LineNo)
    ensures HoldsLine(w, line) <==> Holds(Decode(w), line)
    ensures HoldsLine(w, line) ==> WithDirty(w) == line + 0xC000_0000_0000_0000
    ensures WithValid(line) == line + 0x8000_0000_0000_0000
    ensures WithDirty(WithValid(line)) == line + 0xC000_0000_0000_0000
    ensures w >= 0xC000_0000_0000_0000 <==> NeedsWriteback(Decode(w))
    ensures w >= 0xC000_0000_0000_0000 ==> Decode(w).line == w - 0xC000_0000_0000_0000
  {
  }

  /** The words after an access to `line`, by the slots they stand for. */
  ghost function WordsAfter(l: Level, ws: seq<Word>, line: LineNo, store: bool): seq<Word>
    requires |ws| == |l.slots|
  {
    match Lookup(l, line)
    case Some(s) => if store then ws[s := WithDirty(ws[s])] else ws
    case None => ws[VictimSlot(l, line) := if store then WithDirty(WithValid(line)) else WithValid(line)]
  }

  /** The word found or replaced is the one the lookup finds or the register draws. */
  lemma TargetIs(l: Level, ws: seq<Word>, misses: nat, addr: Word)
    requires Packs(ws, l.slots) && l.reg == Lfsr.Iterate(misses, 1)
    ensures Target(l.g, misses, ws, addr)
         == match Lookup(l, Line(l.g, addr))
            case Some(s) => (s, true)
            case None => (VictimSlot(l, Line(l.g, addr)), false)
  {
    var line := Line(l.g, addr);
    TimesIs(line % l.g.sets, l.g.ways);
    SameSearch(ws, l.slots, line, FirstSlot(l.g, line), FirstSlot(l.g, line) + l.g.ways);
  }

  lemma {:induction false} SameSearch(ws: seq<Word>, slots: seq<Slot>, line: LineNo, lo: nat, hi: nat)
    requires Packs(ws, slots) && lo <= hi <= |ws|
    ensures FirstHit(ws, line, lo, hi) == match Find(slots, line, lo, hi) case Some(s) => s case None => hi
    decreases hi - lo
  {
    if lo < hi {
      WordOfLine(ws[lo], line);
      SameSearch(ws, slots, line, lo + 1, hi);
    }
  }

  lemma StepOnWords(l: Level, ws: seq<Word>, misses: nat, addr: Word, store: bool)
    requires Packs(ws, l.slots) && l.reg == Lfsr.Iterate(misses, 1)
    ensures WordsAfter(l, ws, Line(l.g, addr), store) == WordsAfterAccess(l.g, misses, ws, addr, store)
  {
    var line := Line(l.g, addr);
    TargetIs(l, ws, misses, addr);
    match Lookup(l, line)
    case Some(s) => WordOfLine(ws[s], line);
    case None => WordOfLine(0, line);
  }

  lemma RequestsOfWord(g: Geometry, w: Word, addr: Word)
    ensures Requests(g, Decode(w), addr)
         == (if w >= 0xC000_0000_0000_0000 then [WriteBackOf(w, g.linesz)] else []) + [FetchOf(addr, g.linesz)]
  {
    WordOfLine(w, 0);
    if w >= 0xC000_0000_0000_0000 { TimesIs(w - 0xC000_0000_0000_0000, g.linesz); }
  }

  lemma SentOnWords(l: Level, ws: seq<Word>, misses: nat, req: Request)
    requires Packs(ws, l.slots) && l.reg == Lfsr.Iterate(misses, 1)
    ensures Step(l, req).1 == WordsSent(l.g, misses, ws, req.addr)
  {
    var line := Line(l.g, req.addr);
    TargetIs(l, ws, misses, req.addr);
    if Lookup(l, line).None? {
      RequestsOfWord(l.g, ws[VictimSlot(l, line)], req.addr);
    }
  }

  /** All that an access will do, from the level, the words and the number of misses before it. */
  lemma Predicted(g: Geometry, l: Level, ws: seq<Word>, misses: nat, req: Request) returns (out: seq<Request>)
    requires l.g == g && Packs(ws, l.slots) && l.reg == Lfsr.Iterate(misses, 1)
    ensures out == Step(l, req).1 == WordsSent(g, misses, ws, req.addr) && WholeLines(g, out)
    ensures Sum(LoadsIn, out) == (if Misses(l, req) then 1 else 0)
    ensures Sum(StoresIn, out) == (if WritesBack(l, req) then 1 else 0)
    ensures WordsAfter(l, ws, Line(g, req.addr), req.store) == WordsAfterAccess(g, misses, ws, req.addr, req.store)
  {
    out := Step(l, req).1;
    OutputOfStep(l, req);
    StepOnWords(l, ws, misses, req.addr, req.store);
    SentOnWords(l, ws, misses, req);
  }

  class Cache {
    const g: Geometry
    var idxShift: nat
    var reg: bv32
    var tags: array<Word>
    var missHandler: Cache?
    var readAccesses: nat
    var readMisses: nat
    var bytesRead: nat
    var writeAccesses: nat
    var writeMisses: nat
    var bytesWritten: nat
    var writebacks: nat

    ghost var level: Level
    ghost var history: seq<Request>
    ghost var sent: seq<Request>
    ghost var Repr: set<object>
    ghost var depth: nat

    /** The array, the shift and the register stand for `level`. */
    ghost predicate Shaped()
      reads this`tags, this`idxShift, this`reg, this`level, tags
    {
      level.g == g && level.reg == reg && Packs(tags[..], level.slots) && Pow2(idxShift) == g.linesz
    }

    /** The access and byte counters total the requests received. */
    ghost predicate CountsReceived()
      reads this`readAccesses, this`writeAccesses, this`bytesRead, this`bytesWritten, this`history
    {
      && readAccesses == Sum(LoadsIn, history) && writeAccesses == Sum(StoresIn, history)
      && bytesRead == Sum(BytesLoadedBy, history) && bytesWritten == Sum(BytesStoredBy, history)
    }

    /** The miss and write-back counters total the requests sent on, which are for whole lines. */
    ghost predicate CountsSent()
      reads this`readMisses, this`writeMisses, this`writebacks, this`sent
    {
      readMisses + writeMisses == Sum(LoadsIn, sent) && writebacks == Sum(StoresIn, sent) && WholeLines(g, sent)
    }

    ghost function Missed(): nat
      reads this`readMisses, this`writeMisses
    {
      readMisses + writeMisses
    }

    /** The register is as many steps from 1 as there have been misses. */
    ghost predicate Counted()
      reads this`reg, this`readMisses, this`writeMisses
    {
      reg == Lfsr.Iterate(readMisses + writeMisses, 1)
    }

    /** The object is where its whole history leads from the state the constructor leaves. */
    ghost predicate RunsFromFresh()
      reads this`level, this`history, this`sent
    {
      level == Run(Fresh(g), history).0 && sent == Run(Fresh(g), history).1
    }

    ghost function HandlerRepr(): set<object>
      reads this`missHandler, missHandler
    {
      if missHandler == null then {} else missHandler.Repr
    }

    ghost function HandlerDepth(): nat
      reads this`missHandler, missHandler
    {
      if missHandler == null then 0 else missHandler.depth
    }

    /** The handler, if any, is a valid cache further down that shares nothing with this one. */
    ghost predicate Linked()
      reads this`tags, this`missHandler, this`Repr, this`depth, missHandler, HandlerRepr()
      decreases depth, 0
    {
      && this in Repr && tags in Repr
      && (missHandler != null ==>
            && missHandler in Repr && missHandler.Repr <= Repr && missHandler in missHandler.Repr
            && this !in missHandler.Repr && tags !in missHandler.Repr
            && missHandler.depth < depth && missHandler.Valid())
    }

    ghost predicate Valid()
      reads this, Repr
      decreases depth, 1
    {
      && this in Repr && tags in Repr && (missHandler != null ==> missHandler in Repr && missHandler.Repr <= Repr)
      && Linked() && Consistent()
    }

    /** What this object says about itself alone. */
    ghost predicate Consistent()
      reads this`tags, this`idxShift, this`reg, this`level, tags, this`history, this`sent
      reads this`readAccesses, this`writeAccesses, this`bytesRead, this`bytesWritten
      reads this`readMisses, this`writeMisses, this`writebacks
    {
      Shaped() && Inv(level) && CountsReceived() && CountsSent() && RunsFromFresh()
    }

    /** One more request is one more step. */
    lemma NextOfRun(req: Request)
      requires Inv(level) && RunsFromFresh()
      ensures Inv(Step(level, req).0)
      ensures Step(level, req).0 == Run(Fresh(g), history + [req]).0
      ensures sent + Step(level, req).1 == Run(Fresh(g), history + [req]).1
    {
      StepKeepsInv(level, req);
      FeedLast(Step, Fresh(g), history, req);
    }

    /** Of every valid cache: the register is as many steps from 1 as there have been misses. */
    lemma RegisterIsMissCount()
      requires Consistent()
      ensures Counted()
    {
      RegisterCountsMisses(Fresh(g), history);
    }

    /** A cache stays valid while others use its handler. */
    twostate lemma StaysValid()
      requires old(Valid()) && unchanged(this) && unchanged(tags) && missHandler != null
      requires missHandler.Valid() && HandlerRepr() == old(HandlerRepr()) && HandlerDepth() == old(HandlerDepth())
      ensures Valid()
    {
      assert Consistent();
    }

    /** Its history says where a valid cache is, so what it received last says how it got there. */
    lemma HistoryLeadsHere(before: seq<Request>, last: seq<Request>)
      requires Valid() && history == before + last
      ensures level == Run(Run(Fresh(g), before).0, last).0
      ensures sent == Run(Fresh(g), before).1 + Run(Run(Fresh(g), before).0, last).1
    {
      FeedAppend(Step, Fresh(g), before, last);
    }

    /** The access and byte counters follow from the history. */
    twostate lemma CountersFollow(req: Request)
      requires old(CountsReceived()) && CountsReceived() && history == old(history) + [req]
      ensures readAccesses == old(readAccesses) + (if req.store then 0 else 1)
      ensures writeAccesses == old(writeAccesses) + (if req.store then 1 else 0)
      ensures bytesRead == old(bytesRead) + (if req.store then 0 else req.bytes)
      ensures bytesWritten == old(bytesWritten) + (if req.store then req.bytes else 0)
    {
      ReceivedTotals(old(history), req);
    }

    /** The handler has received exactly what this cache sent it, and nothing else. */
    ghost predicate FeedsAlone()
      reads this, missHandler
    {
      missHandler != null && missHandler.history == sent
    }

    /** Then the handler's statistics are this cache's misses and write-backs. */
    lemma HandlerStatistics()
      requires Valid() && FeedsAlone()
      ensures missHandler.readAccesses == readMisses + writeMisses && missHandler.writeAccesses == writebacks
      ensures missHandler.bytesRead == g.linesz * (readMisses + writeMisses)
      ensures missHandler.bytesWritten == g.linesz * writebacks
    {
      assert missHandler.Valid();
      assert missHandler.CountsReceived();
      WholeLinesBytes(g, sent);
    }

    /** Every miss brought a line in that is still resident or was evicted; every line made dirty is
        still dirty or was written back; no more is written back than was evicted or stored to. */
    lemma CountersBalance()
      requires Valid()
      ensures readMisses + writeMisses == CountHeld(level.slots) + Evictions(Fresh(g), history)
      ensures writebacks + CountDirty(level.slots) == Dirtyings(Fresh(g), history)
      ensures writebacks <= Evictions(Fresh(g), history) && Dirtyings(Fresh(g), history) <= writeAccesses
    {
      LinesAreConserved(Fresh(g), history);
    }

    /** A valid word stands for a line held, with its dirty bit. */
    lemma WordIsHeld(i: nat) returns (line: LineNo)
      requires Shaped() && Inv(level) && i < tags.Length && tags[i] >= 0x8000_0000_0000_0000
      ensures line == tags[i] as nat % 0x4000_0000_0000_0000 && line in Contents(level.slots)
      ensures Contents(level.slots)[line] <==> tags[i] >= 0xC000_0000_0000_0000
    {
      line := tags[i] as nat % 0x4000_0000_0000_0000;
      TagComparison(tags[i], line);
      WordOfLine(tags[i], line);
      HeldIsResident(level.slots, i);
    }

    /** The dirty bit of a valid word says whether its line was stored to since it was last fetched. */
    lemma DirtyBitIsHistory(i: nat)
      requires Valid() && i < tags.Length && tags[i] >= VALID
      ensures WithoutFlags(tags[i]) < LINE_LIMIT
      ensures var line: LineNo := WithoutFlags(tags[i]);
              HasDirty(tags[i]) <==> Since(Stored(g, history, line), Fetched(Fresh(g), history, line))
    {
      var line: LineNo := WithoutFlags(tags[i]);
      TagComparison(tags[i], line);
      HeldIsResident(level.slots, i);
      DirtyIffStoredSinceFetch(Fresh(g), history, line);
    }

    constructor (sets: nat, ways: nat, linesz: nat)
      requires IsPowerOfTwo(sets) && IsPowerOfTwo(linesz) && ways >= 1 && 4 <= linesz < TWO64
      ensures Valid() && fresh(Repr)
      ensures g == Geometry(sets, ways, linesz) && level == Fresh(g)
      ensures missHandler == null && history == [] && sent == []
      ensures reg == 1 && tags.Length == sets * ways && forall i :: 0 <= i < tags.Length ==> tags[i] == 0
      ensures readAccesses == readMisses == bytesRead == writeAccesses == writeMisses == bytesWritten == writebacks == 0
    {
      g := Geometry(sets, ways, linesz);
      var shift, x := 0, linesz;
      while x > 1
        invariant x >= 1 && IsPowerOfTwo(x) && x * Pow2(shift) == linesz
      {
        assert x / 2 * (2 * Pow2(shift)) == x * Pow2(shift);
        shift, x := shift + 1, x / 2;
      }
      idxShift := shift;
      TimesIs(sets, ways);
      var words := new Word[sets * ways](_ => 0);
      tags := words;
      reg := Lfsr.SEED;
      missHandler := null;
      readAccesses, readMisses, bytesRead := 0, 0, 0;
      writeAccesses, writeMisses, bytesWritten, writebacks := 0, 0, 0, 0;
      level := Fresh(Geometry(sets, ways, linesz));
      history, sent, depth := [], [], 0;
      Repr := {this, words};
      new;
      FreshIsEmpty(level);
    }

    method SetMissHandler(handler: Cache?)
      requires Valid()
      requires handler != null ==> handler.Valid() && this !in handler.Repr && tags !in handler.Repr
      modifies this`missHandler, this`Repr, this`depth
      ensures Valid() && missHandler == handler
      ensures Repr == old(Repr) + if handler == null then {} else handler.Repr
    {
      missHandler := handler;
      if handler != null {
        Link(handler);
      }
    }

    /** Takes the handler's objects into this one's. */
    ghost method Link(handler: Cache)
      requires this in Repr && tags in Repr && missHandler == handler
      requires handler.Valid() && this !in handler.Repr && tags !in handler.Repr
      modifies this`Repr, this`depth
      ensures this in Repr && tags in Repr && Linked() && Repr == old(Repr) + handler.Repr
    {
      Repr := Repr + handler.Repr;
      depth := handler.depth + 1;
      assert handler.Valid();
    }

    /** Where the set that `line` selects begins in the flat array. */
    method SetStart(line: LineNo) returns (first: nat)
      ensures first == FirstSlot(g, line)
    {
      first := line % g.sets * g.ways;
      TimesIs(line % g.sets, g.ways);
    }

    /** The slot holding the line of `addr`; None models the null pointer. */
    method CheckTag(addr: Word) returns (slot: Option<nat>)
      requires Shaped()
      ensures slot == Lookup(level, Line(g, addr))
    {
      var line := Line(g, addr);
      assert line == addr / Pow2(idxShift);
      var first := SetStart(line);
      var tag := WithValid(line);
      for i := 0 to g.ways
        invariant forall k :: first <= k < first + i ==> !Holds(level.slots[k], line)
      {
        TagComparison(tags[first + i], line);
        if tag == WithoutDirty(tags[first + i]) {
          FindsFirst(level.slots, line, first, first + g.ways, first + i);
          return Some(first + i);
        }
      }
      return None;
    }

    /** Steps the register, and takes the way it says in the set of `addr`. */
    method DrawWay(addr: Word) returns (i: nat)
      requires level.g == g && level.reg == reg
      modifies this`reg
      ensures reg == Lfsr.Next(old(reg)) && i == SetBase(g, addr) + reg as nat % g.ways
      ensures i == VictimSlot(level, Line(g, addr))
    {
      var line := Line(g, addr);
      TimesIs(line % g.sets, g.ways);
      reg := Lfsr.Next(reg);
      var first := SetStart(line);
      var way := reg as nat % g.ways;
      i := first + way;
    }

    /** Draws a way, installs the line of `addr` there and hands back the word it replaced. */
    method Victimize(addr: Word) returns (victim: Word)
      requires Shaped()
      modifies this`reg, this`level, tags
      ensures Shaped() && Decode(victim) == Victim(old(level), Line(g, addr))
      ensures level == Install(old(level), Line(g, addr), false)
      ensures tags[..] == old(tags[..])[VictimSlot(old(level), Line(g, addr)) := WithValid(Line(g, addr))]
      ensures reg == Lfsr.Next(old(reg))
      ensures var i := SetBase(g, addr) + reg as nat % g.ways;
              && i < tags.Length && victim == old(tags[..])[i]
              && tags[..] == old(tags[..])[i := addr / g.linesz + 0x8000_0000_0000_0000]
    {
      var line := Line(g, addr);
      assert line == addr / Pow2(idxShift);
      var i := DrawWay(addr);
      victim := tags[i];
      tags[i] := WithValid(line);
      TagComparison(victim, line);
      level := Install(level, line, false);
    }

    method MarkDirty(slot: nat, ghost line: LineNo)
      requires Shaped() && slot < tags.Length && Holds(level.slots[slot], line)
      modifies this`level, tags
      ensures Shaped() && level == Place(old(level), slot, line, true)
      ensures tags[..] == old(tags[..])[slot := WithDirty(old(tags[..])[slot])]
    {
      TagComparison(tags[slot], line);
      tags[slot] := WithDirty(tags[slot]);
      level := Place(level, slot, line, true);
    }

    /** The base address of the line a valid word holds. */
    method Rebuild(victim: Word) returns (addr: Word)
      requires victim >= VALID && Pow2(idxShift) == g.linesz
      ensures addr == Writeback(g, Decode(victim).line).addr
    {
      TagComparison(victim, 0);
      TimesIs(WithoutFlags(victim), Pow2(idxShift));
      addr := WithoutFlags(victim) * Pow2(idxShift) % TWO64;
    }

    method Align(addr: Word) returns (base: Word)
      ensures base == Fill(g, addr).addr
    {
      base := addr - addr % g.linesz;
    }

    method Send(addr: Word, store: bool)
      requires Linked()
      modifies HandlerRepr()
      decreases depth, 0
      ensures Linked() && HandlerRepr() == old(HandlerRepr()) && HandlerDepth() == old(HandlerDepth())
      ensures missHandler != null ==> missHandler.history == old(missHandler.history) + [Request(addr, g.linesz, store)]
    {
      if missHandler != null {
        missHandler.Access(addr, g.linesz, store);
      }
    }

    /** Sends the victim's write-back, if it is dirty, and then the fill to the handler. */
    method AskHandler(victim: Word, addr: Word)
      requires Linked() && Pow2(idxShift) == g.linesz
      modifies this`writebacks, HandlerRepr()
      decreases depth, 2
      ensures Linked() && HandlerRepr() == old(HandlerRepr()) && HandlerDepth() == old(HandlerDepth())
      ensures writebacks == old(writebacks) + if NeedsWriteback(Decode(victim)) then 1 else 0
      ensures missHandler != null ==>
                missHandler.history == old(missHandler.history) + Requests(g, Decode(victim), addr)
    {
      SendWriteback(victim);
      var base := Align(addr);
      Send(base, false);
    }

    method SendWriteback(victim: Word)
      requires Linked() && Pow2(idxShift) == g.linesz
      modifies this`writebacks, HandlerRepr()
      decreases depth, 1
      ensures Linked() && HandlerRepr() == old(HandlerRepr()) && HandlerDepth() == old(HandlerDepth())
      ensures writebacks == old(writebacks) + if NeedsWriteback(Decode(victim)) then 1 else 0
      ensures missHandler != null ==>
                var out := if NeedsWriteback(Decode(victim)) then [Writeback(g, Decode(victim).line)] else [];
                missHandler.history == old(missHandler.history) + out
    {
      TagComparison(victim, 0);
      if victim >= VALID && HasDirty(victim) {
        var dirtyAddr := Rebuild(victim);
        Send(dirtyAddr, true);
        writebacks := writebacks + 1;
      }
    }

    /** Brings in the line of `addr` in place of a victim; for a store, looks it up again to mark it. */
    method Fetch(addr: Word, store: bool)
      requires Linked() && Shaped() && Inv(level) && Lookup(level, Line(g, addr)).None?
      modifies this`reg, this`level, this`writebacks, tags, HandlerRepr()
      decreases depth, 3
      ensures Linked() && Shaped() && HandlerRepr() == old(HandlerRepr()) && HandlerDepth() == old(HandlerDepth())
      ensures level == Install(old(level), Line(g, addr), store)
      ensures tags[..] == WordsAfter(old(level), old(tags[..]), Line(g, addr), store)
      ensures writebacks == old(writebacks) + if NeedsWriteback(Victim(old(level), Line(g, addr))) then 1 else 0
      ensures missHandler != null ==>
                missHandler.history == old(missHandler.history) + Requests(g, Victim(old(level), Line(g, addr)), addr)
    {
      LineFits(g, addr);
      LookupAfterFill(level, Line(g, addr));
      var victim := Victimize(addr);
      AskHandler(victim, addr);
      if store {
        MarkAgain(addr, VictimSlot(old(level), Line(g, addr)));
      }
    }

    /** The second lookup of a missing store. */
    method MarkAgain(addr: Word, ghost slot: nat)
      requires Shaped() && Lookup(level, Line(g, addr)) == Some(slot)
      modifies this`level, tags
      ensures Shaped() && level == Place(old(level), slot, Line(g, addr), true)
      ensures tags[..] == old(tags[..])[slot := WithDirty(old(tags[..])[slot])]
    {
      var hitWay := CheckTag(addr);
      MarkDirty(hitWay.value, Line(g, addr));
    }

    method CountMiss(store: bool)
      modifies this`readMisses, this`writeMisses
      ensures readMisses == old(readMisses) + (if store then 0 else 1)
      ensures writeMisses == old(writeMisses) + (if store then 1 else 0)
    {
      if store {
        writeMisses := writeMisses + 1;
      } else {
        readMisses := readMisses + 1;
      }
    }

    ghost method LogSent(out: seq<Request>)
      requires WholeLines(g, sent) && WholeLines(g, out)
      requires readMisses + writeMisses == Sum(LoadsIn, sent) + Sum(LoadsIn, out)
      requires writebacks == Sum(StoresIn, sent) + Sum(StoresIn, out)
      modifies this`sent
      ensures CountsSent() && sent == old(sent) + out
    {
      SumAppend(LoadsIn, sent, out);
      SumAppend(StoresIn, sent, out);
      WholeLinesAppend(g, sent, out);
      sent := sent + out;
    }

    method CountAccess(bytes: nat, store: bool, ghost req: Request)
      requires CountsReceived() && req.bytes == bytes && req.store == store
      modifies this`readAccesses, this`bytesRead, this`writeAccesses, this`bytesWritten, this`history
      ensures CountsReceived() && history == old(history) + [req]
    {
      if store {
        writeAccesses, bytesWritten := writeAccesses + 1, bytesWritten + bytes;
      } else {
        readAccesses, bytesRead := readAccesses + 1, bytesRead + bytes;
      }
      ReceivedTotals(history, req);
      history := history + [req];
    }

    /** Looks the line up, brings it in if it is absent, and marks it if this is a store. */
    method Touch(addr: Word, store: bool, ghost req: Request, ghost out: seq<Request>)
      requires Linked() && Shaped() && Inv(level) && req.addr == addr && req.store == store && out == Step(level, req).1
      modifies this`reg, this`level, this`readMisses, this`writeMisses, this`writebacks, tags, HandlerRepr()
      decreases depth, 4
      ensures Linked() && Shaped() && HandlerRepr() == old(HandlerRepr()) && HandlerDepth() == old(HandlerDepth())
      ensures level == Step(old(level), req).0
      ensures tags[..] == WordsAfter(old(level), old(tags[..]), Line(g, addr), store)
      ensures var missed := if Misses(old(level), req) then 1 else 0;
              && readMisses == old(readMisses) + (if store then 0 else missed)
              && writeMisses == old(writeMisses) + (if store then missed else 0)
      ensures writebacks == old(writebacks) + if WritesBack(old(level), req) then 1 else 0
      ensures missHandler != null ==> missHandler.history == old(missHandler.history) + out
    {
      var hitWay := CheckTag(addr);
      if hitWay.None? {
        CountMiss(store);
        Fetch(addr, store);
      } else if store {
        MarkDirty(hitWay.value, Line(g, addr));
      }
    }

    /** The same, on the words. */
    method Respond(addr: Word, store: bool, ghost req: Request) returns (ghost out: seq<Request>)
      requires Linked() && Shaped() && Inv(level) && Counted() && req.addr == addr && req.store == store
      modifies this`reg, this`level, this`readMisses, this`writeMisses, this`writebacks, tags, HandlerRepr()
      decreases depth, 5
      ensures Linked() && Shaped()
      ensures HandlerRepr() == old(HandlerRepr()) && HandlerDepth() == old(HandlerDepth())
      ensures level == Step(old(level), req).0 && out == Step(old(level), req).1
      ensures tags[..] == WordsAfterAccess(g, old(Missed()), old(tags[..]), addr, store)
      ensures out == WordsSent(g, old(Missed()), old(tags[..]), addr) && WholeLines(g, out)
      ensures Sum(LoadsIn, out) == (if Misses(old(level), req) then 1 else 0)
      ensures Sum(StoresIn, out) == (if WritesBack(old(level), req) then 1 else 0)
      ensures readMisses == old(readMisses) + (if store then 0 else Sum(LoadsIn, out))
      ensures writeMisses == old(writeMisses) + (if store then Sum(LoadsIn, out) else 0)
      ensures writebacks == old(writebacks) + Sum(StoresIn, out)
      ensures missHandler != null ==> missHandler.history == old(missHandler.history) + out
    {
      out := Predicted(g, level, tags[..], Missed(), req);
      Touch(addr, store, req, out);
    }

    /** Touches the line and keeps the miss and write-back totals. */
    method Serve(addr: Word, store: bool, ghost req: Request) returns (ghost out: seq<Request>)
      requires Linked() && Shaped() && Inv(level) && Counted() && CountsSent() && req.addr == addr && req.store == store
      modifies this`reg, this`level, this`readMisses, this`writeMisses, this`writebacks, this`sent, tags, HandlerRepr()
      decreases depth, 6
      ensures Linked() && Shaped() && CountsSent() && sent == old(sent) + out
      ensures HandlerRepr() == old(HandlerRepr()) && HandlerDepth() == old(HandlerDepth())
      ensures level == Step(old(level), req).0 && out == Step(old(level), req).1
      ensures tags[..] == WordsAfterAccess(g, old(Missed()), old(tags[..]), addr, store)
      ensures out == WordsSent(g, old(Missed()), old(tags[..]), addr)
      ensures var missed := if Misses(old(level), req) then 1 else 0;
              && readMisses == old(readMisses) + (if store then 0 else missed)
              && writeMisses == old(writeMisses) + (if store then missed else 0)
      ensures writebacks == old(writebacks) + if WritesBack(old(level), req) then 1 else 0
      ensures missHandler != null ==> missHandler.history == old(missHandler.history) + out
    {
      out := Respond(addr, store, req);
      LogSent(out);
    }

    /** The body of an access: count it, then do it. */
    method Perform(addr: Word, bytes: nat, store: bool, ghost req: Request) returns (ghost out: seq<Request>)
      requires Linked() && Shaped() && Inv(level) && Counted() && CountsReceived() && CountsSent()
      requires req == Request(addr, bytes, store)
      modifies this`readAccesses, this`bytesRead, this`writeAccesses, this`bytesWritten, this`history, this`sent
      modifies this`reg, this`level, this`readMisses, this`writeMisses, this`writebacks, tags, HandlerRepr()
      decreases depth, 7
      ensures Linked() && Shaped() && CountsReceived() && CountsSent()
      ensures HandlerRepr() == old(HandlerRepr()) && HandlerDepth() == old(HandlerDepth())
      ensures tags[..] == WordsAfterAccess(g, old(Missed()), old(tags[..]), addr, store)
      ensures out == WordsSent(g, old(Missed()), old(tags[..]), addr)
      ensures level == Step(old(level), req).0 && out == Step(old(level), req).1
      ensures history == old(history) + [req] && sent == old(sent) + out
      ensures var missed := if Misses(old(level), req) then 1 else 0;
              && readMisses == old(readMisses) + (if store then 0 else missed)
              && writeMisses == old(writeMisses) + (if store then missed else 0)
      ensures writebacks == old(writebacks) + if WritesBack(old(level), req) then 1 else 0
      ensures missHandler != null ==> missHandler.history == old(missHandler.history) + out
    {
      CountAccess(bytes, store, req);
      out := Serve(addr, store, req);
    }

    /** That keeps the object where its history leads. */
    method Proceed(addr: Word, bytes: nat, store: bool) returns (ghost out: seq<Request>)
      requires Linked() && Consistent()
      modifies this`readAccesses, this`bytesRead, this`writeAccesses, this`bytesWritten, this`history, this`sent
      modifies this`reg, this`level, this`readMisses, this`writeMisses, this`writebacks, tags, HandlerRepr()
      decreases depth, 8
      ensures Linked() && Consistent()
      ensures HandlerRepr() == old(HandlerRepr()) && HandlerDepth() == old(HandlerDepth())
      ensures tags[..] == WordsAfterAccess(g, old(Missed()), old(tags[..]), addr, store)
      ensures out == WordsSent(g, old(Missed()), old(tags[..]), addr)
      ensures var req := Request(addr, bytes, store);
              && level == Step(old(level), req).0 && out == Step(old(level), req).1
              && history == old(history) + [req] && sent == old(sent) + out
      ensures var missed := if Misses(old(level), Request(addr, bytes, store)) then 1 else 0;
              && readMisses == old(readMisses) + (if store then 0 else missed)
              && writeMisses == old(writeMisses) + (if store then missed else 0)
      ensures readAccesses == old(readAccesses) + (if store then 0 else 1)
      ensures writeAccesses == old(writeAccesses) + (if store then 1 else 0)
      ensures bytesRead == old(bytesRead) + (if store then 0 else bytes)
      ensures bytesWritten == old(bytesWritten) + (if store then bytes else 0)
      ensures writebacks == old(writebacks) + if WritesBack(old(level), Request(addr, bytes, store)) then 1 else 0
      ensures missHandler != null ==> missHandler.history == old(missHandler.history) + out
    {
      ghost var req := Request(addr, bytes, store);
      NextOfRun(req);
      RegisterIsMissCount();
      ReceivedTotals(history, req);
      out := Perform(addr, bytes, store, req);
    }

    /** One access. `Step` gives the new level and what is sent on, and the words say it again without
        it. The handler has then received exactly that, and being valid it is where that leads it. */
    method Access(addr: Word, bytes: nat, store: bool)
      requires Valid()
      modifies Repr
      decreases depth, 9
      ensures Valid() && Repr == old(Repr) && depth == old(depth) && tags == old(tags)
              && missHandler == old(missHandler)
      ensures HandlerRepr() == old(HandlerRepr()) && HandlerDepth() == old(HandlerDepth())
      ensures var req := Request(addr, bytes, store);
              && level == Step(old(level), req).0
              && history == old(history) + [req]
              && sent == old(sent) + Step(old(level), req).1
      ensures var out := Step(old(level), Request(addr, bytes, store)).1;
              && out == WordsSent(g, old(Missed()), old(tags[..]), addr)
              && (missHandler != null ==> missHandler.history == old(missHandler.history) + out)
      ensures tags[..] == WordsAfterAccess(g, old(Missed()), old(tags[..]), addr, store)
      ensures var missed := if Misses(old(level), Request(addr, bytes, store)) then 1 else 0;
              && readMisses == old(readMisses) + (if store then 0 else missed)
              && writeMisses == old(writeMisses) + (if store then missed else 0)
      ensures readAccesses == old(readAccesses) + (if store then 0 else 1)
      ensures writeAccesses == old(writeAccesses) + (if store then 1 else 0)
      ensures bytesRead == old(bytesRead) + (if store then 0 else bytes)
      ensures bytesWritten == old(bytesWritten) + (if store then bytes else 0)
      ensures writebacks == old(writebacks) + if WritesBack(old(level), Request(addr, bytes, store)) then 1 else 0
      ensures old(FeedsAlone()) ==> FeedsAlone()
    {
      ghost var out := Proceed(addr, bytes, store);
    }
  }
}
