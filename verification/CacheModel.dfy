/** One cache level as a value: the slots in set order and the victim register. */
module CacheModel {
  import opened Arith
  import opened Transducer
  import Lfsr

  const TWO64: nat := 0x1_0000_0000_0000_0000

  /** Line numbers stay below bit 62, where the packed tag words keep their flags. */
  const LINE_LIMIT: nat := 0x4000_0000_0000_0000

  type Word = w: nat | w < TWO64
  type LineNo = n: nat | n < LINE_LIMIT

  datatype Slot = Empty | Held(line: LineNo, dirty: bool)

  datatype Option<T> = None | Some(value: T)

  predicate IsPowerOfTwo(n: nat) { n == 1 || (n > 1 && n % 2 == 0 && IsPowerOfTwo(n / 2)) }

  datatype GeometryShape = Geometry(sets: nat, ways: nat, linesz: nat)

  /** With lines of at least four bytes a line number never reaches bit 62. */
  type Geometry = g: GeometryShape | g.sets >= 1 && g.ways >= 1 && 4 <= g.linesz < TWO64 witness Geometry(1, 1, 4)

  lemma LineFits(g: Geometry, addr: Word)
    ensures addr / g.linesz < LINE_LIMIT
    ensures Times(addr / g.linesz, g.linesz) == addr - addr % g.linesz < TWO64
  {
    TimesIs(addr / g.linesz, g.linesz);
    DivBounds(addr, g.linesz);
    var line := addr / g.linesz;
    MulLe(4, g.linesz, line);
  }

  function Line(g: Geometry, addr: Word): LineNo {
    LineFits(g, addr);
    addr / g.linesz
  }

  datatype Request = Request(addr: Word, bytes: nat, store: bool)

  datatype LevelShape = Level(g: Geometry, slots: seq<Slot>, reg: bv32)

  function SlotCount(g: Geometry): nat { Times(g.sets, g.ways) }

  type Level = l: LevelShape | |l.slots| == SlotCount(l.g) witness Level(Geometry(1, 1, 4), [Empty], Lfsr.SEED)

  /** A level as the constructor leaves it. */
  ghost predicate IsFresh(l: Level) {
    (forall s :: 0 <= s < |l.slots| ==> l.slots[s] == Empty) && l.reg == Lfsr.SEED
  }

  function Fresh(g: Geometry): Level { Level(g, seq(SlotCount(g), _ => Empty), Lfsr.SEED) }

  /** First slot of the set that `line` selects. */
  function FirstSlot(g: Geometry, line: LineNo): (s: nat)
    ensures s + g.ways <= SlotCount(g)
  {
    TimesLe(line % g.sets, g.sets, g.ways);
    Times(line % g.sets, g.ways)
  }

  predicate InSetOf(g: Geometry, line: LineNo, s: nat) {
    FirstSlot(g, line) <= s < FirstSlot(g, line) + g.ways
  }

  /** A slot belongs to one set only. */
  lemma SameSet(g: Geometry, line: LineNo, other: LineNo, s: nat)
    requires InSetOf(g, line, s) && InSetOf(g, other, s)
    ensures line % g.sets == other % g.sets
  {
    if line % g.sets < other % g.sets {
      TimesLe(line % g.sets, other % g.sets, g.ways);
    } else if other % g.sets < line % g.sets {
      TimesLe(other % g.sets, line % g.sets, g.ways);
    }
  }

  predicate Holds(slot: Slot, line: LineNo) { slot.Held? && slot.line == line }

  /** First position in [lo, hi) holding `line`. */
  function Find(slots: seq<Slot>, line: LineNo, lo: nat, hi: nat): (r: Option<nat>)
    requires lo <= hi <= |slots|
    ensures r.Some? ==> lo <= r.value < hi && Holds(slots[r.value], line)
    ensures r.None? ==> forall s :: lo <= s < hi ==> !Holds(slots[s], line)
    decreases hi - lo
  {
    if lo == hi then None
    else if Holds(slots[lo], line) then Some(lo)
    else Find(slots, line, lo + 1, hi)
  }

  lemma {:induction false} FindsFirst(slots: seq<Slot>, line: LineNo, lo: nat, hi: nat, s: nat)
    requires lo <= s < hi <= |slots| && Holds(slots[s], line)
    requires forall k :: lo <= k < s ==> !Holds(slots[k], line)
    ensures Find(slots, line, lo, hi) == Some(s)
    decreases hi - lo
  {
    if lo < s {
      FindsFirst(slots, line, lo + 1, hi, s);
    }
  }

  function Lookup(l: Level, line: LineNo): (r: Option<nat>)
    ensures r.Some? ==> r.value < |l.slots| && Holds(l.slots[r.value], line)
  {
    var first := FirstSlot(l.g, line);
    Find(l.slots, line, first, first + l.g.ways)
  }

  function VictimSlot(l: Level, line: LineNo): (s: nat)
    ensures s < |l.slots| && InSetOf(l.g, line, s)
  {
    FirstSlot(l.g, line) + Lfsr.Next(l.reg) as nat % l.g.ways
  }

  function BaseAddress(g: Geometry, line: LineNo): nat { Times(line, g.linesz) }

  function Writeback(g: Geometry, line: LineNo): Request {
    Request(BaseAddress(g, line) % TWO64, g.linesz, true)
  }

  function Fill(g: Geometry, addr: Word): Request {
    Request(addr - addr % g.linesz, g.linesz, false)
  }

  predicate NeedsWriteback(slot: Slot) { slot.Held? && slot.dirty }

  function Place(l: Level, s: nat, line: LineNo, store: bool): Level
    requires s < |l.slots|
  {
    l.(slots := l.slots[s := Held(line, store)])
  }

  /** What a miss asks of the handler: the victim's write-back, if it is dirty, then the fill. */
  function Requests(g: Geometry, victim: Slot, addr: Word): seq<Request> {
    (if NeedsWriteback(victim) then [Writeback(g, victim.line)] else []) + [Fill(g, addr)]
  }

  /** The level after a miss on `line`. */
  function Install(l: Level, line: LineNo, store: bool): Level {
    Place(l, VictimSlot(l, line), line, store).(reg := Lfsr.Next(l.reg))
  }

  function Victim(l: Level, line: LineNo): Slot { l.slots[VictimSlot(l, line)] }

  /** One access: the new level and the requests it sends to its miss handler, in order. */
  function Step(l: Level, req: Request): (Level, seq<Request>) {
    var line := Line(l.g, req.addr);
    match Lookup(l, line)
    case Some(s) => (if req.store then Place(l, s, line, true) else l, [])
    case None => (Install(l, line, req.store), Requests(l.g, Victim(l, line), req.addr))
  }

  /** A whole run: the final level and everything it asked of its handler. */
  function Run(l: Level, reqs: seq<Request>): (Level, seq<Request>) { Feed(Step, l, reqs) }
}
