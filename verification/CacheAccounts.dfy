/** What the statistics of a level say about its history. */
module CacheAccounts {
  import opened Arith
  import opened CacheModel
  import opened CacheRefinement
  import opened Transducer
  import Lfsr

  // ----- Dirty means stored to since the last fill

  /** The access fetches `line` from the handler. */
  ghost predicate Fetches(l: Level, req: Request, line: LineNo) {
    exists r :: r in Step(l, req).1 && !r.store && Line(l.g, r.addr) == line
  }

  /** Which steps of a run fetched `line`, and which were stores to it. */
  ghost function Fetched(l: Level, reqs: seq<Request>, line: LineNo): seq<bool>
    decreases |reqs|
  {
    if reqs == [] then []
    else
      var init := reqs[..|reqs| - 1];
      Fetched(l, init, line) + [Fetches(Run(l, init).0, reqs[|reqs| - 1], line)]
  }

  ghost function Stored(g: Geometry, reqs: seq<Request>, line: LineNo): seq<bool>
    decreases |reqs|
  {
    if reqs == [] then []
    else
      var last := reqs[|reqs| - 1];
      Stored(g, reqs[..|reqs| - 1], line) + [last.store && Line(g, last.addr) == line]
  }

  /** Some store, and no fetch after it. */
  ghost predicate Since(stores: seq<bool>, fetches: seq<bool>) {
    exists k :: 0 <= k < |stores| && stores[k] && forall j :: k < j < |fetches| ==> !fetches[j]
  }

  lemma SinceLast(stores: seq<bool>, fetches: seq<bool>, stored: bool, fetched: bool)
    requires |stores| == |fetches|
    ensures Since(stores + [stored], fetches + [fetched]) <==> stored || (Since(stores, fetches) && !fetched)
  {
    var stores', fetches' := stores + [stored], fetches + [fetched];
    if stored {
      assert stores'[|stores|];
    }
    if Since(stores, fetches) && !fetched {
      var k :| 0 <= k < |stores| && stores[k] && forall j :: k < j < |fetches| ==> !fetches[j];
      assert stores'[k];
    }
    if Since(stores', fetches') && !stored {
      var k :| 0 <= k < |stores'| && stores'[k] && forall j :: k < j < |fetches'| ==> !fetches'[j];
      assert stores[k] && !fetches'[|stores|];
      assert forall j :: k < j < |fetches| ==> fetches[j] == fetches'[j];
    }
  }

  lemma FillAddress(g: Geometry, addr: Word)
    ensures Line(g, Fill(g, addr).addr) == Line(g, addr)
  {
    DivBounds(addr, g.linesz);
    DivIs(addr - addr % g.linesz, g.linesz, addr / g.linesz);
  }

  /** An access fetches its own line, and only on a miss. */
  lemma FetchesOnlyOwnLine(l: Level, req: Request, line: LineNo)
    requires Inv(l)
    ensures Fetches(l, req, line) <==> line == Line(l.g, req.addr) && line !in Contents(l.slots)
  {
    StepRefinesMap(l, req);
    FillAddress(l.g, req.addr);
    var out := Step(l, req).1;
    var fill := Fill(l.g, req.addr);
    if Line(l.g, req.addr) !in Contents(l.slots) {
      assert out[|out| - 1] == fill;
      assert forall r :: r in out ==> r.store || r == fill;
    }
  }

  /** Over every run from an empty cache, a resident line is dirty exactly when it was stored to
      since it was last fetched. */
  lemma {:induction false} DirtyIffStoredSinceFetch(l: Level, reqs: seq<Request>, line: LineNo)
    requires IsFresh(l)
    ensures var m := Contents(Run(l, reqs).0.slots);
            && |Stored(l.g, reqs, line)| == |Fetched(l, reqs, line)| == |reqs|
            && (line in m ==> (m[line] <==> Since(Stored(l.g, reqs, line), Fetched(l, reqs, line))))
    decreases |reqs|
  {
    FreshIsEmpty(l);
    if reqs != [] {
      var init, last := reqs[..|reqs| - 1], reqs[|reqs| - 1];
      assert reqs == init + [last];
      DirtyIffStoredSinceFetch(l, init, line);
      RunKeepsInv(l, init);
      FeedLast(Step, l, init, last);
      var before := Run(l, init).0;
      SinceLast(Stored(l.g, init, line), Fetched(l, init, line),
                last.store && Line(l.g, last.addr) == line, Fetches(before, last, line));
      FetchesOnlyOwnLine(before, last, line);
      StepRefinesMap(before, last);
    }
  }

  // ----- Totals over requests

  function LoadsIn(r: Request): nat { if r.store then 0 else 1 }

  function StoresIn(r: Request): nat { if r.store then 1 else 0 }

  function BytesLoadedBy(r: Request): nat { if r.store then 0 else r.bytes }

  function BytesStoredBy(r: Request): nat { if r.store then r.bytes else 0 }

  function Sum(f: Request -> nat, reqs: seq<Request>): nat {
    if reqs == [] then 0 else f(reqs[0]) + Sum(f, reqs[1..])
  }

  lemma {:induction false} SumAppend(f: Request -> nat, xs: seq<Request>, ys: seq<Request>)
    ensures Sum(f, xs + ys) == Sum(f, xs) + Sum(f, ys)
  {
    if xs == [] {
      assert xs + ys == ys;
    } else {
      assert (xs + ys)[1..] == xs[1..] + ys;
      SumAppend(f, xs[1..], ys);
    }
  }

  lemma SumOne(f: Request -> nat, r: Request)
    ensures Sum(f, [r]) == f(r)
  {
  }

  /** A level exchanges whole lines with its handler. */
  ghost predicate WholeLines(g: Geometry, out: seq<Request>) {
    out == [] || (out[0].bytes == g.linesz && WholeLines(g, out[1..]))
  }

  lemma {:induction false} WholeLinesAppend(g: Geometry, xs: seq<Request>, ys: seq<Request>)
    requires WholeLines(g, xs) && WholeLines(g, ys)
    ensures WholeLines(g, xs + ys)
  {
    if xs == [] {
      assert xs + ys == ys;
    } else {
      assert (xs + ys)[1..] == xs[1..] + ys;
      WholeLinesAppend(g, xs[1..], ys);
    }
  }

  lemma {:induction false} WholeLinesBytes(g: Geometry, out: seq<Request>)
    requires WholeLines(g, out)
    ensures Sum(BytesLoadedBy, out) == g.linesz * Sum(LoadsIn, out)
    ensures Sum(BytesStoredBy, out) == g.linesz * Sum(StoresIn, out)
  {
    if out != [] {
      WholeLinesBytes(g, out[1..]);
      MulSucc(g.linesz, Sum(LoadsIn, out[1..]));
      MulSucc(g.linesz, Sum(StoresIn, out[1..]));
    }
  }

  // ----- Lines and dirty lines are conserved

  function CountHeld(slots: seq<Slot>): nat {
    if slots == [] then 0 else CountHeld(slots[1..]) + if slots[0].Held? then 1 else 0
  }

  function CountDirty(slots: seq<Slot>): nat {
    if slots == [] then 0 else CountDirty(slots[1..]) + if NeedsWriteback(slots[0]) then 1 else 0
  }

  lemma {:induction false} CountAfterReplace(slots: seq<Slot>, s: nat, slot: Slot)
    requires s < |slots| && slot.Held?
    ensures CountHeld(slots[s := slot]) + (if slots[s].Held? then 1 else 0) == CountHeld(slots) + 1
    ensures CountDirty(slots[s := slot]) + (if NeedsWriteback(slots[s]) then 1 else 0)
            == CountDirty(slots) + if slot.dirty then 1 else 0
  {
    if s == 0 {
      assert slots[s := slot][1..] == slots[1..];
    } else {
      assert slots[s := slot][1..] == slots[1..][s - 1 := slot];
      CountAfterReplace(slots[1..], s - 1, slot);
    }
  }

  lemma {:induction false} CountEmpty(slots: seq<Slot>)
    requires forall s :: 0 <= s < |slots| ==> slots[s] == Empty
    ensures CountHeld(slots) == 0 && CountDirty(slots) == 0
  {
    if slots != [] {
      CountEmpty(slots[1..]);
    }
  }

  /** This access throws a resident line out. */
  predicate Evicts(l: Level, req: Request) {
    var line := Line(l.g, req.addr);
    Lookup(l, line).None? && l.slots[VictimSlot(l, line)].Held?
  }

  /** This access turns a clean or absent line dirty. */
  predicate Dirties(l: Level, req: Request) {
    var r := Lookup(l, Line(l.g, req.addr));
    req.store && (r.None? || !l.slots[r.value].dirty)
  }

  function Evictions(l: Level, reqs: seq<Request>): nat
    decreases |reqs|
  {
    if reqs == [] then 0
    else
      var init := reqs[..|reqs| - 1];
      Evictions(l, init) + if Evicts(Run(l, init).0, reqs[|reqs| - 1]) then 1 else 0
  }

  function Dirtyings(l: Level, reqs: seq<Request>): nat
    decreases |reqs|
  {
    if reqs == [] then 0
    else
      var init := reqs[..|reqs| - 1];
      Dirtyings(l, init) + if Dirties(Run(l, init).0, reqs[|reqs| - 1]) then 1 else 0
  }

  predicate Misses(l: Level, req: Request) { Lookup(l, Line(l.g, req.addr)).None? }

  predicate WritesBack(l: Level, req: Request) {
    Misses(l, req) && NeedsWriteback(l.slots[VictimSlot(l, Line(l.g, req.addr))])
  }

  /** What one access sends to the handler. */
  lemma OutputOfStep(l: Level, req: Request)
    ensures Sum(LoadsIn, Step(l, req).1) == (if Misses(l, req) then 1 else 0)
    ensures Sum(StoresIn, Step(l, req).1) == (if WritesBack(l, req) then 1 else 0)
    ensures WholeLines(l.g, Step(l, req).1)
  {
    var out := Step(l, req).1;
    var fill := Fill(l.g, req.addr);
    SumOne(LoadsIn, fill);
    SumOne(StoresIn, fill);
    if |out| == 1 {
      assert out == [fill];
    } else if |out| == 2 {
      var wb := out[0];
      assert out == [wb] + [fill] && wb.store;
      SumOne(LoadsIn, wb);
      SumOne(StoresIn, wb);
      SumAppend(LoadsIn, [wb], [fill]);
      SumAppend(StoresIn, [wb], [fill]);
    }
  }

  lemma ReceivedTotals(reqs: seq<Request>, req: Request)
    ensures Sum(LoadsIn, reqs + [req]) == Sum(LoadsIn, reqs) + LoadsIn(req)
    ensures Sum(StoresIn, reqs + [req]) == Sum(StoresIn, reqs) + StoresIn(req)
    ensures Sum(BytesLoadedBy, reqs + [req]) == Sum(BytesLoadedBy, reqs) + BytesLoadedBy(req)
    ensures Sum(BytesStoredBy, reqs + [req]) == Sum(BytesStoredBy, reqs) + BytesStoredBy(req)
  {
    SumAppend(LoadsIn, reqs, [req]);
    SumAppend(StoresIn, reqs, [req]);
    SumAppend(BytesLoadedBy, reqs, [req]);
    SumAppend(BytesStoredBy, reqs, [req]);
    SumOne(LoadsIn, req);
    SumOne(StoresIn, req);
    SumOne(BytesLoadedBy, req);
    SumOne(BytesStoredBy, req);
  }

  lemma StepConserves(l: Level, req: Request)
    ensures var (l', out) := Step(l, req);
            CountHeld(l'.slots) + (if Evicts(l, req) then 1 else 0) == CountHeld(l.slots) + Sum(LoadsIn, out)
    ensures var (l', out) := Step(l, req);
            CountDirty(l'.slots) + Sum(StoresIn, out) == CountDirty(l.slots) + (if Dirties(l, req) then 1 else 0)
    ensures Sum(StoresIn, Step(l, req).1) <= (if Evicts(l, req) then 1 else 0)
  {
    var line := Line(l.g, req.addr);
    OutputOfStep(l, req);
    match Lookup(l, line)
    case Some(s) =>
      CountAfterReplace(l.slots, s, Held(line, true));
    case None =>
      CountAfterReplace(l.slots, VictimSlot(l, line), Held(line, req.store));
  }

  /** Every line fetched is still resident or was evicted; every line made dirty is still dirty
      or was written back. */
  lemma {:induction false} LinesAreConserved(l: Level, reqs: seq<Request>)
    requires IsFresh(l)
    ensures var (l', out) := Run(l, reqs);
            && CountHeld(l'.slots) + Evictions(l, reqs) == Sum(LoadsIn, out)
            && CountDirty(l'.slots) + Sum(StoresIn, out) == Dirtyings(l, reqs)
            && Sum(StoresIn, out) <= Evictions(l, reqs)
            && Dirtyings(l, reqs) <= Sum(StoresIn, reqs)
    decreases |reqs|
  {
    if reqs == [] {
      CountEmpty(l.slots);
    } else {
      var init, last := reqs[..|reqs| - 1], reqs[|reqs| - 1];
      assert reqs == init + [last];
      LinesAreConserved(l, init);
      var (l1, out1) := Run(l, init);
      StepConserves(l1, last);
      FeedLast(Step, l, init, last);
      SumAppend(LoadsIn, out1, Step(l1, last).1);
      SumAppend(StoresIn, out1, Step(l1, last).1);
      SumAppend(StoresIn, init, [last]);
    }
  }

  /** Every miss steps the register, and nothing else does. */
  lemma StepRegister(l: Level, req: Request)
    ensures Step(l, req).0.reg == Lfsr.Iterate(Sum(LoadsIn, Step(l, req).1), l.reg)
  {
    OutputOfStep(l, req);
    assert Lfsr.Iterate(1, l.reg) == Lfsr.Next(Lfsr.Iterate(0, l.reg));
  }

  lemma {:induction false} RegisterCountsMisses(l: Level, reqs: seq<Request>)
    ensures Run(l, reqs).0.reg == Lfsr.Iterate(Sum(LoadsIn, Run(l, reqs).1), l.reg)
    decreases |reqs|
  {
    if reqs != [] {
      var init, last := reqs[..|reqs| - 1], reqs[|reqs| - 1];
      assert reqs == init + [last];
      RegisterCountsMisses(l, init);
      var l1, out1 := Run(l, init).0, Run(l, init).1;
      FeedLast(Step, l, init, last);
      StepRegister(l1, last);
      SumAppend(LoadsIn, out1, Step(l1, last).1);
      IterateMore(Sum(LoadsIn, out1), Sum(LoadsIn, Step(l1, last).1), l.reg);
    }
  }

  lemma {:induction false} IterateMore(m: nat, n: nat, reg: bv32)
    ensures Lfsr.Iterate(n, Lfsr.Iterate(m, reg)) == Lfsr.Iterate(m + n, reg)
  {
    if n > 0 {
      IterateMore(m, n - 1, reg);
    }
  }
}
