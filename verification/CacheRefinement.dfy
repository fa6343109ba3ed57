/** The slots of a level stand for a finite map from resident line to dirty bit,
    and every access is one of three moves on that map. */
module CacheRefinement {
  import opened CacheModel

  /** A held line sits in the set it selects, and its base address fits in 64 bits. */
  ghost predicate SlotOk(g: Geometry, s: nat, slot: Slot) {
    slot.Held? ==> InSetOf(g, slot.line, s) && BaseAddress(g, slot.line) < TWO64
  }

  ghost predicate NoLineTwice(slots: seq<Slot>) {
    forall s: nat, t: nat :: s < t < |slots| && slots[s].Held? && slots[t].Held? ==> slots[s].line != slots[t].line
  }

  ghost predicate Inv(l: Level) {
    (forall s: nat :: s < |l.slots| ==> SlotOk(l.g, s, l.slots[s])) && NoLineTwice(l.slots)
  }

  ghost function Lines(slots: seq<Slot>): set<LineNo> {
    set s: nat | s < |slots| && slots[s].Held? :: slots[s].line
  }

  ghost function Contents(slots: seq<Slot>): map<LineNo, bool> {
    map line | line in Lines(slots) :: Held(line, true) in slots
  }

  lemma HeldIsResident(slots: seq<Slot>, s: nat)
    requires NoLineTwice(slots) && s < |slots| && slots[s].Held?
    ensures slots[s].line in Contents(slots) && Contents(slots)[slots[s].line] == slots[s].dirty
  {
    assert slots[s].line in Lines(slots);
  }

  lemma ResidentIsHeld(slots: seq<Slot>, line: LineNo) returns (s: nat)
    requires NoLineTwice(slots) && line in Contents(slots)
    ensures s < |slots| && slots[s] == Held(line, Contents(slots)[line])
  {
    s :| s < |slots| && slots[s].Held? && slots[s].line == line;
    HeldIsResident(slots, s);
  }

  lemma ReplaceKeepsNoLineTwice(slots: seq<Slot>, s: nat, line: LineNo, dirty: bool)
    requires NoLineTwice(slots) && s < |slots|
    requires line !in Contents(slots) || Holds(slots[s], line)
    ensures NoLineTwice(slots[s := Held(line, dirty)])
  {
    forall t: nat | t < |slots| && t != s && slots[t].Held? ensures slots[t].line != line {
      HeldIsResident(slots, t);
    }
  }

  /** Overwriting one slot, seen on the map. */
  lemma ReplaceSlot(slots: seq<Slot>, s: nat, line: LineNo, dirty: bool)
    requires NoLineTwice(slots) && s < |slots|
    requires line !in Contents(slots) || Holds(slots[s], line)
    ensures var slots' := slots[s := Held(line, dirty)];
            var kept := if slots[s].Held? then Contents(slots) - {slots[s].line} else Contents(slots);
            NoLineTwice(slots') && Contents(slots') == kept[line := dirty]
  {
    ReplaceKeepsNoLineTwice(slots, s, line, dirty);
    var slots' := slots[s := Held(line, dirty)];
    var m, m' := Contents(slots), Contents(slots');
    var kept := if slots[s].Held? then m - {slots[s].line} else m;
    HeldIsResident(slots', s);
    forall k | k in m' && k != line ensures k in kept && kept[k] == m'[k] {
      var t := ResidentIsHeld(slots', k);
      HeldIsResident(slots, t);
    }
    forall k | k in kept && k != line ensures k in m' {
      var t := ResidentIsHeld(slots, k);
      HeldIsResident(slots', t);
    }
  }

  /** `check_tag` finds a line exactly when the map holds it. */
  lemma LookupIsMembership(l: Level, line: LineNo)
    requires Inv(l)
    ensures Lookup(l, line).Some? <==> line in Contents(l.slots)
    ensures Lookup(l, line).Some? ==> l.slots[Lookup(l, line).value].dirty == Contents(l.slots)[line]
  {
    var r := Lookup(l, line);
    if line in Contents(l.slots) {
      var s := ResidentIsHeld(l.slots, line);
      assert SlotOk(l.g, s, l.slots[s]);
    }
    if r.Some? {
      HeldIsResident(l.slots, r.value);
    }
  }

  lemma FreshIsEmpty(l: Level)
    requires IsFresh(l)
    ensures Inv(l) && Contents(l.slots) == map[]
  {
    assert Lines(l.slots) == {};
  }

  // The moves on the map. A miss drops at most one line, which shares the new line's set,
  // and writes it back exactly when it was dirty.

  ghost predicate Hit(g: Geometry, m: map<LineNo, bool>, req: Request, m': map<LineNo, bool>, out: seq<Request>) {
    var line := Line(g, req.addr);
    line in m && m' == (if req.store then m[line := true] else m) && out == []
  }

  ghost predicate FillFree(g: Geometry, m: map<LineNo, bool>, req: Request, m': map<LineNo, bool>, out: seq<Request>) {
    var line := Line(g, req.addr);
    line !in m && m' == m[line := req.store] && out == [Fill(g, req.addr)]
  }

  ghost predicate FillEvicting(g: Geometry, m: map<LineNo, bool>, req: Request, m': map<LineNo, bool>,
                               out: seq<Request>, victim: LineNo)
  {
    var line := Line(g, req.addr);
    && line !in m && victim in m && victim % g.sets == line % g.sets
    && m' == (m - {victim})[line := req.store]
    && out == (if m[victim] then [Writeback(g, victim)] else []) + [Fill(g, req.addr)]
  }

  ghost predicate MapStep(g: Geometry, m: map<LineNo, bool>, req: Request, m': map<LineNo, bool>, out: seq<Request>) {
    Hit(g, m, req, m', out) || FillFree(g, m, req, m', out) ||
    exists victim: LineNo :: FillEvicting(g, m, req, m', out, victim)
  }

  /** Every access keeps the invariant and is a move on the map. */
  lemma StepRefinesMap(l: Level, req: Request)
    ensures Inv(l) ==> Inv(Step(l, req).0)
    ensures Inv(l) ==> MapStep(l.g, Contents(l.slots), req, Contents(Step(l, req).0.slots), Step(l, req).1)
    ensures Step(l, req).0.g == l.g
  {
    if Inv(l) {
      var line := Line(l.g, req.addr);
      var (l', out) := Step(l, req);
      LineFits(l.g, req.addr);
      LookupIsMembership(l, line);
      if line in Contents(l.slots) {
        var s := Lookup(l, line).value;
        assert SlotOk(l.g, s, l.slots[s]);
        ReplaceSlot(l.slots, s, line, true);
        assert (Contents(l.slots) - {line})[line := true] == Contents(l.slots)[line := true];
        assert Hit(l.g, Contents(l.slots), req, Contents(l'.slots), out);
      } else {
        var s := VictimSlot(l, line);
        ReplaceSlot(l.slots, s, line, req.store);
        if l.slots[s].Held? {
          HeldIsResident(l.slots, s);
          assert SlotOk(l.g, s, l.slots[s]);
          SameSet(l.g, l.slots[s].line, line, s);
          assert FillEvicting(l.g, Contents(l.slots), req, Contents(l'.slots), out, l.slots[s].line);
        } else {
          assert FillFree(l.g, Contents(l.slots), req, Contents(l'.slots), out);
        }
      }
    }
  }

  lemma {:induction false} RunKeepsInv(l: Level, reqs: seq<Request>)
    requires Inv(l)
    ensures Inv(Run(l, reqs).0) && Run(l, reqs).0.g == l.g
    decreases |reqs|
  {
    if reqs != [] {
      RunKeepsInv(l, reqs[..|reqs| - 1]);
      StepRefinesMap(Run(l, reqs[..|reqs| - 1]).0, reqs[|reqs| - 1]);
    }
  }
}
