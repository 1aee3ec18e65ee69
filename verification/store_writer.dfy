/** The writer's steps keep the invariant. */
module WriterSteps {
  import opened Bytes
  import opened Memtables
  import opened Seqs
  import opened History
  import opened Tables
  import opened Compaction
  import opened Store
  import opened StoreInvariant

  // ----- the log -----

  lemma AppendLog(h: seq<Record>, walStart: nat, segs: seq<seq<Record>>, r: Record)
    requires LogOk(h, walStart, segs) && segs != []
    requires r.seqno > 0 && forall i :: walStart <= i < |h| ==> h[i].seqno < r.seqno
    ensures LogOk(h + [r], walStart, Appended(segs, r))
  {
    var front, last := segs[..|segs| - 1], segs[|segs| - 1];
    FlattenSnoc(front, last + [r]);
    assert (h + [r])[walStart..] == h[walStart..] + [r];
    assert Flatten(front) + (last + [r]) == Flatten(segs) + [r];
  }

  lemma RollLog(h: seq<Record>, walStart: nat, segs: seq<seq<Record>>)
    requires LogOk(h, walStart, segs)
    ensures LogOk(h, walStart, segs + [[]])
  {
    hide Flatten;
    FlattenSnoc(segs, []);
    assert Flatten(segs) + [] == Flatten(segs);
  }

  // ----- a longer history -----

  lemma LongerImms(h: seq<Record>, later: seq<Record>, cuts: seq<nat>, imms: seq<Mem>)
    requires ImmsOk(h, cuts, imms) && h <= later
    ensures ImmsOk(later, cuts, imms)
  {
    hide Replay;
    forall i | 0 <= i < |imms|
      ensures cuts[i + 1] < cuts[i] <= |later| && imms[i] == Replay(later[cuts[i + 1]..cuts[i]]) {
      assert later[cuts[i + 1]..cuts[i]] == h[cuts[i + 1]..cuts[i]];
    }
  }

  lemma LongerActive(h: seq<Record>, later: seq<Record>, from: nat, applied: nat, active: Mem)
    requires ActiveOk(h, from, applied, active) && h <= later
    ensures ActiveOk(later, from, applied, active)
  {
    assert later[from..applied] == h[from..applied];
  }

  lemma LongerStage(r: Reader, h: seq<Record>, later: seq<Record>, applied: nat, more: nat)
    requires StageOk(r, h, applied) && h <= later && applied <= more <= |later|
    ensures StageOk(r, later, more)
  {
    hide Latest, Read, Replay;
    match r.stage
    case Captured => ReadsToLater(Rest(r.version), h, r.start, r.captured, later, r.captured);
    case Probing(_, moment) => assert later[..moment] == h[..moment];
    case Answered(_, moment) => assert later[..moment] == h[..moment];
  }

  lemma LongerHeld(r: Reader, h: seq<Record>, later: seq<Record>, applied: nat, more: nat,
                   activeId: nat, activeStart: nat, frozen: map<nat, Frozen>)
    requires ActiveHeld(r, h, applied, activeId, activeStart, frozen) && h <= later && applied <= more <= |later|
    ensures ActiveHeld(r, later, more, activeId, activeStart, frozen)
  {
    hide Replay;
    if r.version.memId != activeId {
      var end := frozen[r.version.memId].end;
      assert later[r.start..end] == h[r.start..end];
    }
  }

  lemma LongerReaders(readers: map<nat, Reader>, h: seq<Record>, later: seq<Record>, applied: nat, more: nat,
                      activeId: nat, activeStart: nat, frozen: map<nat, Frozen>, published: map<nat, Mem>,
                      files: map<nat, Mem>)
    requires ReadersOk(readers, h, applied, activeId, activeStart, frozen, published, files)
    requires h <= later && applied <= more <= |later|
    ensures ReadersOk(readers, later, more, activeId, activeStart, frozen, published, files)
  {
    hide HeldOk, ActiveHeld, StageOk;
    forall k | k in readers
      ensures ActiveHeld(readers[k], later, more, activeId, activeStart, frozen) && StageOk(readers[k], later, more)
    {
      LongerHeld(readers[k], h, later, applied, more, activeId, activeStart, frozen);
      LongerStage(readers[k], h, later, applied, more);
    }
  }

  // ----- modes -----

  lemma LongerOrdered(h: seq<Record>, r: Record, walStart: nat, flushed: nat, tables: seq<Table>)
    requires OrderedOk(h, walStart, flushed, tables) && r.seqno > MaxSeqnoOf(tables)
    ensures OrderedOk(h + [r], walStart, flushed, tables)
  {
    hide WellOrdered;
  }

  lemma LongerExactTable(t: Table, h: seq<Record>, later: seq<Record>)
    requires Exact(t, h) && h <= later
    ensures Exact(t, later)
  {
    assert later[..t.maxSeqno] == h[..t.maxSeqno];
  }

  lemma LongerAccounted(tables: seq<Table>, h: seq<Record>, later: seq<Record>, n: nat)
    requires Accounted(tables, h, n) && h <= later
    ensures Accounted(tables, later, n)
  {
    forall p | 0 <= p < n ensures AccountedAt(tables, later, p) {
      assert AccountedAt(tables, h, p) && later[p] == h[p];
    }
  }

  lemma LongerExact(h: seq<Record>, r: Record, walStart: nat, flushed: nat, stable: nat, more: nat, tables: seq<Table>)
    requires ExactOk(h, walStart, flushed, stable, tables) && r.seqno == |h| + 1 && stable <= more
    ensures ExactOk(h + [r], walStart, flushed, more, tables)
  {
    hide Exact, Accounted;
    LongerAccounted(tables, h, h + [r], MaxSeqnoOf(tables));
    forall i | 0 <= i < |tables| ensures Exact(tables[i], h + [r]) {
      LongerExactTable(tables[i], h, h + [r]);
    }
  }

  // ----- steps -----

  /** Rolling makes everything before it durable and changes nothing else. */
  lemma RollKeepsInv(mode: Mode, s: State)
    requires Inv(mode, s) && s.up && !s.writer.Logged?
    ensures Inv(mode, Rolled(s))
  {
    hide LogOk, UpOk, TablesOk, ReadsTo, OrderedOk, Exact, Accounted, Numbered;
    RollLog(s.hist, s.walStart, s.segs);
    ReadsToLater(Datas(s.tables), s.hist, Flushed(s), Stable(s), s.hist, Stable(Rolled(s)));
    SameUp(s, Rolled(s));
  }

  /** UpOk looks at memory and at the counter, not at the log or at what is durable. */
  lemma SameUp(s: State, t: State)
    requires t.hist == s.hist && t.walStart == s.walStart && t.cuts == s.cuts && t.imms == s.imms
             && t.active == s.active
    requires t.lastSeqno == s.lastSeqno && t.tables == s.tables && t.nextId == s.nextId && t.published == s.published
    requires t.creator == s.creator && t.files == s.files && t.readers == s.readers && t.activeId == s.activeId
             && t.frozen == s.frozen
    requires Applied(t) == Applied(s) && UpOk(s)
    ensures UpOk(t)
  {
    hide ImmsOk, ActiveOk, NumbersOk, PublishedOk, CreatorOk, ReadersOk;
  }

  lemma LogUp(s: State, r: Record, t: State)
    requires UpOk(s) && s.writer.Idle? && r.seqno == s.lastSeqno + 1
    requires t == s.(hist := s.hist + [r], segs := t.segs, lastSeqno := r.seqno, writer := Logged)
    ensures UpOk(t)
  {
    hide ImmsOk, ActiveOk, PublishedOk, CreatorOk, ReadersOk;
    LongerImms(s.hist, t.hist, s.cuts, s.imms);
    LongerActive(s.hist, t.hist, s.cuts[0], Applied(s), s.active);
    LongerReaders(s.readers, s.hist, t.hist, Applied(s), Applied(t), s.activeId, s.cuts[0], s.frozen, s.published,
      s.files);
  }

  lemma AppendSync(every: positive, n: nat, durable: nat, unsynced: nat, segs: seq<seq<Record>>, r: Record)
    requires SyncOk(every, true, n, durable, unsynced, segs, Idle)
    ensures SyncOk(every, true, n + 1, durable, unsynced, Appended(segs, r), Logged)
  {
  }

  lemma PlainLogKeepsInv(mode: Mode, s: State, tombstone: bool, key: bytes, value: bytes)
    requires Inv(mode, s) && s.up && s.writer.Idle? && s.segs != []
    ensures Inv(mode, DoLog(s, tombstone, key, value))
  {
    hide LogOk, SyncOk, UpOk, TablesOk, ReadsTo, OrderedOk, ExactOk, Appended;
    var r, t := NextRecord(s, tombstone, key, value), DoLog(s, tombstone, key, value);
    assert NumbersOk(s.hist, s.walStart, Flushed(s), s.tables, s.lastSeqno) by {
      UpNumbers(s);
    }
    AppendLog(s.hist, s.walStart, s.segs, r);
    AppendSync(s.every, |s.hist|, s.durable, s.unsynced, s.segs, r);
    LogUp(s, r, t);
    assert s.durable <= |s.hist| by {
      SyncBounds(s);
    }
    ReadsToLater(Datas(s.tables), s.hist, Flushed(s), Stable(s), t.hist, Stable(t));
    match mode
    case CleanReopens => LongerOrdered(s.hist, r, s.walStart, Flushed(s), s.tables);
    case NoCompaction => LongerExact(s.hist, r, s.walStart, Flushed(s), Stable(s), Stable(t), s.tables);
  }

  lemma SyncBounds(s: State)
    requires SyncOk(s.every, s.up, |s.hist|, s.durable, s.unsynced, s.segs, s.writer)
    ensures s.durable <= |s.hist|
  {
  }

  lemma UpNumbers(s: State)
    requires UpOk(s)
    ensures NumbersOk(s.hist, s.walStart, Flushed(s), s.tables, s.lastSeqno)
  {
  }

  lemma LogKeepsInv(mode: Mode, s: State, tombstone: bool, key: bytes, value: bytes, rolls: bool)
    requires Inv(mode, s) && Enabled(s, Log(tombstone, key, value, rolls))
    ensures Inv(mode, Do(s, Log(tombstone, key, value, rolls)))
  {
    hide Inv;
    if rolls {
      RollKeepsInv(mode, s);
      PlainLogKeepsInv(mode, Rolled(s), tombstone, key, value);
    } else {
      PlainLogKeepsInv(mode, s, tombstone, key, value);
    }
  }

  lemma MoreStable(h: seq<Record>, walStart: nat, flushed: nat, stable: nat, more: nat, tables: seq<Table>)
    requires ExactOk(h, walStart, flushed, stable, tables) && stable <= more
    ensures ExactOk(h, walStart, flushed, more, tables)
  {
    hide Exact, Accounted, Numbered;
  }

  lemma SyncCounts(s: State)
    requires SyncOk(s.every, s.up, |s.hist|, s.durable, s.unsynced, s.segs, s.writer) && s.writer.Logged? && s.up
    ensures var t := DoSync(s); SyncOk(t.every, t.up, |t.hist|, t.durable, t.unsynced, t.segs, t.writer)
    ensures DoSync(s).durable >= s.durable
  {
  }

  lemma SyncKeepsInv(mode: Mode, s: State)
    requires Inv(mode, s) && Enabled(s, Sync)
    ensures Inv(mode, Do(s, Sync))
  {
    hide LogOk, SyncOk, UpOk, TablesOk, ReadsTo, OrderedOk, ExactOk;
    var t := DoSync(s);
    SyncCounts(s);
    SyncBounds(s);
    SyncBounds(t);
    ReadsToLater(Datas(s.tables), s.hist, Flushed(s), Stable(s), s.hist, Stable(t));
    SameUp(s, t);
    if mode == NoCompaction {
      MoreStable(s.hist, s.walStart, Flushed(s), Stable(s), Stable(t), s.tables);
    }
  }

  lemma ApplyActive(h: seq<Record>, from: nat, active: Mem)
    requires h != [] && ActiveOk(h, from, |h| - 1, active)
    ensures ActiveOk(h, from, |h|, active[h[|h| - 1].key := ToEntry(h[|h| - 1])])
  {
    ReplayOneMore(h, from, |h| - 1);
  }

  lemma ApplyUp(s: State)
    requires UpOk(s) && s.writer.Durable? && s.hist != []
    ensures UpOk(DoApply(s))
  {
    hide ImmsOk, ActiveOk, NumbersOk, PublishedOk, CreatorOk, ReadersOk;
    var t := DoApply(s);
    ApplyActive(s.hist, s.cuts[0], s.active);
    LongerReaders(s.readers, s.hist, s.hist, Applied(s), Applied(t), s.activeId, s.cuts[0], s.frozen, s.published,
      s.files);
  }

  lemma ApplyKeepsInv(mode: Mode, s: State)
    requires Inv(mode, s) && Enabled(s, Apply)
    ensures Inv(mode, Do(s, Apply))
  {
    hide LogOk, UpOk, TablesOk, ReadsTo, OrderedOk, Exact, Accounted, Numbered;
    var t := DoApply(s);
    ReadsToLater(Datas(s.tables), s.hist, Flushed(s), Stable(s), s.hist, Stable(t));
    ApplyUp(s);
  }

  lemma AcknowledgeKeepsInv(mode: Mode, s: State)
    requires Inv(mode, s) && Enabled(s, Acknowledge)
    ensures Inv(mode, Do(s, Acknowledge))
  {
    hide LogOk, UpOk, TablesOk, ReadsTo, OrderedOk, Exact, Accounted, Numbered;
    SameUp(s, s.(writer := Idle));
  }

  // ----- rotation -----

  lemma RotateImms(h: seq<Record>, cuts: seq<nat>, imms: seq<Mem>, active: Mem)
    requires ImmsOk(h, cuts, imms) && ActiveOk(h, cuts[0], |h|, active) && cuts[0] < |h|
    ensures ImmsOk(h, [|h|] + cuts, [active] + imms)
    ensures ActiveOk(h, |h|, |h|, map[])
  {
    hide Replay;
    var c, m := [|h|] + cuts, [active] + imms;
    forall i | 0 <= i < |m| ensures c[i + 1] < c[i] <= |h| && m[i] == Replay(h[c[i + 1]..c[i]]) {
      if i > 0 {
        assert m[i] == imms[i - 1] && c[i] == cuts[i - 1] && c[i + 1] == cuts[i];
      }
    }
    ReplayNothing(h[|h|..|h|]);
  }

  lemma ReplayNothing(h: seq<Record>)
    requires h == []
    ensures Replay(h) == map[]
  {
  }

  lemma RotateReader(r: Reader, h: seq<Record>, activeId: nat, start: nat, active: Mem, frozen: map<nat, Frozen>)
    requires ActiveHeld(r, h, |h|, activeId, start, frozen) && ActiveOk(h, start, |h|, active)
    ensures ActiveHeld(r, h, |h|, activeId + 1, |h|, frozen[activeId := Frozen(active, |h|)])
  {
    hide Replay;
  }

  lemma RotateReaders(readers: map<nat, Reader>, h: seq<Record>, activeId: nat, start: nat, active: Mem,
                      frozen: map<nat, Frozen>, published: map<nat, Mem>, files: map<nat, Mem>)
    requires ReadersOk(readers, h, |h|, activeId, start, frozen, published, files) && ActiveOk(h, start, |h|, active)
    ensures ReadersOk(readers, h, |h|, activeId + 1, |h|, frozen[activeId := Frozen(active, |h|)], published, files)
  {
    hide HeldOk, ActiveHeld, StageOk, ActiveOk;
    forall k | k in readers
      ensures ActiveHeld(readers[k], h, |h|, activeId + 1, |h|, frozen[activeId := Frozen(active, |h|)]) {
      RotateReader(readers[k], h, activeId, start, active, frozen);
    }
  }

  lemma RotateCreator(c: Creator, imms: seq<Mem>, active: Mem, tables: seq<Table>, nextId: nat, files: map<nat, Mem>)
    requires CreatorOk(c, imms, tables, nextId, files)
    ensures CreatorOk(c, [active] + imms, tables, nextId, files)
  {
    hide Outputs;
  }

  lemma RotateUp(s: State)
    requires UpOk(s) && s.writer.Visible? && s.cuts[0] < |s.hist|
    ensures UpOk(DoRotate(s))
  {
    hide ImmsOk, ActiveOk, NumbersOk, PublishedOk, CreatorOk, ReadersOk;
    RotateImms(s.hist, s.cuts, s.imms, s.active);
    RotateReaders(s.readers, s.hist, s.activeId, s.cuts[0], s.active, s.frozen, s.published, s.files);
    RotateCreator(s.creator, s.imms, s.active, s.tables, s.nextId, s.files);
  }

  /** Freezing the active table moves it between layers; the roll makes all of it durable. */
  lemma RotateKeepsInv(mode: Mode, s: State)
    requires Inv(mode, s) && Enabled(s, Rotate)
    ensures Inv(mode, Do(s, Rotate))
  {
    hide LogOk, SyncOk, UpOk, TablesOk, ReadsTo, OrderedOk, ExactOk;
    RollKeepsInv(mode, s);
    var t := DoRotate(s);
    RotateUp(s);
    assert t.cuts[|t.cuts| - 1] == s.cuts[|s.cuts| - 1];
    assert Stable(t) == Stable(Rolled(s));
  }
}
