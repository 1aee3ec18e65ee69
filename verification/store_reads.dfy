/** Reads: what the live store answers, and why a captured version answers for one moment. */
module ReaderSteps {
  import opened Bytes
  import opened Memtables
  import opened History
  import opened Tables
  import opened Store
  import opened StoreInvariant

  // ----- the live stack -----

  /** Memtables over tables: each layer carries the reading one cut further. */
  lemma {:induction false} StackReads(h: seq<Record>, cuts: seq<nat>, imms: seq<Mem>, base: seq<Mem>, e: nat)
    requires ImmsOk(h, cuts, imms) && cuts[0] <= e && ReadsTo(base, h, cuts[|cuts| - 1], e)
    ensures ReadsTo(imms + base, h, cuts[0], e)
    decreases |imms|
  {
    hide ReadsTo, Replay;
    if imms == [] {
      assert imms + base == base;
    } else {
      var n := |imms| - 1;
      assert cuts[n] <= cuts[0] by {
        CutBelowFirst(cuts, n);
      }
      PushLayer(base, h, cuts[n + 1], cuts[n], e, imms[n]);
      StackReads(h, cuts[..n + 1], imms[..n], [imms[n]] + base, e);
      assert imms[..n] + ([imms[n]] + base) == imms + base;
    }
  }

  lemma {:induction false} CutBelowFirst(cuts: seq<nat>, i: nat)
    requires Falling(cuts) && i < |cuts|
    ensures cuts[i] <= cuts[0]
    decreases i
  {
    if i > 0 {
      CutBelowFirst(cuts, i - 1);
    }
  }

  lemma RestReads(s: State)
    requires Core(s) && s.up
    ensures ReadsTo(s.imms + Datas(s.tables), s.hist, s.cuts[0], Applied(s))
  {
    hide LogOk, TablesOk, ReadsTo, ImmsOk, NumbersOk, PublishedOk, CreatorOk, ReadersOk;
    ReadsToLater(Datas(s.tables), s.hist, Flushed(s), Stable(s), s.hist, Applied(s));
    StackReads(s.hist, s.cuts, s.imms, Datas(s.tables), Applied(s));
  }

  /** A mutable layer on top of a rest makes the reading exact. */
  lemma TopReads(rest: seq<Mem>, h: seq<Record>, start: nat, captured: nat, moment: nat, mem: Mem, key: bytes)
    requires ReadsTo(rest, h, start, captured) && captured <= moment <= |h| && mem == Replay(h[start..moment])
    ensures Read([mem] + rest, key) == Latest(h[..moment], key)
  {
    hide ReadsTo, Replay, Read, Latest;
    ReadsToLater(rest, h, start, captured, h, moment);
    assert start <= captured by {
      ReadsToBounds(rest, h, start, captured);
    }
    PushLayer(rest, h, start, moment, moment, mem);
    ReadsExactly([mem] + rest, h, moment, key);
  }

  lemma ReadsToBounds(rest: seq<Mem>, h: seq<Record>, a: nat, e: nat)
    requires ReadsTo(rest, h, a, e)
    ensures a <= e <= |h|
  {
  }

  /** Every key of the live store reads as the history of visible mutations says. */
  lemma LiveReads(mode: Mode, s: State, key: bytes)
    requires Inv(mode, s) && s.up
    ensures Read(Layers(s), key) == Latest(s.hist[..Applied(s)], key)
  {
    hide OrderedOk, ExactOk, LogOk, SyncOk, TablesOk, ReadsTo, ImmsOk, NumbersOk, PublishedOk, CreatorOk, ReadersOk,
      Read, Latest;
    RestReads(s);
    TopReads(s.imms + Datas(s.tables), s.hist, s.cuts[0], Applied(s), Applied(s), s.active, key);
    assert Layers(s) == [s.active] + (s.imms + Datas(s.tables));
  }

  // ----- readers -----

  lemma ReadersChange(mode: Mode, s: State, readers: map<nat, Reader>)
    requires Inv(mode, s) && s.up
    requires ReadersOk(readers, s.hist, Applied(s), s.activeId, s.cuts[0], s.frozen, s.published, s.files)
    ensures Inv(mode, s.(readers := readers))
  {
    hide LogOk, SyncOk, ImmsOk, ActiveOk, NumbersOk, PublishedOk, CreatorOk, ReadersOk, TablesOk, ReadsTo, OrderedOk,
      ExactOk;
    assert Stable(s.(readers := readers)) == Stable(s);
  }

  lemma OneReader(s: State, id: nat, r: Reader)
    requires UpOk(s)
    requires HeldOk(r.version, s.published, s.files) && StageOk(r, s.hist, Applied(s))
    requires ActiveHeld(r, s.hist, Applied(s), s.activeId, s.cuts[0], s.frozen)
    ensures ReadersOk(s.readers[id := r], s.hist, Applied(s), s.activeId, s.cuts[0], s.frozen, s.published, s.files)
  {
    hide HeldOk, StageOk, ActiveHeld, ImmsOk, ActiveOk, NumbersOk, PublishedOk, CreatorOk;
  }

  lemma TheReader(s: State, id: nat)
    requires UpOk(s) && id in s.readers
    ensures HeldOk(s.readers[id].version, s.published, s.files) && StageOk(s.readers[id], s.hist, Applied(s))
    ensures ActiveHeld(s.readers[id], s.hist, Applied(s), s.activeId, s.cuts[0], s.frozen)
  {
    hide HeldOk, StageOk, ActiveHeld, ImmsOk, ActiveOk, NumbersOk, PublishedOk, CreatorOk;
  }

  lemma LiveTablesHeld(tables: seq<Table>, nextId: nat, files: map<nat, Mem>, published: map<nat, Mem>, v: Version)
    requires TablesOk(tables, nextId, files) && PublishedOk(tables, nextId, published) && v.tables == tables
    ensures HeldOk(v, published, files)
  {
    hide AllOk, UniqueIds;
  }

  lemma CaptureKeepsInv(mode: Mode, s: State, id: nat, key: bytes)
    requires Inv(mode, s) && Enabled(s, Capture(id, key))
    ensures Inv(mode, Do(s, Capture(id, key)))
  {
    hide OrderedOk, ExactOk, LogOk, SyncOk, TablesOk, ReadsTo, ImmsOk, ActiveOk, NumbersOk, PublishedOk, CreatorOk,
      ReadersOk, HeldOk;
    var r := Reader(key, Version(s.activeId, s.imms, s.tables), s.cuts[0], Applied(s), Captured);
    RestReads(s);
    LiveTablesHeld(s.tables, s.nextId, s.files, s.published, r.version);
    assert s.cuts[0] <= Applied(s) by {
      ActiveRange(s);
    }
    OneReader(s, id, r);
    ReadersChange(mode, s, s.readers[id := r]);
  }

  lemma ActiveRange(s: State)
    requires UpOk(s)
    ensures s.cuts != [] && ActiveOk(s.hist, s.cuts[0], Applied(s), s.active) && s.cuts[0] <= Applied(s) <= |s.hist|
  {
  }

  /** The memtable a reader holds, and the moment its contents stand for. */
  lemma HeldMemtable(s: State, r: Reader) returns (mem: Mem, moment: nat)
    requires UpOk(s) && ActiveHeld(r, s.hist, Applied(s), s.activeId, s.cuts[0], s.frozen)
    ensures mem == if r.version.memId == s.activeId then s.active else s.frozen[r.version.memId].data
    ensures moment == if r.version.memId == s.activeId then Applied(s) else s.frozen[r.version.memId].end
    ensures r.captured <= moment <= Applied(s) <= |s.hist| && r.start <= moment
            && mem == Replay(s.hist[r.start..moment])
  {
    hide Replay, ImmsOk, NumbersOk, PublishedOk, CreatorOk, ReadersOk;
    mem := if r.version.memId == s.activeId then s.active else s.frozen[r.version.memId].data;
    moment := if r.version.memId == s.activeId then Applied(s) else s.frozen[r.version.memId].end;
  }

  lemma ProbedStage(s: State, r: Reader)
    requires UpOk(s) && ActiveHeld(r, s.hist, Applied(s), s.activeId, s.cuts[0], s.frozen)
    requires StageOk(r, s.hist, Applied(s)) && r.stage.Captured?
    ensures StageOk(r.(stage := AfterActive(s, r)), s.hist, Applied(s))
  {
    hide UpOk, Replay, ReadsTo, First, Latest;
    var mem, moment := HeldMemtable(s, r);
    TopReads(Rest(r.version), s.hist, r.start, r.captured, moment, mem, r.key);
    FirstCons(mem, Rest(r.version), r.key);
    assert Rest(r.version)[0..] == Rest(r.version);
  }

  /** The probe of the active table fixes the moment. */
  lemma ProbeActiveKeepsInv(mode: Mode, s: State, id: nat)
    requires Inv(mode, s) && Enabled(s, ProbeActive(id))
    ensures Inv(mode, Do(s, ProbeActive(id)))
  {
    hide OrderedOk, ExactOk, LogOk, SyncOk, TablesOk, ReadsTo, ReadersOk, HeldOk, StageOk, UpOk, AfterActive;
    TheReader(s, id);
    var r := s.readers[id];
    ProbedStage(s, r);
    HeldStage(r, AfterActive(s, r), s);
    OneReader(s, id, r.(stage := AfterActive(s, r)));
    ReadersChange(mode, s, s.readers[id := r.(stage := AfterActive(s, r))]);
  }

  lemma HeldStage(r: Reader, stage: Stage, s: State)
    requires s.cuts != [] && ActiveHeld(r, s.hist, Applied(s), s.activeId, s.cuts[0], s.frozen)
    ensures ActiveHeld(r.(stage := stage), s.hist, Applied(s), s.activeId, s.cuts[0], s.frozen)
  {
    hide Replay;
  }

  lemma LayerIs(v: Version, published: map<nat, Mem>, files: map<nat, Mem>, i: nat)
    requires HeldOk(v, published, files) && i < |v.imms| + |v.tables|
    ensures i < |Rest(v)| && LayerData(files, v, i) == Rest(v)[i]
  {
    if i >= |v.imms| {
      assert v.tables[i - |v.imms|] in v.tables;
    }
  }

  lemma NextStage(r: Reader, h: seq<Record>, applied: nat, published: map<nat, Mem>, files: map<nat, Mem>)
    requires StageOk(r, h, applied) && r.stage.Probing? && HeldOk(r.version, published, files)
    ensures StageOk(r.(stage := AfterLayer(files, r)), h, applied)
  {
    hide HeldOk, Latest, LayerData, Rest;
    var v, i, rest := r.version, r.stage.layer, Rest(r.version);
    RestLength(v);
    if i >= |rest| {
      assert rest[i..] == [];
    } else {
      LayerIs(v, published, files, i);
      assert rest[i..][0] == rest[i] && rest[i..][1..] == rest[i + 1..];
    }
  }

  lemma RestLength(v: Version)
    ensures |Rest(v)| == |v.imms| + |v.tables|
  {
  }

  lemma ProbeNextKeepsInv(mode: Mode, s: State, id: nat)
    requires Inv(mode, s) && Enabled(s, ProbeNext(id))
    ensures Inv(mode, Do(s, ProbeNext(id)))
  {
    hide OrderedOk, ExactOk, LogOk, SyncOk, TablesOk, ReadsTo, ReadersOk, HeldOk, StageOk, UpOk, AfterLayer;
    TheReader(s, id);
    var r := s.readers[id];
    NextStage(r, s.hist, Applied(s), s.published, s.files);
    HeldStage(r, AfterLayer(s.files, r), s);
    OneReader(s, id, r.(stage := AfterLayer(s.files, r)));
    ReadersChange(mode, s, s.readers[id := r.(stage := AfterLayer(s.files, r))]);
  }

  lemma FewerReaders(readers: map<nat, Reader>, id: nat, h: seq<Record>, applied: nat, activeId: nat, activeStart: nat,
                     frozen: map<nat, Frozen>, published: map<nat, Mem>, files: map<nat, Mem>)
    requires ReadersOk(readers, h, applied, activeId, activeStart, frozen, published, files)
    ensures ReadersOk(readers - {id}, h, applied, activeId, activeStart, frozen, published, files)
  {
    hide HeldOk, StageOk, ActiveHeld;
  }

  lemma ReleaseKeepsInv(mode: Mode, s: State, id: nat)
    requires Inv(mode, s) && Enabled(s, Release(id))
    ensures Inv(mode, Do(s, Release(id)))
  {
    hide OrderedOk, ExactOk, LogOk, SyncOk, TablesOk, ReadsTo, ReadersOk, ImmsOk, ActiveOk, NumbersOk, PublishedOk,
      CreatorOk;
    FewerReaders(s.readers, id, s.hist, Applied(s), s.activeId, s.cuts[0], s.frozen, s.published, s.files);
    ReadersChange(mode, s, s.readers - {id});
  }
}
