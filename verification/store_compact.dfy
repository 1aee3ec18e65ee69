/** Compaction keeps the invariant of runs whose reopens are clean. */
module CompactionSteps {
  import opened Bytes
  import opened Memtables
  import opened History
  import opened Tables
  import opened Compaction
  import opened Store
  import opened StoreInvariant
  import opened FlushSteps

  lemma BeginCompactKeepsInv(s: State, from: nat, to: nat)
    requires Inv(CleanReopens, s) && Enabled(s, BeginCompact(from, to))
    ensures Inv(CleanReopens, Do(s, BeginCompact(from, to)))
  {
    hide Inv;
    CreatorMoves(CleanReopens, s, Compacting(from, to));
  }

  lemma WriteCompactKeepsInv(s: State, aged: set<nat>, out: Option<Table>)
    requires Inv(CleanReopens, s) && Enabled(s, WriteCompact(aged, out))
    ensures Inv(CleanReopens, Do(s, WriteCompact(aged, out)))
  {
    hide Inv, Outputs;
    var c := CompactWritten(s.creator.from, s.creator.to, aged, out);
    if out.Some? {
      NewFile(CleanReopens, s, out.value.data, c);
    } else {
      CreatorMoves(CleanReopens, s, c);
    }
  }

  lemma EndDeleteKeepsInv(mode: Mode, s: State)
    requires Inv(mode, s) && Enabled(s, EndDelete)
    ensures Inv(mode, Do(s, EndDelete))
  {
    hide Inv;
    CreatorMoves(mode, s, Free);
  }

  // ----- publishing -----

  lemma ReplacedMember(ts: seq<Table>, from: nat, to: nat, out: Option<Table>, t: Table)
    requires from < to <= |ts| && t in Replaced(ts, from, to, out)
    ensures (out.Some? && t == out.value) || (t in ts && exists x :: 0 <= x < |ts| && !(from <= x < to) && ts[x] == t)
  {
    hide Replaced;
    var i :| 0 <= i < |Replaced(ts, from, to, out)| && Replaced(ts, from, to, out)[i] == t;
    var x := ReplacedAt(ts, from, to, out, i);
  }

  lemma ReplacedUnique(ts: seq<Table>, from: nat, to: nat, out: Option<Table>)
    requires from < to <= |ts| && UniqueIds(ts)
    requires out.Some? ==> forall t :: t in ts ==> t.id != out.value.id
    ensures UniqueIds(Replaced(ts, from, to, out))
  {
    hide Replaced;
    var r := Replaced(ts, from, to, out);
    forall i, j | 0 <= i < j < |r| ensures r[i].id != r[j].id {
      var x := ReplacedAt(ts, from, to, out, i);
      var y := ReplacedAt(ts, from, to, out, j);
      if out.Some? && i == from {
        assert ts[y] in ts;
      } else if out.Some? && j == from {
        assert ts[x] in ts;
      }
    }
  }

  lemma ReplacedTables(ts: seq<Table>, from: nat, to: nat, out: Option<Table>, nextId: nat, next: nat,
                       files: map<nat, Mem>, published: map<nat, Mem>, later: map<nat, Mem>)
    requires from < to <= |ts| && TablesOk(ts, nextId, files) && PublishedOk(ts, nextId, published)
    requires AllOk(Replaced(ts, from, to, out))
    requires out.Some? ==> out.value.id == nextId && nextId in files && files[nextId] == out.value.data
    requires next == if out.Some? then nextId + 1 else nextId
    requires later == if out.Some? then published[nextId := out.value.data] else published
    ensures TablesOk(Replaced(ts, from, to, out), next, files) && PublishedOk(Replaced(ts, from, to, out), next, later)
  {
    hide AllOk, Replaced, UniqueIds;
    ReplacedUnique(ts, from, to, out);
    forall t | t in Replaced(ts, from, to, out)
      ensures t.id < next && t.id in files && files[t.id] == t.data && t.id in later && later[t.id] == t.data
    {
      ReplacedMember(ts, from, to, out, t);
    }
  }

  lemma InputsGone(ts: seq<Table>, from: nat, to: nat, out: Option<Table>)
    requires from < to <= |ts| && UniqueIds(ts)
    requires out.Some? ==> forall t :: t in ts ==> t.id != out.value.id
    ensures forall t :: t in Replaced(ts, from, to, out) ==> t.id !in (set x | x in ts[from..to] :: x.id)
  {
    hide Replaced;
    forall t, x | t in Replaced(ts, from, to, out) && x in ts[from..to] ensures t.id != x.id {
      ReplacedMember(ts, from, to, out, t);
      var j :| 0 <= j < to - from && ts[from..to][j] == x;
      assert x == ts[from + j];
    }
  }

  lemma MaxBounded(tables: seq<Table>, bound: nat)
    requires forall t :: t in tables ==> t.maxSeqno <= bound
    ensures MaxSeqnoOf(tables) <= bound
  {
    MaxSeqnoBound(tables);
  }

  lemma CompactReads(h: seq<Record>, tables: seq<Table>, order: seq<Table>, a: nat, e: nat)
    requires ReadsTo(Datas(tables), h, a, e) && forall key :: Read(Datas(order), key) == Read(Datas(tables), key)
    ensures ReadsTo(Datas(order), h, a, e)
  {
    hide Read;
    SameReadings(Datas(tables), Datas(order), h, a, e);
  }

  lemma CompactOrdered(h: seq<Record>, walStart: nat, flushed: nat, tables: seq<Table>, order: seq<Table>)
    requires OrderedOk(h, walStart, flushed, tables) && WellOrdered(order) && MaxSeqnoOf(order) <= MaxSeqnoOf(tables)
    ensures OrderedOk(h, walStart, flushed, order)
  {
    hide WellOrdered;
  }

  lemma CompactNumbers(h: seq<Record>, walStart: nat, flushed: nat, tables: seq<Table>, order: seq<Table>,
                       lastSeqno: nat)
    requires NumbersOk(h, walStart, flushed, tables, lastSeqno) && MaxSeqnoOf(order) <= MaxSeqnoOf(tables)
    ensures NumbersOk(h, walStart, flushed, order, lastSeqno)
  {
  }

  lemma OutputIsNew(tables: seq<Table>, nextId: nat, files: map<nat, Mem>)
    requires TablesOk(tables, nextId, files)
    ensures forall t :: t in tables ==> t.id != nextId
    ensures UniqueIds(tables) && AllOk(tables)
  {
    hide AllOk, UniqueIds;
  }

  lemma CompactUp(s: State, order: seq<Table>)
    requires UpOk(s) && s.creator.CompactWritten? && TablesOk(s.tables, s.nextId, s.files)
    requires s.creator.from < s.creator.to <= |s.tables|
    requires order == Replaced(s.tables, s.creator.from, s.creator.to, s.creator.out) && AllOk(order)
    requires MaxSeqnoOf(order) <= MaxSeqnoOf(s.tables)
    ensures UpOk(DoPublishCompact(s, order))
    ensures TablesOk(order, DoPublishCompact(s, order).nextId, s.files)
  {
    hide ImmsOk, ActiveOk, NumbersOk, PublishedOk, ReadersOk, TablesOk, AllOk, Replaced, Outputs;
    var t := DoPublishCompact(s, order);
    var from, to, out := s.creator.from, s.creator.to, s.creator.out;
    OutputIsNew(s.tables, s.nextId, s.files);
    ReplacedTables(s.tables, from, to, out, s.nextId, t.nextId, s.files, s.published, t.published);
    InputsGone(s.tables, from, to, out);
    CompactNumbers(s.hist, s.walStart, Flushed(s), s.tables, order, s.lastSeqno);
    if out.Some? {
      NewPublished(s.readers, s.hist, Applied(s), s.activeId, s.cuts[0], s.frozen, s.tables, s.nextId, s.published,
        s.files, out.value.data);
    }
  }

  /** Swapping the window for its merge changes no reading, keeps the order, and frees the inputs. */
  lemma PublishCompactKeepsInv(s: State, order: seq<Table>)
    requires Inv(CleanReopens, s) && Enabled(s, PublishCompact(order))
    ensures Inv(CleanReopens, Do(s, PublishCompact(order)))
  {
    hide LogOk, SyncOk, UpOk, TablesOk, ReadsTo, OrderedOk, WellOrdered, AllOk, Outputs, Replaced, Outside, Listed,
      SortedFrom, Read;
    var t := DoPublishCompact(s, order);
    var from, to, out := s.creator.from, s.creator.to, s.creator.out;
    CreatorWritten(s);
    OutputIsNew(s.tables, s.nextId, s.files);
    assert WellOrdered(s.tables) by {
      OrderedTables(s.hist, s.walStart, Flushed(s), s.tables);
    }
    CompactionPreservesReads(s.tables, from, to, s.creator.aged, out, order);
    MaxBounded(order, MaxSeqnoOf(s.tables));
    CompactUp(s, order);
    CompactReads(s.hist, s.tables, order, Flushed(s), Stable(s));
    CompactOrdered(s.hist, s.walStart, Flushed(s), s.tables, order);
    assert Stable(t) == Stable(s);
  }

  lemma CreatorWritten(s: State)
    requires UpOk(s) && s.creator.CompactWritten?
    ensures s.creator.from < s.creator.to <= |s.tables|
    ensures Outputs(s.tables, s.creator.from, s.creator.to, s.creator.aged, s.creator.out)
  {
    hide Outputs, Replay, TableOk;
  }

  lemma OrderedTables(h: seq<Record>, walStart: nat, flushed: nat, tables: seq<Table>)
    requires OrderedOk(h, walStart, flushed, tables)
    ensures WellOrdered(tables)
  {
  }

  // ----- deleting inputs -----

  lemma DeleteTables(tables: seq<Table>, nextId: nat, files: map<nat, Mem>, id: nat)
    requires TablesOk(tables, nextId, files) && forall t :: t in tables ==> t.id != id
    ensures TablesOk(tables, nextId, files - {id})
  {
    hide AllOk, UniqueIds;
  }

  lemma DeleteReaders(readers: map<nat, Reader>, h: seq<Record>, applied: nat, activeId: nat, activeStart: nat,
                      frozen: map<nat, Frozen>, published: map<nat, Mem>, files: map<nat, Mem>, id: nat)
    requires ReadersOk(readers, h, applied, activeId, activeStart, frozen, published, files) && !Referenced(readers, id)
    ensures ReadersOk(readers, h, applied, activeId, activeStart, frozen, published, files - {id})
  {
    hide ActiveHeld, StageOk;
    forall k | k in readers ensures HeldOk(readers[k].version, published, files - {id}) {
      forall t | t in readers[k].version.tables ensures t.id != id {
        ListedId(readers[k].version.tables, t);
      }
    }
  }

  lemma DeleteInputKeepsInv(mode: Mode, s: State, id: nat)
    requires Inv(mode, s) && Enabled(s, DeleteInput(id))
    ensures Inv(mode, Do(s, DeleteInput(id)))
  {
    hide LogOk, SyncOk, ImmsOk, ActiveOk, NumbersOk, PublishedOk, ReadersOk, TablesOk, ReadsTo, OrderedOk, ExactOk,
      Referenced;
    DeleteTables(s.tables, s.nextId, s.files, id);
    DeleteReaders(s.readers, s.hist, Applied(s), s.activeId, s.cuts[0], s.frozen, s.published, s.files, id);
    assert Stable(s.(files := s.files - {id})) == Stable(s);
  }
}
