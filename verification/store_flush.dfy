/** Flushing and log cleanup keep the invariant. */
module FlushSteps {
  import opened Bytes
  import opened Memtables
  import opened Seqs
  import opened History
  import opened Tables
  import opened Store
  import opened StoreInvariant

  // ----- the creator's own state -----

  lemma CreatorMoves(mode: Mode, s: State, c: Creator)
    requires Inv(mode, s) && s.up && CreatorOk(c, s.imms, s.tables, s.nextId, s.files)
    requires mode == NoCompaction ==> NeverCompacts(c)
    ensures Inv(mode, s.(creator := c))
  {
    hide LogOk, SyncOk, ImmsOk, ActiveOk, NumbersOk, PublishedOk, CreatorOk, ReadersOk, TablesOk, ReadsTo, OrderedOk,
      ExactOk;
    assert Stable(s.(creator := c)) == Stable(s);
  }

  /** A new file under the next number is not one that anybody uses. */
  lemma NewFile(mode: Mode, s: State, data: Mem, c: Creator)
    requires Inv(mode, s) && s.up && CreatorOk(c, s.imms, s.tables, s.nextId, s.files[s.nextId := data])
    requires mode == NoCompaction ==> NeverCompacts(c)
    ensures Inv(mode, s.(files := s.files[s.nextId := data], creator := c))
  {
    hide LogOk, SyncOk, ImmsOk, ActiveOk, NumbersOk, CreatorOk, ReadersOk, TablesOk, PublishedOk, ReadsTo, OrderedOk,
      ExactOk;
    var t := s.(files := s.files[s.nextId := data], creator := c);
    NewFileTables(s.tables, s.nextId, s.files, data);
    NewFileReaders(s.readers, s.hist, Applied(s), s.activeId, s.cuts[0], s.frozen, s.tables, s.nextId, s.published,
      s.files, data);
    assert Stable(t) == Stable(s);
  }

  lemma NewFileTables(tables: seq<Table>, nextId: nat, files: map<nat, Mem>, data: Mem)
    requires TablesOk(tables, nextId, files)
    ensures TablesOk(tables, nextId, files[nextId := data])
  {
    hide AllOk, UniqueIds;
  }

  lemma NewFileReaders(readers: map<nat, Reader>, h: seq<Record>, applied: nat, activeId: nat, activeStart: nat,
                       frozen: map<nat, Frozen>, tables: seq<Table>, nextId: nat, published: map<nat, Mem>,
                       files: map<nat, Mem>, data: Mem)
    requires ReadersOk(readers, h, applied, activeId, activeStart, frozen, published, files)
    requires PublishedOk(tables, nextId, published)
    ensures ReadersOk(readers, h, applied, activeId, activeStart, frozen, published, files[nextId := data])
  {
    hide ActiveHeld, StageOk;
  }

  /** Publishing under the next number does not change what anybody holds. */
  lemma NewPublished(readers: map<nat, Reader>, h: seq<Record>, applied: nat, activeId: nat, activeStart: nat,
                     frozen: map<nat, Frozen>, tables: seq<Table>, nextId: nat, published: map<nat, Mem>,
                     files: map<nat, Mem>, data: Mem)
    requires ReadersOk(readers, h, applied, activeId, activeStart, frozen, published, files)
    requires PublishedOk(tables, nextId, published)
    ensures ReadersOk(readers, h, applied, activeId, activeStart, frozen, published[nextId := data], files)
  {
    hide ActiveHeld, StageOk;
  }

  lemma BeginFlushKeepsInv(mode: Mode, s: State)
    requires Inv(mode, s) && Enabled(s, BeginFlush)
    ensures Inv(mode, Do(s, BeginFlush))
  {
    hide Inv;
    CreatorMoves(mode, s, Flushing);
  }

  lemma WriteFlushKeepsInv(mode: Mode, s: State)
    requires Inv(mode, s) && Enabled(s, WriteFlush)
    ensures Inv(mode, Do(s, WriteFlush))
  {
    hide Inv;
    NewFile(mode, s, s.imms[|s.imms| - 1], FlushWritten(s.nextId));
  }

  lemma EndCleanupKeepsInv(mode: Mode, s: State)
    requires Inv(mode, s) && Enabled(s, EndCleanup)
    ensures Inv(mode, Do(s, EndCleanup))
  {
    hide Inv;
    CreatorMoves(mode, s, Free);
  }

  lemma AbandonKeepsInv(mode: Mode, s: State)
    requires Inv(mode, s) && Enabled(s, Abandon)
    ensures Inv(mode, Do(s, Abandon))
  {
    hide Inv;
    CreatorMoves(mode, s, Free);
  }

  // ----- what a flushed table holds -----

  /** Every entry of a replayed stretch is one of its mutations. */
  lemma ReplaySource(h: seq<Record>, p: nat, b: nat, key: bytes) returns (i: nat)
    requires p <= b <= |h| && key in Replay(h[p..b])
    ensures p <= i < b && h[i].key == key && Replay(h[p..b])[key] == ToEntry(h[i])
    ensures LastIndex(h[p..b], key) == Some(i - p)
  {
    ReplayIsLast(h[p..b], key);
    i := p + LastIndex(h[p..b], key).value;
  }

  lemma FlushedRange(t: Table, h: seq<Record>, p: nat, b: nat) returns (lo: nat, hi: nat)
    requires TableOk(t) && p <= b <= |h| && t.data == Replay(h[p..b])
    ensures p <= lo < b && h[lo].seqno == t.minSeqno
    ensures p <= hi < b && h[hi].seqno == t.maxSeqno
  {
    hide Replay;
    var k0 :| k0 in t.data && t.data[k0].seqno == t.minSeqno;
    var k1 :| k1 in t.data && t.data[k1].seqno == t.maxSeqno;
    lo := ReplaySource(h, p, b, k0);
    hi := ReplaySource(h, p, b, k1);
  }

  lemma MaxSeqnoCons(t: Table, ts: seq<Table>)
    ensures MaxSeqnoOf([t] + ts) == if t.maxSeqno > MaxSeqnoOf(ts) then t.maxSeqno else MaxSeqnoOf(ts)
  {
    hide MaxSeqnoOf;
    MaxSeqnoBound([t] + ts);
    MaxSeqnoBound(ts);
    assert ([t] + ts)[0] in [t] + ts;
    var x :| x in [t] + ts && x.maxSeqno == MaxSeqnoOf([t] + ts);
    NoTables();
    if ts != [] {
      var y :| y in ts && y.maxSeqno == MaxSeqnoOf(ts);
      assert y in [t] + ts;
    }
  }

  lemma NoTables()
    ensures MaxSeqnoOf([]) == 0
  {
  }

  // ----- publishing a flush -----

  lemma {:induction false} FallingBound(cuts: seq<nat>, i: nat)
    requires Falling(cuts) && i < |cuts|
    ensures cuts[i] <= cuts[0]
    decreases i
  {
    if i > 0 {
      FallingBound(cuts, i - 1);
    }
  }

  lemma FlushImms(h: seq<Record>, cuts: seq<nat>, imms: seq<Mem>)
    requires ImmsOk(h, cuts, imms) && imms != []
    ensures var n := |imms|;
            |cuts| == n + 1 && cuts[n] < cuts[n - 1] <= cuts[0]
            && imms[n - 1] == Replay(h[cuts[n]..cuts[n - 1]])
    ensures |cuts| == |imms| + 1 && cuts[|imms| - 1] <= |h|
    ensures ImmsOk(h, cuts[..|cuts| - 1], imms[..|imms| - 1])
  {
    hide Replay;
    FallingBound(cuts, |imms| - 1);
  }

  lemma FlushReads(h: seq<Record>, tables: seq<Table>, p: nat, b: nat, stable: nat, t: Table)
    requires ReadsTo(Datas(tables), h, p, stable) && p <= b <= stable && t.data == Replay(h[p..b])
    ensures ReadsTo(Datas([t] + tables), h, b, stable)
  {
    hide ReadsTo, Replay;
    PushLayer(Datas(tables), h, p, b, stable, t.data);
    DatasAppend([t], tables);
    assert Datas([t]) == [t.data];
  }

  lemma FlushTables(tables: seq<Table>, nextId: nat, files: map<nat, Mem>, published: map<nat, Mem>, t: Table)
    requires TablesOk(tables, nextId, files) && PublishedOk(tables, nextId, published)
    requires TableOk(t) && t.id == nextId && nextId in files && files[nextId] == t.data
    ensures TablesOk([t] + tables, nextId + 1, files)
            && PublishedOk([t] + tables, nextId + 1, published[nextId := t.data])
  {
    hide TableOk;
    var more := [t] + tables;
    assert forall x :: x in more <==> x == t || x in tables;
    forall i, j | 0 <= i < j < |more| ensures more[i].id != more[j].id {
      assert more[j] == tables[j - 1] && tables[j - 1] in tables;
      if i > 0 {
        assert more[i] == tables[i - 1];
      }
    }
  }

  lemma FlushNumbers(h: seq<Record>, walStart: nat, p: nat, b: nat, tables: seq<Table>, lastSeqno: nat, t: Table)
    requires NumbersOk(h, walStart, p, tables, lastSeqno) && p <= b <= |h| && TableOk(t) && t.data == Replay(h[p..b])
    ensures NumbersOk(h, walStart, b, [t] + tables, lastSeqno)
  {
    hide TableOk, Replay, MaxSeqnoOf;
    var lo, hi := FlushedRange(t, h, p, b);
    MaxSeqnoCons(t, tables);
  }

  lemma FlushOrdered(h: seq<Record>, walStart: nat, p: nat, b: nat, tables: seq<Table>, t: Table)
    requires OrderedOk(h, walStart, p, tables) && RisingFrom(h, walStart) && p <= b <= |h|
    requires TableOk(t) && t.data == Replay(h[p..b])
    ensures OrderedOk(h, walStart, b, [t] + tables)
  {
    hide TableOk, Replay, MaxSeqnoOf;
    var lo, hi := FlushedRange(t, h, p, b);
    MaxSeqnoCons(t, tables);
    MaxSeqnoBound(tables);
    var more := [t] + tables;
    forall i, j | 0 <= i < j < |more| ensures more[i].minSeqno > more[j].maxSeqno {
      assert more[j] == tables[j - 1] && tables[j - 1] in tables;
      if i > 0 {
        assert more[i] == tables[i - 1];
      }
    }
  }

  /** Numbered by position, a flushed stretch is exact and ends at its own number. */
  lemma FlushedExact(h: seq<Record>, p: nat, b: nat, t: Table)
    requires Numbered(h) && p < b <= |h| && TableOk(t) && t.data == Replay(h[p..b])
    ensures t.maxSeqno == b && Exact(t, h)
  {
    var lo, hi := FlushedRange(t, h, p, b);
    LastMutationStored(h, p, b);
    forall key | key in t.data ensures LastEntry(h[..b], key) == Some(t.data[key]) {
      ReplayIsLast(h[p..b], key);
      LatestAcross(h, p, b, key);
    }
  }

  lemma LastMutationStored(h: seq<Record>, p: nat, b: nat)
    requires p < b <= |h|
    ensures h[b - 1].key in Replay(h[p..b]) && Replay(h[p..b])[h[b - 1].key] == ToEntry(h[b - 1])
  {
    assert h[p..b][b - p - 1] == h[b - 1];
  }

  lemma FlushAccounts(h: seq<Record>, p: nat, b: nat, tables: seq<Table>, n: nat, t: Table)
    requires Numbered(h) && p <= b <= |h| && t.data == Replay(h[p..b]) && Accounted(tables, h, n) && p <= n
    ensures Accounted([t] + tables, h, if n > b then n else b)
  {
    hide Replay;
    var more := [t] + tables;
    forall q | 0 <= q < (if n > b then n else b) ensures AccountedAt(more, h, q) {
      if q < n {
        assert AccountedAt(tables, h, q);
        var i :| 0 <= i < |tables| && h[q].key in tables[i].data && tables[i].data[h[q].key].seqno > q;
        assert more[i + 1] == tables[i];
      } else {
        assert h[p..b][q - p] == h[q];
        ReplayIsLast(h[p..b], h[q].key);
        var i := ReplaySource(h, p, b, h[q].key);
        LastIndexIsLast(h[p..b], h[q].key);
        assert more[0] == t;
      }
    }
  }

  lemma FlushExact(h: seq<Record>, walStart: nat, p: nat, b: nat, stable: nat, tables: seq<Table>, t: Table)
    requires ExactOk(h, walStart, p, stable, tables) && p < b <= stable && b <= |h|
    requires TableOk(t) && t.data == Replay(h[p..b])
    ensures ExactOk(h, walStart, b, stable, [t] + tables)
  {
    hide TableOk, Replay, MaxSeqnoOf, Accounted, Exact, Numbered;
    FlushedExact(h, p, b, t);
    MaxSeqnoCons(t, tables);
    FlushAccounts(h, p, b, tables, MaxSeqnoOf(tables), t);
  }

  lemma FlushUp(s: State, t: Table)
    requires UpOk(s) && Enabled(s, PublishFlush(t)) && TablesOk(s.tables, s.nextId, s.files)
    ensures UpOk(DoPublishFlush(s, t)) && t.id == s.nextId
    ensures TablesOk([t] + s.tables, s.nextId + 1, s.files)
    ensures Flushed(s) < Flushed(DoPublishFlush(s, t)) <= s.cuts[0] && Flushed(DoPublishFlush(s, t)) <= |s.hist|
    ensures t.data == Replay(s.hist[Flushed(s)..Flushed(DoPublishFlush(s, t))])
  {
    hide ImmsOk, ActiveOk, NumbersOk, PublishedOk, ReadersOk, TablesOk, TableOk, Replay;
    FlushImms(s.hist, s.cuts, s.imms);
    FlushTables(s.tables, s.nextId, s.files, s.published, t);
    NewPublished(s.readers, s.hist, Applied(s), s.activeId, s.cuts[0], s.frozen, s.tables, s.nextId, s.published,
      s.files, t.data);
    var b := s.cuts[|s.cuts| - 2];
    FlushNumbers(s.hist, s.walStart, Flushed(s), b, s.tables, s.lastSeqno, t);
  }

  /** The oldest immutable table moves to the front of the table list. */
  lemma PublishFlushKeepsInv(mode: Mode, s: State, t: Table)
    requires Inv(mode, s) && Enabled(s, PublishFlush(t))
    ensures Inv(mode, Do(s, PublishFlush(t)))
  {
    hide SyncOk, UpOk, TablesOk, ReadsTo, OrderedOk, ExactOk, TableOk, Replay, Flatten, RisingFrom;
    FlushUp(s, t);
    var u := DoPublishFlush(s, t);
    var p, b := Flushed(s), Flushed(u);
    assert s.cuts[0] <= Applied(s) by {
      ActiveBounds(s);
    }
    FlushReads(s.hist, s.tables, p, b, Stable(s), t);
    match mode
    case CleanReopens => FlushOrdered(s.hist, s.walStart, p, b, s.tables, t);
    case NoCompaction => FlushExact(s.hist, s.walStart, p, b, Stable(s), s.tables, t);
  }

  lemma ActiveBounds(s: State)
    requires UpOk(s)
    ensures s.cuts != [] && s.cuts[0] <= Applied(s)
  {
  }

  // ----- cleaning the log -----

  lemma {:induction false} AllEmpty(segs: seq<seq<Record>>)
    requires forall j :: 0 <= j < |segs| ==> segs[j] == []
    ensures Flatten(segs) == []
    decreases |segs|
  {
    if segs != [] {
      AllEmpty(segs[..|segs| - 1]);
    }
  }

  lemma EarlierStands(segs: seq<seq<Record>>, j: nat, i: nat, x: nat, y: nat) returns (a: nat, b: nat)
    requires j < i < |segs| && x < |segs[j]| && y < |segs[i]|
    ensures a < b < |Flatten(segs)| && Flatten(segs)[a] == segs[j][x] && Flatten(segs)[b] == segs[i][y]
  {
    hide Flatten;
    FlattenAt(segs, i);
    FlattenAt(segs[..i], j);
    assert segs[..i][..j] == segs[..j];
    a := |Flatten(segs[..j])| + x;
    b := |Flatten(segs[..i])| + y;
  }

  lemma EarlierIsSmaller(h: seq<Record>, walStart: nat, segs: seq<seq<Record>>, j: nat, i: nat, x: nat)
    requires LogOk(h, walStart, segs) && j < i < |segs| && x < |segs[j]| && segs[i] != []
    ensures exists r :: r in segs[i] && r.seqno > segs[j][x].seqno
  {
    hide Flatten;
    var a, b := EarlierStands(segs, j, i, x, 0);
    assert h[walStart..][a] == h[walStart + a] && h[walStart..][b] == h[walStart + b];
    assert segs[i][0] in segs[i];
  }

  /** Only a prefix of the log is ever deleted: a covered segment with records has nothing before it. */
  lemma DeletesPrefix(h: seq<Record>, walStart: nat, segs: seq<seq<Record>>, i: nat, watermark: nat)
    requires LogOk(h, walStart, segs) && CanCleanup(segs, i, watermark) && segs[i] != []
    ensures Flatten(segs[..i]) == []
  {
    hide Flatten;
    forall j | 0 <= j < i ensures segs[j] == [] {
      if segs[j] != [] {
        var r :| r in segs[j] && r.seqno > watermark;
        var x :| 0 <= x < |segs[j]| && segs[j][x] == r;
        EarlierIsSmaller(h, walStart, segs, j, i, x);
      }
    }
    AllEmpty(segs[..i]);
  }

  /** What is left is still a suffix of the history, and what went was below the watermark. */
  lemma DeleteKeepsSuffix(h: seq<Record>, walStart: nat, segs: seq<seq<Record>>, i: nat, watermark: nat)
    requires LogOk(h, walStart, segs) && CanCleanup(segs, i, watermark)
    ensures LogOk(h, walStart + |segs[i]|, segs[..i] + segs[i + 1..])
    ensures forall k :: walStart <= k < walStart + |segs[i]| ==> h[k].seqno <= watermark
  {
    hide Flatten;
    FlattenAt(segs, i);
    FlattenAppend(segs[..i], segs[i + 1..]);
    if segs[i] != [] {
      DeletesPrefix(h, walStart, segs, i, watermark);
    }
    var n := |segs[i]|;
    assert h[walStart..][n..] == h[walStart + n..];
    forall k | walStart <= k < walStart + n ensures h[k].seqno <= watermark {
      assert h[walStart..][k - walStart] == segs[i][k - walStart];
    }
  }

  lemma DeleteNumbers(s: State, t: State)
    requires UpOk(s) && t == s.(segs := t.segs, walStart := t.walStart) && s.walStart <= t.walStart
    ensures UpOk(t)
  {
    hide ImmsOk, ActiveOk, PublishedOk, CreatorOk, ReadersOk;
  }

  lemma DeleteOrdered(h: seq<Record>, walStart: nat, n: nat, flushed: nat, tables: seq<Table>)
    requires OrderedOk(h, walStart, flushed, tables) && walStart + n <= |h|
    requires forall k :: walStart <= k < walStart + n ==> h[k].seqno <= MaxSeqnoOf(tables)
    ensures OrderedOk(h, walStart + n, flushed, tables)
  {
    hide WellOrdered, MaxSeqnoOf;
    if n > 0 {
      assert h[walStart + n - 1].seqno <= MaxSeqnoOf(tables);
    }
  }

  lemma DeleteExact(h: seq<Record>, walStart: nat, n: nat, flushed: nat, stable: nat, tables: seq<Table>)
    requires ExactOk(h, walStart, flushed, stable, tables) && walStart + n <= |h|
    requires forall k :: walStart <= k < walStart + n ==> h[k].seqno <= MaxSeqnoOf(tables)
    ensures ExactOk(h, walStart + n, flushed, stable, tables)
  {
    hide Exact, Accounted, MaxSeqnoOf;
    if n > 0 {
      assert h[walStart + n - 1].seqno <= MaxSeqnoOf(tables);
    }
  }

  lemma DeleteSync(every: positive, n: nat, durable: nat, unsynced: nat, segs: seq<seq<Record>>, writer: Writer, i: nat)
    requires SyncOk(every, true, n, durable, unsynced, segs, writer) && i + 1 < |segs|
    ensures SyncOk(every, true, n, durable, unsynced, segs[..i] + segs[i + 1..], writer)
  {
  }

  lemma DeleteSegmentKeepsInv(mode: Mode, s: State, i: nat)
    requires Inv(mode, s) && Enabled(s, DeleteSegment(i))
    ensures Inv(mode, Do(s, DeleteSegment(i)))
  {
    hide SyncOk, UpOk, TablesOk, ReadsTo, OrderedOk, ExactOk, Flatten, RisingFrom, CanCleanup;
    CleanupIndex(s.segs, i, MaxSeqnoOf(s.tables));
    var n := |s.segs[i]|;
    DeleteKeepsSuffix(s.hist, s.walStart, s.segs, i, MaxSeqnoOf(s.tables));
    DeleteSync(s.every, |s.hist|, s.durable, s.unsynced, s.segs, s.writer, i);
    var t := DoDeleteSegment(s, i);
    DeleteNumbers(s, t);
    assert Stable(t) == Stable(s);
    match mode
    case CleanReopens => DeleteOrdered(s.hist, s.walStart, n, Flushed(s), s.tables);
    case NoCompaction => DeleteExact(s.hist, s.walStart, n, Flushed(s), Stable(s), s.tables);
  }

  lemma CleanupIndex(segs: seq<seq<Record>>, i: nat, watermark: nat)
    requires CanCleanup(segs, i, watermark)
    ensures i + 1 < |segs|
  {
  }
}
