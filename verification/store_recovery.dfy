/** Crashing and opening again. */
module RecoverySteps {
  import opened Memtables
  import opened Seqs
  import opened History
  import opened Tables
  import opened Store
  import opened StoreInvariant
  import opened ReaderSteps
  import opened CompactionSteps

  // ----- crash -----

  lemma TornLog(h: seq<Record>, walStart: nat, segs: seq<seq<Record>>, n: nat)
    requires LogOk(h, walStart, segs) && segs != [] && n <= |h| && |h| - n <= |segs[|segs| - 1]|
    ensures LogOk(h[..n], walStart, Torn(segs, |h| - n))
  {
    hide Flatten;
    var front, last := segs[..|segs| - 1], segs[|segs| - 1];
    FlattenSnoc(front, last);
    FlattenSnoc(front, last[..|last| - (|h| - n)]);
    assert segs == front + [last];
    assert |h[walStart..]| == |Flatten(front)| + |last|;
    assert h[..n][walStart..] == h[walStart..][..n - walStart];
    assert (Flatten(front) + last)[..n - walStart] == Flatten(front) + last[..|last| - (|h| - n)];
  }

  lemma ShorterReads(layers: seq<Mem>, h: seq<Record>, a: nat, e: nat, n: nat)
    requires ReadsTo(layers, h, a, e) && e <= n <= |h|
    ensures ReadsTo(layers, h[..n], a, n)
  {
    hide Read, Latest;
    assert h[..n][..a] == h[..a] && h[..n][a..e] == h[a..e];
    ReadsToLater(layers, h[..n], a, e, h[..n], n);
  }

  lemma ShorterExact(h: seq<Record>, walStart: nat, flushed: nat, stable: nat, tables: seq<Table>, n: nat)
    requires ExactOk(h, walStart, flushed, stable, tables) && stable <= n <= |h|
    ensures ExactOk(h[..n], walStart, flushed, n, tables)
  {
    MaxSeqnoBound(tables);
    forall i | 0 <= i < |tables| ensures Exact(tables[i], h[..n]) {
      assert tables[i] in tables;
      assert h[..n][..tables[i].maxSeqno] == h[..tables[i].maxSeqno];
    }
    forall p | 0 <= p < MaxSeqnoOf(tables) ensures AccountedAt(tables, h[..n], p) {
      assert AccountedAt(tables, h, p);
    }
  }

  lemma ShorterOrdered(h: seq<Record>, walStart: nat, flushed: nat, tables: seq<Table>, n: nat)
    requires OrderedOk(h, walStart, flushed, tables) && n <= |h|
    ensures OrderedOk(h[..n], walStart, flushed, tables)
  {
    hide WellOrdered;
  }

  lemma UpCuts(s: State)
    requires UpOk(s)
    ensures s.cuts != [] && Falling(s.cuts)
  {
    hide Replay;
  }

  lemma CrashKeepsInv(mode: Mode, s: State, n: nat)
    requires Inv(mode, s) && Enabled(s, Crash(n))
    ensures Inv(mode, Do(s, Crash(n)))
  {
    hide LogOk, UpOk, TablesOk, ReadsTo, OrderedOk, ExactOk, Falling, Torn;
    TornLog(s.hist, s.walStart, s.segs, n);
    UpCuts(s);
    CutBelowFirst(s.cuts, |s.cuts| - 1);
    ShorterReads(Datas(s.tables), s.hist, Flushed(s), Stable(s), n);
    match mode
    case CleanReopens => ShorterOrdered(s.hist, s.walStart, Flushed(s), s.tables, n);
    case NoCompaction => ShorterExact(s.hist, s.walStart, Flushed(s), Stable(s), s.tables, n);
  }

  /** Any loss the disk may inflict stays within the active segment. */
  lemma CrashCanHappen(mode: Mode, s: State, n: nat)
    requires Inv(mode, s) && s.up && s.durable <= n <= |s.hist|
    ensures Enabled(s, Crash(n))
  {
    hide LogOk, UpOk, TablesOk, ReadsTo, OrderedOk, ExactOk;
  }

  lemma RemoveOrphanKeepsInv(mode: Mode, s: State, id: nat)
    requires Inv(mode, s) && Enabled(s, RemoveOrphan(id))
    ensures Inv(mode, Do(s, RemoveOrphan(id)))
  {
    hide LogOk, SyncOk, UpOk, TablesOk, ReadsTo, OrderedOk, ExactOk, Ids;
    forall t | t in s.tables ensures t.id != id {
      ListedId(s.tables, t);
    }
    DeleteTables(s.tables, s.nextId, s.files, id);
    assert Stable(s.(files := s.files - {id})) == Stable(s);
  }

  // ----- open: the tables -----

  lemma TwiceCounts(ts: seq<Table>, i: nat, j: nat)
    requires i < j < |ts| && ts[i] == ts[j]
    ensures multiset(ts)[ts[i]] >= 2
  {
    assert ts == ts[..j] + ts[j..];
    assert ts[i] in ts[..j] && ts[j..][0] == ts[j];
    assert ts[i] in multiset(ts[..j]) && ts[j] in multiset(ts[j..]);
  }

  lemma OnceCounts(ts: seq<Table>, x: Table)
    requires UniqueIds(ts)
    ensures multiset(ts)[x] <= 1
  {
    if x in ts {
      var k :| 0 <= k < |ts| && ts[k] == x;
      assert ts == ts[..k] + [x] + ts[k + 1..];
      assert multiset(ts) == multiset(ts[..k]) + multiset{x} + multiset(ts[k + 1..]);
    }
  }

  lemma SortedUnique(order: seq<Table>, ts: seq<Table>)
    requires SortedFrom(order, ts) && UniqueIds(ts)
    ensures UniqueIds(order)
  {
    SortedMembers(order, ts);
    forall i, j | 0 <= i < j < |order| ensures order[i].id != order[j].id {
      if order[i] == order[j] {
        TwiceCounts(order, i, j);
        OnceCounts(ts, order[i]);
      } else {
        assert order[i] in ts && order[j] in ts;
        var x :| 0 <= x < |ts| && ts[x] == order[i];
        var y :| 0 <= y < |ts| && ts[y] == order[j];
      }
    }
  }

  lemma SortedOk(order: seq<Table>, ts: seq<Table>, nextId: nat, files: map<nat, Mem>)
    requires SortedFrom(order, ts) && TablesOk(ts, nextId, files)
    ensures TablesOk(order, nextId, files)
  {
    hide TableOk, SortedFrom;
    SortedMembers(order, ts);
    assert UniqueIds(order) by {
      SortedUnique(order, ts);
    }
    forall i | 0 <= i < |order| ensures TableOk(order[i]) {
      assert order[i] in ts;
    }
  }

  lemma {:induction false} PublishedAll(ts: seq<Table>, nextId: nat)
    requires UniqueIds(ts) && forall t :: t in ts ==> t.id < nextId
    ensures PublishedOk(ts, nextId, PublishedFrom(ts))
    decreases |ts|
  {
    if ts != [] {
      PublishedAll(ts[1..], nextId);
      forall t | t in ts ensures t.id in PublishedFrom(ts) && PublishedFrom(ts)[t.id] == t.data {
        if t != ts[0] {
          assert t in ts[1..];
          var i :| 0 <= i < |ts| && ts[i] == t;
        }
      }
    }
  }

  lemma SameMax(order: seq<Table>, ts: seq<Table>)
    requires |order| == |ts| && forall t :: t in order <==> t in ts
    ensures MaxSeqnoOf(order) == MaxSeqnoOf(ts)
  {
    MaxSeqnoBound(order);
    MaxSeqnoBound(ts);
  }

  // ----- open: the memtables -----

  lemma {:induction false} ReplayedImms(h: seq<Record>, cuts: seq<nat>)
    requires cuts != [] && Falling(cuts) && cuts[0] <= |h|
    ensures ImmsOk(h, cuts, MemtablesFrom(h, cuts))
    decreases |cuts|
  {
    hide Replay;
    if |cuts| > 1 {
      assert cuts[0] > cuts[1];
      ReplayedImms(h, cuts[1..]);
      var imms := MemtablesFrom(h, cuts);
      forall i | 0 <= i < |imms| ensures cuts[i + 1] < cuts[i] <= |h| && imms[i] == Replay(h[cuts[i + 1]..cuts[i]]) {
        if i > 0 {
          assert cuts[1..][i - 1] == cuts[i] && cuts[1..][i] == cuts[i + 1] && imms[i] == imms[1..][i - 1];
        }
      }
    }
  }

  lemma {:induction false} MaxRecordBound(rs: seq<Record>)
    ensures forall r :: r in rs ==> r.seqno <= MaxSeqno(rs)
    ensures rs != [] ==> exists r :: r in rs && r.seqno == MaxSeqno(rs)
    ensures rs == [] ==> MaxSeqno(rs) == 0
    decreases |rs|
  {
    if rs != [] {
      var front, last := rs[..|rs| - 1], rs[|rs| - 1];
      MaxRecordBound(front);
      assert rs == front + [last];
      if front != [] {
        var r :| r in front && r.seqno == MaxSeqno(front);
        assert r in rs;
      }
      assert last in rs;
    }
  }

  lemma OpenNumbers(h: seq<Record>, walStart: nat, segs: seq<seq<Record>>, tables: seq<Table>, lastSeqno: nat)
    requires LogOk(h, walStart, segs) && lastSeqno >= MaxSeqnoOf(tables) && lastSeqno >= MaxSeqno(Flatten(segs))
    ensures NumbersOk(h, walStart, walStart, tables, lastSeqno)
  {
    hide MaxSeqnoOf, Flatten;
    MaxRecordBound(Flatten(segs));
    forall i | walStart <= i < |h| ensures h[i].seqno <= lastSeqno {
      assert h[i] == h[walStart..][i - walStart];
    }
  }

  // ----- open: the readings -----

  lemma CleanReads(h: seq<Record>, walStart: nat, flushed: nat, tables: seq<Table>, order: seq<Table>)
    requires OrderedOk(h, walStart, flushed, tables) && AllOk(tables) && SortedFrom(order, tables)
    requires ReadsTo(Datas(tables), h, flushed, |h|)
    ensures order == tables && ReadsTo(Datas(order), h, walStart, |h|)
  {
    hide ReadsTo, AllOk, SortedFrom;
    SortKeepsWellOrdered(order, tables);
    ReadsToEarlier(Datas(tables), h, flushed, |h|, walStart, |h|);
  }

  lemma CleanOrder(h: seq<Record>, walStart: nat, segs: seq<seq<Record>>, flushed: nat, tables: seq<Table>)
    requires OrderedOk(h, walStart, flushed, tables) && LogOk(h, walStart, segs)
    requires forall r :: r in Flatten(segs) ==> Above(r, tables)
    ensures OrderedOk(h, walStart, walStart, tables)
  {
    hide WellOrdered, Flatten, MaxSeqnoOf;
    forall i | walStart <= i < |h| ensures h[i].seqno > MaxSeqnoOf(tables) {
      assert h[i] == h[walStart..][i - walStart];
      assert Above(h[i], tables);
    }
  }

  lemma SortedAccounted(order: seq<Table>, ts: seq<Table>, h: seq<Record>, n: nat)
    requires Accounted(ts, h, n) && forall t :: t in ts ==> t in order
    ensures Accounted(order, h, n)
  {
    forall p | 0 <= p < n ensures AccountedAt(order, h, p) {
      assert AccountedAt(ts, h, p);
      var i :| 0 <= i < |ts| && h[p].key in ts[i].data && ts[i].data[h[p].key].seqno > p;
      assert ts[i] in order;
      var j :| 0 <= j < |order| && order[j] == ts[i];
    }
  }

  lemma SortedExact(h: seq<Record>, walStart: nat, flushed: nat, stable: nat, tables: seq<Table>, order: seq<Table>)
    requires ExactOk(h, walStart, flushed, stable, tables) && SortedFrom(order, tables) && stable <= |h|
    ensures ExactOk(h, walStart, walStart, |h|, order) && Descending(order)
    ensures forall i :: 0 <= i < |order| ==> order[i].maxSeqno <= MaxSeqnoOf(order)
  {
    hide Exact, Accounted, MaxSeqnoOf, Numbered;
    SortedMembers(order, tables);
    SameMax(order, tables);
    SortedAccounted(order, tables, h, MaxSeqnoOf(tables));
    MaxSeqnoBound(order);
    forall i | 0 <= i < |order| ensures Exact(order[i], h) && order[i].maxSeqno <= MaxSeqnoOf(order) {
      assert order[i] in tables && order[i] in order;
    }
  }

  /** Overlapping tables, sorted by maximum, read everything up to the largest number; the log
      covers the rest. */
  lemma OverlappingReads(h: seq<Record>, walStart: nat, order: seq<Table>)
    requires ExactOk(h, walStart, walStart, |h|, order) && Descending(order)
    requires forall i :: 0 <= i < |order| ==> order[i].maxSeqno <= MaxSeqnoOf(order)
    ensures ReadsTo(Datas(order), h, walStart, |h|)
  {
    hide Exact, Accounted, MaxSeqnoOf, Numbered, First, LastEntry, Descending;
    var b := MaxSeqnoOf(order);
    forall key | !Touches(h[walStart..|h|], key) ensures Read(Datas(order), key) == Latest(h[..walStart], key) {
      SortedExactReads(order, h, b, key);
      LatestAcross(h, walStart, b, key);
      if Touches(h[walStart..b], key) {
        TouchesSub(h, walStart, b, walStart, |h|, key);
      }
    }
  }

  lemma NumberedCounter(h: seq<Record>, walStart: nat, segs: seq<seq<Record>>, b: nat)
    requires LogOk(h, walStart, segs) && Numbered(h) && walStart <= b <= |h|
    ensures MaxSeqno(Flatten(segs)) <= |h|
    ensures b < |h| ==> MaxSeqno(Flatten(segs)) == |h|
  {
    hide Flatten;
    var rs := Flatten(segs);
    MaxRecordBound(rs);
    assert forall i :: 0 <= i < |rs| ==> rs[i] == h[walStart + i];
    if rs != [] {
      assert rs[|rs| - 1] in rs && rs[|rs| - 1] == h[|h| - 1];
    }
  }

  // ----- open -----

  lemma OpenLog(s: State)
    requires LogOk(s.hist, s.walStart, s.segs)
    ensures LogOk(s.hist, s.walStart, if s.segs == [] then [[]] else s.segs)
  {
    if s.segs == [] {
      FlattenOne<Record>([]);
    }
  }

  lemma OpenUp(s: State, order: seq<Table>, cuts: seq<nat>)
    requires LogOk(s.hist, s.walStart, s.segs) && TablesOk(order, s.nextId, s.files)
    requires cuts != [] && Falling(cuts) && cuts[0] <= |s.hist| && cuts[|cuts| - 1] == s.walStart
    ensures UpOk(DoOpen(s, order, cuts))
  {
    hide LogOk, ImmsOk, MaxSeqnoOf, MaxSeqno, Flatten, AllOk, UniqueIds, PublishedFrom, PublishedOk, NumbersOk;
    var t := DoOpen(s, order, cuts);
    ReplayedImms(s.hist, cuts);
    assert s.hist[cuts[0]..] == s.hist[cuts[0]..|s.hist|];
    OpenNumbers(s.hist, s.walStart, s.segs, order, t.lastSeqno);
    PublishedAll(order, s.nextId);
  }

  lemma OpenReads(mode: Mode, s: State, order: seq<Table>)
    requires Inv(mode, s) && !s.up && SortedFrom(order, s.tables) && (mode == CleanReopens ==> CleanOpen(s))
    ensures ReadsTo(Datas(order), s.hist, s.walStart, |s.hist|)
    ensures mode == CleanReopens ==> OrderedOk(s.hist, s.walStart, s.walStart, order)
    ensures mode == NoCompaction ==> ExactOk(s.hist, s.walStart, s.walStart, |s.hist|, order)
  {
    hide LogOk, ReadsTo, OrderedOk, ExactOk, AllOk, UniqueIds, SortedFrom, Above, Descending;
    assert Stable(s) == |s.hist|;
    match mode
    case CleanReopens =>
      CleanReads(s.hist, s.walStart, Flushed(s), s.tables, order);
      CleanOrder(s.hist, s.walStart, s.segs, Flushed(s), s.tables);
    case NoCompaction =>
      SortedExact(s.hist, s.walStart, Flushed(s), Stable(s), s.tables, order);
      OverlappingReads(s.hist, s.walStart, order);
  }

  lemma OpenCounter(s: State, order: seq<Table>, cuts: seq<nat>)
    requires LogOk(s.hist, s.walStart, s.segs) && ExactOk(s.hist, s.walStart, s.walStart, |s.hist|, order)
    requires cuts != [] && Falling(cuts) && cuts[0] <= |s.hist|
    ensures DoOpen(s, order, cuts).lastSeqno == |s.hist|
  {
    hide LogOk, Exact, Accounted, MaxSeqnoOf, MaxSeqno, Flatten, Replay, MemtablesFrom, PublishedFrom;
    NumberedCounter(s.hist, s.walStart, s.segs, MaxSeqnoOf(order));
  }

  /** Opening restores everything from the manifest, the files and the log. */
  lemma OpenKeepsInv(mode: Mode, s: State, order: seq<Table>, cuts: seq<nat>)
    requires Inv(mode, s) && Allowed(mode, s, Open(order, cuts))
    ensures Inv(mode, Do(s, Open(order, cuts)))
  {
    hide LogOk, UpOk, TablesOk, ReadsTo, OrderedOk, ExactOk, SortedFrom, Falling, CleanOpen, MaxSeqnoOf, MaxSeqno,
      Flatten, PublishedFrom, MemtablesFrom, Replay;
    SortedOk(order, s.tables, s.nextId, s.files);
    OpenReads(mode, s, order);
    OpenLog(s);
    OpenUp(s, order, cuts);
    if mode == NoCompaction {
      OpenCounter(s, order, cuts);
    }
  }
}
