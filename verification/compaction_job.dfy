/** The loops of one compaction job: choosing the window, merging the inputs, dropping tombstones. */
module CompactionJobs {
  import opened Bytes
  import opened Memtables
  import opened Seqs
  import opened Tables
  import opened Compaction

  datatype Selection = Chosen(from: nat, to: nat) | TooFew | NotLive(id: nat) | NotAdjacent

  // ----- a window named by table numbers -----

  ghost predicate Live(ts: seq<Table>, id: nat) {
    exists i :: 0 <= i < |ts| && ts[i].id == id
  }

  /** The listed tables are exactly the window. */
  ghost predicate IsWindow(ts: seq<Table>, ids: seq<nat>, from: nat, to: nat) {
    from < to <= |ts| && forall i :: 0 <= i < |ts| ==> (ts[i].id in ids <==> from <= i < to)
  }

  method FindLive(ts: seq<Table>, id: nat) returns (found: bool)
    ensures found <==> Live(ts, id)
  {
    found := false;
    var i := 0;
    while i < |ts| && !found
      invariant i <= |ts|
      invariant found ==> Live(ts, id)
      invariant !found ==> forall j :: 0 <= j < i ==> ts[j].id != id
    {
      found := ts[i].id == id;
      i := i + 1;
    }
  }

  /** Where the listed tables stand among the first n. */
  ghost predicate PositionsOf(ts: seq<Table>, ids: seq<nat>, ps: seq<nat>, n: nat)
    requires n <= |ts|
  {
    && (forall a, b :: 0 <= a < b < |ps| ==> ps[a] < ps[b])
    && (forall a :: 0 <= a < |ps| ==> ps[a] < n && ts[ps[a]].id in ids)
    && (forall p :: 0 <= p < n && ts[p].id in ids ==> p in ps)
  }

  method FindPositions(ts: seq<Table>, ids: seq<nat>) returns (ps: seq<nat>)
    ensures PositionsOf(ts, ids, ps, |ts|)
  {
    ps := [];
    var i := 0;
    while i < |ts|
      invariant i <= |ts| && PositionsOf(ts, ids, ps, i)
    {
      if ts[i].id in ids {
        ps := ps + [i];
      }
      i := i + 1;
    }
  }

  ghost predicate SideBySide(ps: seq<nat>, n: nat) {
    forall q :: 0 <= q < n <= |ps| ==> ps[q] == ps[0] + q
  }

  lemma SomePosition(ts: seq<Table>, ids: seq<nat>, ps: seq<nat>)
    requires ids != [] && Live(ts, ids[0]) && PositionsOf(ts, ids, ps, |ts|)
    ensures ps != []
  {
    var i :| 0 <= i < |ts| && ts[i].id == ids[0];
    assert i in ps;
  }

  lemma RunIsWindow(ts: seq<Table>, ids: seq<nat>, ps: seq<nat>)
    requires ps != [] && PositionsOf(ts, ids, ps, |ts|) && SideBySide(ps, |ps|)
    ensures IsWindow(ts, ids, ps[0], ps[0] + |ps|)
  {
    var from, to := ps[0], ps[0] + |ps|;
    assert ps[|ps| - 1] == to - 1;
    forall i | 0 <= i < |ts| ensures ts[i].id in ids <==> from <= i < to {
      if from <= i < to {
        assert ps[i - from] == i;
      }
    }
  }

  lemma WindowMeans(ts: seq<Table>, ids: seq<nat>, from: nat, to: nat)
    requires IsWindow(ts, ids, from, to) && forall m :: 0 <= m < |ids| ==> Live(ts, ids[m])
    ensures from < to <= |ts| && forall i :: 0 <= i < |ts| ==> (ts[i].id in ids <==> from <= i < to)
    ensures forall id :: id in ids ==> exists i :: 0 <= i < |ts| && ts[i].id == id
  {
    forall id | id in ids ensures exists i :: 0 <= i < |ts| && ts[i].id == id {
      var m :| 0 <= m < |ids| && ids[m] == id;
      assert Live(ts, ids[m]);
    }
  }

  lemma WindowHasNoGap(ts: seq<Table>, ids: seq<nat>, ps: seq<nat>, from: nat, to: nat, m: nat)
    requires PositionsOf(ts, ids, ps, |ts|) && IsWindow(ts, ids, from, to) && 0 < m < |ps|
    ensures ps[m] == ps[m - 1] + 1
  {
    var next := ps[m - 1] + 1;
    assert from <= ps[m - 1] < ps[m] < to;
    assert next in ps;
    var q :| 0 <= q < |ps| && ps[q] == next;
    assert m - 1 < q <= m;
  }

  /** The first listed number that names no table. */
  ghost predicate FirstStranger(ts: seq<Table>, ids: seq<nat>, id: nat) {
    exists m :: 0 <= m < |ids| && ids[m] == id && !Live(ts, id) && forall k :: 0 <= k < m ==> Live(ts, ids[k])
  }

  method AllLive(ts: seq<Table>, ids: seq<nat>) returns (stranger: Option<nat>)
    ensures stranger == None <==> forall m :: 0 <= m < |ids| ==> Live(ts, ids[m])
    ensures stranger.Some? ==> FirstStranger(ts, ids, stranger.value)
  {
    var n := 0;
    while n < |ids|
      invariant n <= |ids|
      invariant forall m :: 0 <= m < n ==> Live(ts, ids[m])
    {
      var found := FindLive(ts, ids[n]);
      if !found {
        return Some(ids[n]);
      }
      n := n + 1;
    }
    stranger := None;
  }

  /** Accept a manual selection if and only if it names live tables that stand side by side. */
  method SelectWindow(ts: seq<Table>, ids: seq<nat>) returns (r: Selection)
    ensures r.TooFew? <==> |ids| < 2
    ensures r.NotLive? ==> FirstStranger(ts, ids, r.id)
    ensures r.NotLive? <==> |ids| >= 2 && exists m :: 0 <= m < |ids| && !Live(ts, ids[m])
    ensures r.Chosen? ==> IsWindow(ts, ids, r.from, r.to)
    ensures r.Chosen? ==>
              && r.from < r.to <= |ts| && (forall i :: 0 <= i < |ts| ==> (ts[i].id in ids <==> r.from <= i < r.to))
              && forall id :: id in ids ==> exists i :: 0 <= i < |ts| && ts[i].id == id
    ensures r.NotAdjacent? ==> forall from, to :: !IsWindow(ts, ids, from, to)
    ensures |ids| >= 2 && (forall m :: 0 <= m < |ids| ==> Live(ts, ids[m])) ==> r.Chosen? || r.NotAdjacent?
  {
    hide Live, PositionsOf, IsWindow;
    if |ids| < 2 {
      return TooFew;
    }
    var stranger := AllLive(ts, ids);
    if stranger.Some? {
      return NotLive(stranger.value);
    }
    var ps := FindPositions(ts, ids);
    SomePosition(ts, ids, ps);
    var m := 1;
    while m < |ps|
      invariant 1 <= m <= |ps| && SideBySide(ps, m)
    {
      if ps[m] != ps[m - 1] + 1 {
        forall from, to ensures !IsWindow(ts, ids, from, to) {
          if IsWindow(ts, ids, from, to) {
            WindowHasNoGap(ts, ids, ps, from, to, m);
          }
        }
        return NotAdjacent;
      }
      m := m + 1;
    }
    RunIsWindow(ts, ids, ps);
    WindowMeans(ts, ids, ps[0], ps[0] + |ps|);
    r := Chosen(ps[0], ps[0] + |ps|);
  }

  // ----- merging -----

  lemma {:induction false} ToMapKeys(rows: seq<Row>, key: bytes)
    requires forall i :: 0 <= i < |rows| ==> rows[i].key != key
    ensures key !in ToMap(rows)
    decreases |rows|
  {
    if rows != [] {
      ToMapKeys(rows[1..], key);
    }
  }

  lemma {:induction false} ToMapSnoc(rows: seq<Row>, r: Row)
    requires forall i :: 0 <= i < |rows| ==> rows[i].key != r.key
    ensures ToMap(rows + [r]) == ToMap(rows)[r.key := r.entry]
    decreases |rows|
  {
    if rows == [] {
      assert ([] + [r])[1..] == [];
    } else {
      assert (rows + [r])[1..] == rows[1..] + [r];
      ToMapSnoc(rows[1..], r);
    }
  }

  lemma PrefixSnoc(rows: seq<Row>, j: nat)
    requires Ordered(rows) && j < |rows|
    ensures rows[j].key !in ToMap(rows[..j])
    ensures ToMap(rows[..j + 1]) == ToMap(rows[..j])[rows[j].key := rows[j].entry]
  {
    forall i | 0 <= i < j ensures rows[i].key != rows[j].key {
      LessAsymmetric(rows[i].key, rows[j].key);
    }
    ToMapKeys(rows[..j], rows[j].key);
    assert rows[..j + 1] == rows[..j] + [rows[j]];
    ToMapSnoc(rows[..j], rows[j]);
  }

  lemma NoRows()
    ensures ToMap([]) == map[]
  {
  }

  /** Apply every entry of a scanned table. */
  method ApplyRows(merged: Memtable, rows: seq<Row>)
    requires merged.Valid() && Ordered(rows)
    modifies merged
    ensures merged.Valid() && ToMap(merged.rows) == old(ToMap(merged.rows)) + ToMap(rows)
  {
    hide ToMap;
    ghost var before := ToMap(merged.rows);
    var j := 0;
    NoRows();
    assert rows[..0] == [];
    while j < |rows|
      invariant j <= |rows| && merged.Valid()
      invariant ToMap(merged.rows) == before + ToMap(rows[..j])
    {
      PrefixSnoc(rows, j);
      merged.Apply(rows[j].key, rows[j].entry.value, rows[j].entry.seqno, rows[j].entry.tombstone);
      j := j + 1;
    }
    assert rows[..|rows|] == rows;
  }

  /** Oldest input first, so that newer entries overwrite older ones. */
  method MergeInputs(inputs: seq<Table>, scans: seq<seq<Row>>, overhead: nat) returns (merged: Memtable, keysIn: nat)
    requires |scans| == |inputs| && forall i :: 0 <= i < |inputs| ==>
             Ordered(scans[i]) && ToMap(scans[i]) == inputs[i].data
    ensures fresh(merged) && merged.Valid() && ToMap(merged.rows) == Merge(inputs)
    ensures keysIn == |Flatten(scans)|
  {
    hide Flatten;
    merged := new Memtable(overhead);
    keysIn := 0;
    var i := |inputs|;
    assert inputs[|inputs|..] == [] && scans[|scans|..] == [];
    assert |Flatten(scans[|scans|..])| == 0 by {
      FlattenAppend(scans, scans[|scans|..]);
      assert scans + scans[|scans|..] == scans;
    }
    while i > 0
      invariant 0 <= i <= |inputs| && fresh(merged) && merged.Valid()
      invariant ToMap(merged.rows) == Merge(inputs[i..]) && keysIn == |Flatten(scans[i..])|
    {
      i := i - 1;
      FlattenFrom(scans, i);
      ApplyRows(merged, scans[i]);
      keysIn := keysIn + |scans[i]|;
      assert inputs[i..][1..] == inputs[i + 1..];
    }
    assert inputs[0..] == inputs && scans[0..] == scans;
  }

  // ----- dropping -----

  /** `oldest` decides, for every number, whether everything in these tables is newer. */
  ghost predicate Decides(oldest: Option<nat>, outside: seq<Table>) {
    match oldest
    case None => outside == []
    case Some(low) =>
      && (forall i :: 0 <= i < |outside| ==> low <= outside[i].minSeqno)
      && exists i :: 0 <= i < |outside| && outside[i].minSeqno == low
  }

  lemma Decided(oldest: Option<nat>, outside: seq<Table>, seqno: nat)
    requires Decides(oldest, outside)
    ensures (oldest.None? || oldest.value > seqno) <==> NothingOlderOutside(outside, seqno)
  {
  }

  lemma OneMoreOutside(oldest: Option<nat>, outside: seq<Table>, t: Table)
    requires Decides(oldest, outside)
    ensures Decides(if oldest.None? || t.minSeqno < oldest.value then Some(t.minSeqno) else oldest, outside + [t])
  {
    assert (outside + [t])[|outside|] == t;
    if oldest.Some? {
      var i :| 0 <= i < |outside| && outside[i].minSeqno == oldest.value;
      assert (outside + [t])[i] == outside[i];
    }
  }

  /** The smallest sequence number any table outside the job may hold. */
  method OldestOutside(ts: seq<Table>, ids: seq<nat>) returns (oldest: Option<nat>)
    ensures Decides(oldest, Without(ts, ids))
  {
    hide Decides;
    oldest := None;
    var i := 0;
    assert Decides(oldest, []) by {
      NothingDecided();
    }
    while i < |ts|
      invariant i <= |ts| && Decides(oldest, Without(ts[..i], ids))
    {
      assert ts[..i + 1][..i] == ts[..i];
      if ts[i].id !in ids {
        OneMoreOutside(oldest, Without(ts[..i], ids), ts[i]);
        if oldest.None? || ts[i].minSeqno < oldest.value {
          oldest := Some(ts[i].minSeqno);
        }
      } else {
        assert Without(ts[..i], ids) + [] == Without(ts[..i], ids);
      }
      i := i + 1;
    }
    assert ts[..|ts|] == ts;
  }

  lemma NothingDecided()
    ensures Decides(None, [])
  {
  }

  /** Whether the first input that covers a number is old enough. */
  method SourceIsAged(inputs: seq<Table>, aged: set<nat>, seqno: nat) returns (isAged: bool)
    ensures isAged == SourceAged(inputs, aged, seqno)
  {
    var i := 0;
    while i < |inputs|
      invariant i <= |inputs|
      invariant SourceAged(inputs, aged, seqno) == SourceAged(inputs[i..], aged, seqno)
    {
      assert inputs[i..][0] == inputs[i] && inputs[i..][1..] == inputs[i + 1..];
      if inputs[i].minSeqno <= seqno <= inputs[i].maxSeqno {
        return inputs[i].id in aged;
      }
      i := i + 1;
    }
    isAged := false;
  }

  lemma NothingKept(inputs: seq<Table>, outside: seq<Table>, aged: set<nat>)
    ensures ToMap([]) == map[] && Kept(map[], inputs, outside, aged) == map[]
  {
  }

  lemma KeptSubset(m: Mem, inputs: seq<Table>, outside: seq<Table>, aged: set<nat>)
    ensures forall key :: key in Kept(m, inputs, outside, aged) ==> key in m
  {
  }

  lemma KeptOneMore(m: Mem, key: bytes, e: Entry, inputs: seq<Table>, outside: seq<Table>, aged: set<nat>)
    requires key !in m
    ensures Kept(m[key := e], inputs, outside, aged)
            == if Droppable(e, inputs, outside, aged) then Kept(m, inputs, outside, aged)
              else Kept(m, inputs, outside, aged)[key := e]
  {
  }

  /** Copy what survives: tombstones go when their source is old and nothing outside is older. */
  method DropTombstones(merged: seq<Row>, inputs: seq<Table>, ts: seq<Table>, ids: seq<nat>, aged: set<nat>,
                        overhead: nat)
      returns (final: Memtable, tombstonesDropped: nat)
    requires Ordered(merged)
    ensures fresh(final) && final.Valid()
    ensures ToMap(final.rows) == Kept(ToMap(merged), inputs, Without(ts, ids), aged)
    ensures tombstonesDropped + |ToMap(final.rows)| == |merged|
  {
    hide SourceAged, NothingOlderOutside, Decides, Kept, ToMap, Ordered;
    ghost var outside := Without(ts, ids);
    var oldest := OldestOutside(ts, ids);
    final := new Memtable(overhead);
    tombstonesDropped := 0;
    var j := 0;
    NothingKept(inputs, outside, aged);
    assert merged[..0] == [];
    while j < |merged|
      invariant j <= |merged| && fresh(final) && final.Valid()
      invariant ToMap(final.rows) == Kept(ToMap(merged[..j]), inputs, outside, aged)
      invariant tombstonesDropped + |ToMap(final.rows)| == j
    {
      var row := merged[j];
      PrefixSnoc(merged, j);
      KeptOneMore(ToMap(merged[..j]), row.key, row.entry, inputs, outside, aged);
      KeptSubset(ToMap(merged[..j]), inputs, outside, aged);
      var isAged := SourceIsAged(inputs, aged, row.entry.seqno);
      var drop := row.entry.tombstone && isAged && (oldest.None? || oldest.value > row.entry.seqno);
      Decided(oldest, outside, row.entry.seqno);
      assert drop == Droppable(row.entry, inputs, outside, aged);
      if drop {
        tombstonesDropped := tombstonesDropped + 1;
      } else {
        final.Apply(row.key, row.entry.value, row.entry.seqno, row.entry.tombstone);
      }
      j := j + 1;
    }
    assert merged[..|merged|] == merged;
  }

  /** One job over a window: what it writes is what the window's readers would have seen, less the
      tombstones nobody needs. */
  method MergeWindow(ts: seq<Table>, from: nat, to: nat, scans: seq<seq<Row>>, aged: set<nat>, overhead: nat)
      returns (final: Memtable)
    requires from <= to <= |ts| && UniqueIds(ts) && |scans| == to - from
    requires forall i :: 0 <= i < |scans| ==> Ordered(scans[i]) && ToMap(scans[i]) == ts[from + i].data
    ensures fresh(final) && final.Valid() && ToMap(final.rows) == Output(ts, from, to, aged)
  {
    var inputs := ts[from..to];
    var merged, keysIn := MergeInputs(inputs, scans, overhead);
    OutsideWindow(ts, from, to);
    var dropped;
    final, dropped := DropTombstones(merged.rows, inputs, ts, Ids(inputs), aged, overhead);
  }
}
