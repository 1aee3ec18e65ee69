/** Compaction: which window of tables is merged, how, and why readers cannot tell. */
module Compaction {
  import opened Bytes
  import opened Memtables
  import opened History
  import opened Tables

  // ----- the merge as a function -----

  /** Newest table first: a newer entry overwrites an older one. */
  function Merge(ts: seq<Table>): Mem {
    if ts == [] then map[] else Merge(ts[1..]) + ts[0].data
  }

  lemma {:induction false} MergeReads(ts: seq<Table>, key: bytes)
    ensures First(Datas(ts), key) == if key in Merge(ts) then Some(Merge(ts)[key]) else None
    ensures key in Merge(ts) ==> exists i :: 0 <= i < |ts| && key in ts[i].data && ts[i].data[key] == Merge(ts)[key]
    decreases |ts|
  {
    if ts != [] {
      assert Datas(ts)[1..] == Datas(ts[1..]);
      MergeReads(ts[1..], key);
      if key in Merge(ts) && key !in ts[0].data {
        var i :| 0 <= i < |ts[1..]| && key in ts[1..][i].data && ts[1..][i].data[key] == Merge(ts[1..])[key];
        assert ts[i + 1] == ts[1..][i];
      }
    }
  }

  /** The age of an entry is the age of the first input whose range holds its number. */
  predicate SourceAged(inputs: seq<Table>, aged: set<nat>, seqno: nat) {
    if inputs == [] then false
    else if inputs[0].minSeqno <= seqno <= inputs[0].maxSeqno then inputs[0].id in aged
    else SourceAged(inputs[1..], aged, seqno)
  }

  predicate NothingOlderOutside(outside: seq<Table>, seqno: nat) {
    forall i :: 0 <= i < |outside| ==> outside[i].minSeqno > seqno
  }

  predicate Droppable(e: Entry, inputs: seq<Table>, outside: seq<Table>, aged: set<nat>) {
    e.tombstone && SourceAged(inputs, aged, e.seqno) && NothingOlderOutside(outside, e.seqno)
  }

  function Kept(m: Mem, inputs: seq<Table>, outside: seq<Table>, aged: set<nat>): Mem {
    map key | key in m && !Droppable(m[key], inputs, outside, aged) :: m[key]
  }

  function Outside(ts: seq<Table>, from: nat, to: nat): seq<Table>
    requires from <= to <= |ts|
  {
    ts[..from] + ts[to..]
  }

  lemma OutsideWindow(ts: seq<Table>, from: nat, to: nat)
    requires from <= to <= |ts| && UniqueIds(ts)
    ensures Without(ts, Ids(ts[from..to])) == Outside(ts, from, to)
  {
    WithoutWindow(ts, from, to);
  }

  function Output(ts: seq<Table>, from: nat, to: nat, aged: set<nat>): Mem
    requires from <= to <= |ts|
  {
    Kept(Merge(ts[from..to]), ts[from..to], Outside(ts, from, to), aged)
  }

  function Listed(out: Option<Table>): seq<Table> {
    if out.Some? then [out.value] else []
  }

  /** The output table carries exactly what survives, or there is none if nothing does. */
  ghost predicate Outputs(ts: seq<Table>, from: nat, to: nat, aged: set<nat>, out: Option<Table>)
    requires from <= to <= |ts|
  {
    match out
    case None => Output(ts, from, to, aged) == map[]
    case Some(t) => t.data == Output(ts, from, to, aged) && TableOk(t)
  }

  function Replaced(ts: seq<Table>, from: nat, to: nat, out: Option<Table>): seq<Table>
    requires from <= to <= |ts|
  {
    ts[..from] + Listed(out) + ts[to..]
  }

  lemma OutputSource(ts: seq<Table>, from: nat, to: nat, aged: set<nat>, key: bytes) returns (m: nat)
    requires from <= to <= |ts| && AllOk(ts) && key in Output(ts, from, to, aged)
    ensures from <= m < to
    ensures ts[m].minSeqno <= Output(ts, from, to, aged)[key].seqno <= ts[m].maxSeqno
  {
    m := WindowSource(ts, from, to, key);
    assert TableOk(ts[m]);
  }

  /** The output's range lies within the window's, so it keeps its place among the others. */
  lemma OutputBetween(ts: seq<Table>, from: nat, to: nat, aged: set<nat>, t: Table, other: nat)
    requires from < to <= |ts| && WellOrdered(ts) && AllOk(ts) && Outputs(ts, from, to, aged, Some(t))
    requires other < |ts|
    ensures other < from ==> ts[other].minSeqno > t.maxSeqno
    ensures other >= to ==> t.minSeqno > ts[other].maxSeqno
    ensures from <= other < to || t.maxSeqno <= MaxSeqnoOf(ts)
    ensures t.maxSeqno <= MaxSeqnoOf(ts)
  {
    hide Merge, Kept, Output, TableOk;
    MaxEntry(t);
    var k0 :| k0 in t.data && t.data[k0].seqno == t.minSeqno;
    var k1 :| k1 in t.data && t.data[k1].seqno == t.maxSeqno;
    var m0 := OutputSource(ts, from, to, aged, k0);
    var m1 := OutputSource(ts, from, to, aged, k1);
    MaxSeqnoBound(ts);
    assert ts[m1] in ts;
  }

  lemma MaxEntry(t: Table)
    requires TableOk(t)
    ensures exists key :: key in t.data && t.data[key].seqno == t.minSeqno
    ensures exists key :: key in t.data && t.data[key].seqno == t.maxSeqno
  {
  }

  /** Where a table of the new list comes from: its old place, or nowhere if it is the output. */
  lemma ReplacedAt(ts: seq<Table>, from: nat, to: nat, out: Option<Table>, i: nat) returns (x: nat)
    requires from < to <= |ts| && i < |Replaced(ts, from, to, out)|
    ensures i < from ==> x == i
    ensures i >= from && !(out.Some? && i == from) ==> x == i - |Listed(out)| + (to - from) && to <= x
    ensures out.Some? && i == from ==> Replaced(ts, from, to, out)[i] == out.value
    ensures !(out.Some? && i == from) ==> x < |ts| && Replaced(ts, from, to, out)[i] == ts[x]
  {
    x := if i < from then i else i + (to - from) - if out.Some? && i > from then 1 else 0;
  }

  lemma ReplacedWellOrdered(ts: seq<Table>, from: nat, to: nat, aged: set<nat>, out: Option<Table>)
    requires from < to <= |ts| && WellOrdered(ts) && AllOk(ts) && Outputs(ts, from, to, aged, out)
    ensures WellOrdered(Replaced(ts, from, to, out))
  {
    hide Merge, Output, TableOk, Outputs, AllOk, Replaced, Listed;
    var r := Replaced(ts, from, to, out);
    forall i, j | 0 <= i < j < |r| ensures r[i].minSeqno > r[j].maxSeqno {
      var x := ReplacedAt(ts, from, to, out, i);
      var y := ReplacedAt(ts, from, to, out, j);
      if out.Some? && i == from {
        OutputBetween(ts, from, to, aged, out.value, y);
      } else if out.Some? && j == from {
        OutputBetween(ts, from, to, aged, out.value, x);
      }
    }
  }

  lemma ReplacedOk(ts: seq<Table>, from: nat, to: nat, aged: set<nat>, out: Option<Table>)
    requires from < to <= |ts| && WellOrdered(ts) && AllOk(ts) && Outputs(ts, from, to, aged, out)
    ensures AllOk(Replaced(ts, from, to, out))
    ensures forall t :: t in Replaced(ts, from, to, out) ==> t.maxSeqno <= MaxSeqnoOf(ts)
  {
    hide Merge, Output, TableOk, Replaced, Listed;
    var r := Replaced(ts, from, to, out);
    MaxSeqnoBound(ts);
    forall i | 0 <= i < |r| ensures TableOk(r[i]) && r[i].maxSeqno <= MaxSeqnoOf(ts) {
      var x := ReplacedAt(ts, from, to, out, i);
      if out.Some? && i == from {
        OutputBetween(ts, from, to, aged, out.value, 0);
      } else {
        assert ts[x] in ts;
      }
    }
  }

  lemma WindowSource(ts: seq<Table>, from: nat, to: nat, key: bytes) returns (m: nat)
    requires from <= to <= |ts| && key in Merge(ts[from..to])
    ensures from <= m < to && key in ts[m].data && ts[m].data[key] == Merge(ts[from..to])[key]
  {
    MergeReads(ts[from..to], key);
    var i :| 0 <= i < to - from && key in ts[from..to][i].data && ts[from..to][i].data[key] == Merge(ts[from..to])[key];
    m := from + i;
  }

  /** A table below the window holds something older than anything in it. */
  lemma OlderBelow(ts: seq<Table>, from: nat, to: nat, m: nat, key: bytes)
    requires from <= m < to < |ts| && WellOrdered(ts) && AllOk(ts) && key in ts[m].data
    ensures !NothingOlderOutside(Outside(ts, from, to), ts[m].data[key].seqno)
  {
    assert TableOk(ts[m]) && TableOk(ts[to]);
    OkRange(ts[to]);
    assert Outside(ts, from, to)[from] == ts[to];
  }

  /** A droppable tombstone has nothing below it. */
  lemma DroppedIsBottom(ts: seq<Table>, from: nat, to: nat, aged: set<nat>, key: bytes)
    requires from < to <= |ts| && WellOrdered(ts) && AllOk(ts)
    requires key in Merge(ts[from..to]) && key !in Output(ts, from, to, aged)
    ensures to == |ts| && Merge(ts[from..to])[key].tombstone
  {
    hide WellOrdered, AllOk, Merge, SourceAged, NothingOlderOutside;
    var m := WindowSource(ts, from, to, key);
    if to < |ts| {
      OlderBelow(ts, from, to, m, key);
    }
  }

  // ----- what is dropped, over the tables themselves -----

  /** In a well-ordered list only one table's range holds the number of an entry. */
  lemma {:induction false} SourceIsHolder(ts: seq<Table>, from: nat, to: nat, aged: set<nat>, m: nat, seqno: nat)
    requires from <= m < to <= |ts| && WellOrdered(ts) && AllOk(ts)
    requires ts[m].minSeqno <= seqno <= ts[m].maxSeqno
    ensures SourceAged(ts[from..to], aged, seqno) <==> ts[m].id in aged
    decreases m - from
  {
    var w := ts[from..to];
    assert w[0] == ts[from] && w[1..] == ts[from + 1..to];
    if from < m {
      assert ts[from].minSeqno > ts[m].maxSeqno;
      SourceIsHolder(ts, from + 1, to, aged, m, seqno);
    }
  }

  lemma {:induction false} FirstOfWindow(ts: seq<Table>, from: nat, to: nat, m: nat, key: bytes)
    requires from <= m < to <= |ts| && key in ts[m].data && forall j :: from <= j < m ==> key !in ts[j].data
    ensures key in Merge(ts[from..to]) && Merge(ts[from..to])[key] == ts[m].data[key]
  {
    var w := ts[from..to];
    MergeReads(w, key);
    assert w[m - from] == ts[m];
    FirstHit(Datas(w), key, m - from);
  }

  lemma OutsideAll(ts: seq<Table>, from: nat, to: nat, seqno: nat)
    requires from <= to <= |ts|
    ensures (forall j :: 0 <= j < |Outside(ts, from, to)| ==> Outside(ts, from, to)[j].minSeqno > seqno)
            <==> forall j :: 0 <= j < |ts| && !(from <= j < to) ==> ts[j].minSeqno > seqno
  {
    var out := Outside(ts, from, to);
    if forall j :: 0 <= j < |out| ==> out[j].minSeqno > seqno {
      forall j | 0 <= j < |ts| && !(from <= j < to) ensures ts[j].minSeqno > seqno {
        var x := if j < from then j else j - (to - from);
        assert out[x] == ts[j];
      }
    }
  }

  /** The drop rule. The entry of a key in the newest table of the window that has one is left out if
      and only if it is a tombstone, that table is older than the grace period, and every table
      outside the job holds only newer mutations; otherwise the output holds it unchanged. */
  lemma DropRule(ts: seq<Table>, from: nat, to: nat, aged: set<nat>, m: nat, key: bytes)
    requires from <= m < to <= |ts| && WellOrdered(ts) && AllOk(ts)
    requires key in ts[m].data && forall j :: from <= j < m ==> key !in ts[j].data
    ensures var e := ts[m].data[key];
            key !in Output(ts, from, to, aged) <==>
            && e.tombstone && ts[m].id in aged
            && forall j :: 0 <= j < |ts| && !(from <= j < to) ==> ts[j].minSeqno > e.seqno
    ensures key in Output(ts, from, to, aged) ==> Output(ts, from, to, aged)[key] == ts[m].data[key]
  {
    hide WellOrdered, AllOk, Merge, SourceAged, Outside;
    var e := ts[m].data[key];
    FirstOfWindow(ts, from, to, m, key);
    assert ts[m].minSeqno <= e.seqno <= ts[m].maxSeqno by {
      EntryInRange(ts, m, key);
    }
    SourceIsHolder(ts, from, to, aged, m, e.seqno);
    OutsideAll(ts, from, to, e.seqno);
  }

  lemma EntryInRange(ts: seq<Table>, m: nat, key: bytes)
    requires m < |ts| && AllOk(ts) && key in ts[m].data
    ensures ts[m].minSeqno <= ts[m].data[key].seqno <= ts[m].maxSeqno
  {
    assert TableOk(ts[m]);
  }

  /** A key that no table of the window has is not in the output. */
  lemma NothingInvented(ts: seq<Table>, from: nat, to: nat, aged: set<nat>, key: bytes)
    requires from <= to <= |ts| && forall j :: from <= j < to ==> key !in ts[j].data
    ensures key !in Output(ts, from, to, aged)
  {
    if key in Output(ts, from, to, aged) {
      var m := WindowSource(ts, from, to, key);
    }
  }

  lemma ReplacedReads(ts: seq<Table>, from: nat, to: nat, aged: set<nat>, out: Option<Table>, key: bytes)
    requires from < to <= |ts| && WellOrdered(ts) && AllOk(ts) && Outputs(ts, from, to, aged, out)
    ensures Read(Datas(Replaced(ts, from, to, out)), key) == Read(Datas(ts), key)
  {
    hide WellOrdered, AllOk, Merge, TableOk, First;
    var a, w, b := ts[..from], ts[from..to], ts[to..];
    assert ts == a + w + b;
    DatasAppend(a + w, b);
    DatasAppend(a, w);
    DatasAppend(a + Listed(out), b);
    DatasAppend(a, Listed(out));
    FirstAppend(Datas(a) + Datas(w), Datas(b), key);
    FirstAppend(Datas(a), Datas(w), key);
    FirstAppend(Datas(a) + Datas(Listed(out)), Datas(b), key);
    FirstAppend(Datas(a), Datas(Listed(out)), key);
    MergeReads(w, key);
    ListedReads(out, key);
    if key in Merge(w) && key !in Output(ts, from, to, aged) {
      DroppedIsBottom(ts, from, to, aged, key);
      assert b == [];
      NoTable(b, key);
    }
  }

  lemma ListedReads(out: Option<Table>, key: bytes)
    ensures First(Datas(Listed(out)), key)
            == if out.Some? && key in out.value.data then Some(out.value.data[key]) else None
  {
    if out.Some? {
      assert Datas([out.value]) == [out.value.data];
      assert [out.value.data][1..] == [];
    }
  }

  /** Compaction preserves every reading. From a well-ordered list, merging any adjacent window,
      dropping only what the drop rule allows, and re-sorting leaves the list well-ordered, with
      the output in the window's place, and every key reading as before. */
  lemma CompactionPreservesReads(ts: seq<Table>, from: nat, to: nat, aged: set<nat>, out: Option<Table>,
                                 order: seq<Table>)
    requires from < to <= |ts| && WellOrdered(ts) && AllOk(ts) && Outputs(ts, from, to, aged, out)
    requires SortedFrom(order, Outside(ts, from, to) + Listed(out))
    ensures order == Replaced(ts, from, to, out)
    ensures WellOrdered(order) && AllOk(order) && (forall t :: t in order ==> t.maxSeqno <= MaxSeqnoOf(ts))
    ensures forall key :: Read(Datas(order), key) == Read(Datas(ts), key)
  {
    hide Outputs, TableOk, WellOrdered, Read;
    ReplacedWellOrdered(ts, from, to, aged, out);
    ReplacedOk(ts, from, to, aged, out);
    var r := Replaced(ts, from, to, out);
    assert multiset(Outside(ts, from, to) + Listed(out))
           == multiset(ts[..from]) + multiset(ts[to..]) + multiset(Listed(out));
    assert multiset(r) == multiset(ts[..from]) + multiset(Listed(out)) + multiset(ts[to..]);
    SortKeepsWellOrdered(order, r);
    forall key ensures Read(Datas(order), key) == Read(Datas(ts), key) {
      ReplacedReads(ts, from, to, aged, out, key);
    }
  }
}
