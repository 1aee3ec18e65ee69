/** The list of live tables: the order its readers need, and what may be done to it. */
module Tables {
  import opened Bytes
  import opened Memtables
  import opened History

  datatype Table = Table(id: nat, data: Mem, minSeqno: nat, maxSeqno: nat, size: nat)

  /** The metadata of a table is the range of its entries. */
  ghost predicate TableOk(t: Table) {
    && t.data != map[]
    && (forall key :: key in t.data ==> t.minSeqno <= t.data[key].seqno <= t.maxSeqno)
    && (exists key :: key in t.data && t.data[key].seqno == t.minSeqno)
    && (exists key :: key in t.data && t.data[key].seqno == t.maxSeqno)
  }

  ghost predicate AllOk(ts: seq<Table>) {
    forall i :: 0 <= i < |ts| ==> TableOk(ts[i])
  }

  function Datas(ts: seq<Table>): (d: seq<Mem>)
    ensures |d| == |ts| && forall i :: 0 <= i < |ts| ==> d[i] == ts[i].data
  {
    seq(|ts|, i requires 0 <= i < |ts| => ts[i].data)
  }

  lemma DatasAppend(x: seq<Table>, y: seq<Table>)
    ensures Datas(x + y) == Datas(x) + Datas(y)
  {
  }

  // ----- picking tables out by number -----

  function Ids(ts: seq<Table>): (ids: seq<nat>)
    ensures |ids| == |ts| && forall i :: 0 <= i < |ts| ==> ids[i] == ts[i].id
  {
    seq(|ts|, i requires 0 <= i < |ts| => ts[i].id)
  }

  ghost predicate UniqueIds(ts: seq<Table>) {
    forall i, j :: 0 <= i < j < |ts| ==> ts[i].id != ts[j].id
  }

  /** The tables whose number is not listed. */
  function Without(ts: seq<Table>, ids: seq<nat>): seq<Table> {
    if ts == [] then []
    else Without(ts[..|ts| - 1], ids) + if ts[|ts| - 1].id in ids then [] else [ts[|ts| - 1]]
  }

  lemma {:induction false} WithoutAppend(x: seq<Table>, y: seq<Table>, ids: seq<nat>)
    ensures Without(x + y, ids) == Without(x, ids) + Without(y, ids)
    decreases |y|
  {
    if y == [] {
      assert x + y == x;
    } else {
      assert (x + y)[..|x + y| - 1] == x + y[..|y| - 1];
      WithoutAppend(x, y[..|y| - 1], ids);
    }
  }

  lemma {:induction false} WithoutAll(ts: seq<Table>, ids: seq<nat>)
    requires forall t :: t in ts ==> t.id in ids
    ensures Without(ts, ids) == []
    decreases |ts|
  {
    if ts != [] {
      WithoutAll(ts[..|ts| - 1], ids);
    }
  }

  lemma {:induction false} WithoutNone(ts: seq<Table>, ids: seq<nat>)
    requires forall t :: t in ts ==> t.id !in ids
    ensures Without(ts, ids) == ts
    decreases |ts|
  {
    if ts != [] {
      WithoutNone(ts[..|ts| - 1], ids);
      assert ts == ts[..|ts| - 1] + [ts[|ts| - 1]];
    }
  }

  lemma OtherIds(ts: seq<Table>, from: nat, to: nat, i: nat)
    requires from <= to <= |ts| && UniqueIds(ts) && i < |ts| && !(from <= i < to)
    ensures ts[i].id !in Ids(ts[from..to])
  {
    forall j | 0 <= j < to - from ensures ts[i].id != Ids(ts[from..to])[j] {
      assert ts[from + j].id == ts[from..to][j].id;
    }
  }

  lemma WithoutMiddle(a: seq<Table>, w: seq<Table>, b: seq<Table>, ids: seq<nat>)
    requires forall t :: t in w ==> t.id in ids
    requires forall t :: t in a || t in b ==> t.id !in ids
    ensures Without(a + w + b, ids) == a + b
  {
    hide Without;
    WithoutAppend(a + w, b, ids);
    WithoutAppend(a, w, ids);
    WithoutAll(w, ids);
    WithoutNone(a, ids);
    WithoutNone(b, ids);
  }

  lemma WindowIds(ts: seq<Table>, from: nat, to: nat)
    requires from <= to <= |ts| && UniqueIds(ts)
    ensures forall t :: t in ts[..from] || t in ts[to..] ==> t.id !in Ids(ts[from..to])
    ensures forall t :: t in ts[from..to] ==> t.id in Ids(ts[from..to])
  {
    hide UniqueIds, Ids;
    forall t | t in ts[from..to] ensures t.id in Ids(ts[from..to]) {
      ListedId(ts[from..to], t);
    }
    forall i | 0 <= i < |ts| && !(from <= i < to) ensures ts[i].id !in Ids(ts[from..to]) {
      OtherIds(ts, from, to, i);
    }
  }

  /** Leaving out the numbers of one window leaves the tables on either side of it. */
  lemma WithoutWindow(ts: seq<Table>, from: nat, to: nat)
    requires from <= to <= |ts| && UniqueIds(ts)
    ensures Without(ts, Ids(ts[from..to])) == ts[..from] + ts[to..]
  {
    hide UniqueIds, Ids;
    WindowIds(ts, from, to);
    WithoutMiddle(ts[..from], ts[from..to], ts[to..], Ids(ts[from..to]));
    assert ts == ts[..from] + ts[from..to] + ts[to..];
  }

  lemma ListedId(ts: seq<Table>, t: Table)
    requires t in ts
    ensures t.id in Ids(ts)
  {
    var i :| 0 <= i < |ts| && ts[i] == t;
    assert Ids(ts)[i] == t.id;
  }

  // ----- the order of the list -----

  /** Sequence ranges are disjoint and fall from the newest table to the oldest. */
  ghost predicate WellOrdered(ts: seq<Table>) {
    forall i, j :: 0 <= i < j < |ts| ==> ts[i].minSeqno > ts[j].maxSeqno
  }

  ghost predicate Descending(ts: seq<Table>) {
    forall i, j :: 0 <= i < j < |ts| ==> ts[i].maxSeqno >= ts[j].maxSeqno
  }

  /** Some result of sorting by maximum sequence number; ties may come out in any order. */
  ghost predicate SortedFrom(order: seq<Table>, ts: seq<Table>) {
    Descending(order) && multiset(order) == multiset(ts)
  }

  lemma SortedMembers(order: seq<Table>, ts: seq<Table>)
    requires SortedFrom(order, ts)
    ensures |order| == |ts| && forall t :: t in order <==> t in ts
  {
    assert |multiset(order)| == |multiset(ts)|;
    forall t ensures t in order <==> t in ts {
      assert t in order <==> t in multiset(order);
      assert t in ts <==> t in multiset(ts);
    }
  }

  function MaxSeqnoOf(ts: seq<Table>): nat {
    if ts == [] then 0
    else
      var m := MaxSeqnoOf(ts[..|ts| - 1]);
      var last := ts[|ts| - 1].maxSeqno;
      if m < last then last else m
  }

  lemma {:induction false} MaxSeqnoBound(ts: seq<Table>)
    ensures forall t :: t in ts ==> t.maxSeqno <= MaxSeqnoOf(ts)
    ensures ts != [] ==> exists t :: t in ts && t.maxSeqno == MaxSeqnoOf(ts)
    decreases |ts|
  {
    if ts != [] {
      var front, last := ts[..|ts| - 1], ts[|ts| - 1];
      MaxSeqnoBound(front);
      assert ts == front + [last];
      if front != [] {
        var t :| t in front && t.maxSeqno == MaxSeqnoOf(front);
        assert t in ts;
      }
      assert last in ts;
    }
  }

  lemma OkRange(t: Table)
    requires TableOk(t)
    ensures t.minSeqno <= t.maxSeqno
  {
  }

  lemma TopStays(order: seq<Table>, ts: seq<Table>)
    requires SortedFrom(order, ts) && WellOrdered(ts) && AllOk(ts) && ts != []
    ensures order != [] && order[0] == ts[0]
  {
    SortedMembers(order, ts);
    assert order[0] in ts && ts[0] in order;
    var i :| 0 <= i < |ts| && ts[i] == order[0];
    var j :| 0 <= j < |order| && order[j] == ts[0];
    OkRange(ts[0]);
  }

  lemma RestSorted(order: seq<Table>, ts: seq<Table>)
    requires SortedFrom(order, ts) && order != [] && ts != [] && order[0] == ts[0]
    ensures SortedFrom(order[1..], ts[1..])
  {
    assert order == [order[0]] + order[1..] && ts == [ts[0]] + ts[1..];
    assert multiset(order[1..]) == multiset(order) - multiset{order[0]};
    assert multiset(ts[1..]) == multiset(ts) - multiset{ts[0]};
  }

  /** On a well-ordered list sorting changes nothing, whatever it does with ties. */
  lemma {:induction false} SortKeepsWellOrdered(order: seq<Table>, ts: seq<Table>)
    requires SortedFrom(order, ts) && WellOrdered(ts) && AllOk(ts)
    ensures order == ts
    decreases |ts|
  {
    hide TableOk;
    SortedMembers(order, ts);
    if ts != [] {
      TopStays(order, ts);
      RestSorted(order, ts);
      SortKeepsWellOrdered(order[1..], ts[1..]);
      assert order == [order[0]] + order[1..] && ts == [ts[0]] + ts[1..];
    }
  }

  // ----- tables that may overlap: every entry is exact up to its table's maximum -----

  /** Numbered by position, as in every run without compaction. */
  ghost predicate Numbered(h: seq<Record>) {
    forall i :: 0 <= i < |h| ==> h[i].seqno == i + 1
  }

  /** Each entry is the last mutation of its key up to the table's maximum. */
  ghost predicate Exact(t: Table, h: seq<Record>) {
    t.maxSeqno <= |h| && forall key :: key in t.data ==> LastEntry(h[..t.maxSeqno], key) == Some(t.data[key])
  }

  /** Mutation p is in some table, or a later one of its key is. */
  ghost predicate AccountedAt(ts: seq<Table>, h: seq<Record>, p: nat)
    requires p < |h|
  {
    exists i :: 0 <= i < |ts| && h[p].key in ts[i].data && ts[i].data[h[p].key].seqno > p
  }

  ghost predicate Accounted(ts: seq<Table>, h: seq<Record>, n: nat) {
    n <= |h| && forall p :: 0 <= p < n ==> AccountedAt(ts, h, p)
  }

  lemma {:induction false} FirstTable(ts: seq<Table>, key: bytes) returns (i: nat)
    requires exists j :: 0 <= j < |ts| && key in ts[j].data
    ensures i < |ts| && key in ts[i].data && First(Datas(ts), key) == Some(ts[i].data[key])
    ensures forall j :: 0 <= j < i ==> key !in ts[j].data
    decreases |ts|
  {
    assert Datas(ts)[1..] == Datas(ts[1..]);
    if key in ts[0].data {
      i := 0;
    } else {
      var j :| 0 <= j < |ts| && key in ts[j].data;
      assert ts[1..][j - 1] == ts[j];
      i := FirstTable(ts[1..], key);
      i := i + 1;
    }
  }

  lemma {:induction false} NoTable(ts: seq<Table>, key: bytes)
    requires forall j :: 0 <= j < |ts| ==> key !in ts[j].data
    ensures First(Datas(ts), key) == None
    decreases |ts|
  {
    if ts != [] {
      assert Datas(ts)[1..] == Datas(ts[1..]);
      NoTable(ts[1..], key);
    }
  }

  /** An exact entry is the mutation its number names. */
  lemma ExactNumber(t: Table, h: seq<Record>, key: bytes)
    requires Numbered(h) && Exact(t, h) && key in t.data
    ensures LastIndex(h[..t.maxSeqno], key).Some?
    ensures t.data[key].seqno == LastIndex(h[..t.maxSeqno], key).value + 1
  {
    assert LastEntry(h[..t.maxSeqno], key) == Some(t.data[key]);
  }

  lemma ExactTouches(t: Table, h: seq<Record>, key: bytes, n: nat)
    requires Numbered(h) && Exact(t, h) && key in t.data && t.maxSeqno <= n <= |h|
    ensures Touches(h[..n], key)
  {
    ExactNumber(t, h, key);
    assert h[..n][LastIndex(h[..t.maxSeqno], key).value].key == key;
  }

  /** The first table with the key holds its last mutation, if some table holds one as late. */
  lemma NewestIsExact(order: seq<Table>, h: seq<Record>, n: nat, key: bytes, q: nat, a: nat, f: nat)
    requires Numbered(h) && Descending(order) && f <= a < |order| && Exact(order[a], h) && Exact(order[f], h)
    requires key in order[a].data && order[a].data[key].seqno > q && key in order[f].data
             && order[f].maxSeqno <= n <= |h|
    requires LastIndex(h[..n], key) == Some(q)
    ensures Some(order[f].data[key]) == LastEntry(h[..n], key)
  {
    hide LastIndex, Numbered;
    ExactNumber(order[a], h, key);
    LastWithin(h, order[f].maxSeqno, n, key, q);
  }

  /** Sorted by maximum, exact tables that account for the first n mutations read them all,
      however their ranges overlap. */
  lemma SortedExactReads(order: seq<Table>, h: seq<Record>, n: nat, key: bytes)
    requires Numbered(h) && Descending(order) && Accounted(order, h, n)
    requires forall i :: 0 <= i < |order| ==> Exact(order[i], h) && order[i].maxSeqno <= n
    ensures First(Datas(order), key) == LastEntry(h[..n], key)
  {
    hide Exact, Numbered, Descending, Datas, First;
    LastIndexIsLast(h[..n], key);
    if Touches(h[..n], key) {
      var q := LastIndex(h[..n], key).value;
      assert AccountedAt(order, h, q) && h[q].key == key;
      var a :| 0 <= a < |order| && key in order[a].data && order[a].data[key].seqno > q;
      var f := FirstTable(order, key);
      NewestIsExact(order, h, n, key, q, a, f);
    } else {
      forall j | 0 <= j < |order| ensures key !in order[j].data {
        if key in order[j].data {
          ExactTouches(order[j], h, key, n);
        }
      }
      NoTable(order, key);
    }
  }
}
