/** What the store promises: a key reads as its latest mutation says. And how stacks of tables
    keep that promise. */
module History {
  import opened Bytes
  import opened Memtables

  function ToEntry(r: Record): Entry {
    Entry(r.value, r.seqno, r.tombstone)
  }

  /** The index of the last mutation of a key. */
  function LastIndex(h: seq<Record>, key: bytes): (r: Option<nat>)
    ensures r.Some? ==> r.value < |h| && h[r.value].key == key
  {
    if h == [] then None
    else if h[|h| - 1].key == key then Some(|h| - 1)
    else LastIndex(h[..|h| - 1], key)
  }

  function LastEntry(h: seq<Record>, key: bytes): Option<Entry> {
    var i := LastIndex(h, key);
    if i.Some? then Some(ToEntry(h[i.value])) else None
  }

  /** A tombstone reads as absent. */
  function Reading(e: Option<Entry>): Option<bytes> {
    if e.Some? && !e.value.tombstone then Some(e.value.value) else None
  }

  /** The specification: what a key reads after a history of mutations. */
  function Latest(h: seq<Record>, key: bytes): Option<bytes> {
    Reading(LastEntry(h, key))
  }

  predicate Touches(h: seq<Record>, key: bytes) {
    exists i :: 0 <= i < |h| && h[i].key == key
  }

  /** Applying mutations in order to an empty memtable. */
  function Replay(h: seq<Record>): Mem {
    if h == [] then map[] else Replay(h[..|h| - 1])[h[|h| - 1].key := ToEntry(h[|h| - 1])]
  }

  /** First hit over a stack of tables, newest first. */
  function First(layers: seq<Mem>, key: bytes): Option<Entry> {
    if layers == [] then None
    else if key in layers[0] then Some(layers[0][key])
    else First(layers[1..], key)
  }

  function Read(layers: seq<Mem>, key: bytes): Option<bytes> {
    Reading(First(layers, key))
  }

  // ----- histories -----

  lemma {:induction false} LastIndexIsLast(h: seq<Record>, key: bytes)
    ensures LastIndex(h, key) == None <==> !Touches(h, key)
    ensures forall i :: 0 <= i < |h| && h[i].key == key ==> LastIndex(h, key).Some? && i <= LastIndex(h, key).value
    decreases |h|
  {
    if h != [] {
      var front := h[..|h| - 1];
      LastIndexIsLast(front, key);
      assert forall i :: 0 <= i < |front| ==> h[i] == front[i];
    }
  }

  lemma LastIndexUnique(h: seq<Record>, key: bytes, i: nat)
    requires i < |h| && h[i].key == key && forall j :: i < j < |h| ==> h[j].key != key
    ensures LastIndex(h, key) == Some(i)
  {
    LastIndexIsLast(h, key);
  }

  /** What the specification says over the mutations themselves: the value of the last one, absent
      after a delete, and absent when there is none. */
  lemma LatestIsLastValue(h: seq<Record>, key: bytes, i: nat)
    requires i < |h| && h[i].key == key && forall j :: i < j < |h| ==> h[j].key != key
    ensures Latest(h, key) == if h[i].tombstone then None else Some(h[i].value)
  {
    LastIndexUnique(h, key, i);
  }

  lemma UntouchedIsAbsent(h: seq<Record>, key: bytes)
    requires forall i :: 0 <= i < |h| ==> h[i].key != key
    ensures Latest(h, key) == None
  {
    LastIndexIsLast(h, key);
  }

  /** One more mutation decides its own key and no other. */
  lemma LatestAfter(h: seq<Record>, r: Record)
    ensures Latest(h + [r], r.key) == if r.tombstone then None else Some(r.value)
    ensures forall key :: key != r.key ==> Latest(h + [r], key) == Latest(h, key)
  {
    LatestIsLastValue(h + [r], r.key, |h|);
    assert (h + [r])[..|h|] == h;
  }

  /** The last mutation of a key is still the last in any shorter history that includes it. */
  lemma LastWithin(h: seq<Record>, m: nat, n: nat, key: bytes, q: nat)
    requires q < m <= n <= |h| && LastIndex(h[..n], key) == Some(q)
    ensures LastIndex(h[..m], key) == Some(q)
  {
    hide LastIndex;
    LastIndexIsLast(h[..n], key);
    assert h[..n][q].key == key;
    forall j | q < j < m ensures h[..m][j].key != key {
      assert h[..n][j] == h[j];
    }
    LastIndexUnique(h[..m], key, q);
  }

  /** A later stretch that mentions the key decides its entry; otherwise the earlier one does. */
  lemma LastEntryAppend(x: seq<Record>, y: seq<Record>, key: bytes)
    ensures LastEntry(x + y, key) == if Touches(y, key) then LastEntry(y, key) else LastEntry(x, key)
    ensures Touches(x + y, key) <==> Touches(x, key) || Touches(y, key)
  {
    var h := x + y;
    LastIndexIsLast(x, key);
    LastIndexIsLast(y, key);
    assert forall i :: 0 <= i < |y| ==> h[|x| + i] == y[i];
    assert forall i :: 0 <= i < |x| ==> h[i] == x[i];
    if Touches(y, key) {
      var i := LastIndex(y, key).value;
      forall j | |x| + i < j < |h| ensures h[j].key != key {
        assert h[j] == y[j - |x|];
      }
      LastIndexUnique(h, key, |x| + i);
    } else if Touches(x, key) {
      var i := LastIndex(x, key).value;
      forall j | i < j < |h| ensures h[j].key != key {
        if j >= |x| {
          assert h[j] == y[j - |x|];
        }
      }
      LastIndexUnique(h, key, i);
    } else {
      LastIndexIsLast(h, key);
    }
  }

  lemma TouchesSub(h: seq<Record>, a: nat, b: nat, c: nat, d: nat, key: bytes)
    requires c <= a <= b <= d <= |h| && Touches(h[a..b], key)
    ensures Touches(h[c..d], key)
  {
    var i :| 0 <= i < b - a && h[a..b][i].key == key;
    assert h[c..d][a - c + i].key == key;
  }

  /** An untouched stretch does not change what a key reads. */
  lemma LatestAcross(h: seq<Record>, a: nat, b: nat, key: bytes)
    requires a <= b <= |h|
    ensures LastEntry(h[..b], key) == if Touches(h[a..b], key) then LastEntry(h[a..b], key) else LastEntry(h[..a], key)
  {
    assert h[..b] == h[..a] + h[a..b];
    LastEntryAppend(h[..a], h[a..b], key);
  }

  lemma {:induction false} ReplayIsLast(h: seq<Record>, key: bytes)
    ensures key in Replay(h) <==> Touches(h, key)
    ensures key in Replay(h) ==> LastEntry(h, key) == Some(Replay(h)[key])
    decreases |h|
  {
    if h != [] {
      var front, last := h[..|h| - 1], h[|h| - 1];
      ReplayIsLast(front, key);
      assert h == front + [last];
      LastEntryAppend(front, [last], key);
      if key == last.key {
        assert [last][0].key == key;
        LastIndexUnique([last], key, 0);
      } else {
        assert !Touches([last], key);
      }
    }
  }

  lemma ReplayOneMore(h: seq<Record>, a: nat, b: nat)
    requires a <= b < |h|
    ensures Replay(h[a..b + 1]) == Replay(h[a..b])[h[b].key := ToEntry(h[b])]
  {
    assert h[a..b + 1][..b - a] == h[a..b];
  }

  // ----- stacks -----

  lemma {:induction false} FirstAppend(x: seq<Mem>, y: seq<Mem>, key: bytes)
    ensures First(x + y, key) == if First(x, key).Some? then First(x, key) else First(y, key)
    decreases |x|
  {
    if x == [] {
      assert x + y == y;
    } else {
      assert (x + y)[1..] == x[1..] + y;
      FirstAppend(x[1..], y, key);
    }
  }

  lemma {:induction false} SkipLayers(layers: seq<Mem>, key: bytes, i: nat)
    requires i <= |layers| && forall j :: 0 <= j < i ==> key !in layers[j]
    ensures First(layers, key) == First(layers[i..], key)
    decreases i
  {
    if i == 0 {
      assert layers[0..] == layers;
    } else {
      SkipLayers(layers, key, i - 1);
      assert layers[i - 1..][0] == layers[i - 1] && layers[i - 1..][1..] == layers[i..];
    }
  }

  lemma FirstHit(layers: seq<Mem>, key: bytes, i: nat)
    requires i < |layers| && (forall j :: 0 <= j < i ==> key !in layers[j]) && key in layers[i]
    ensures First(layers, key) == Some(layers[i][key])
  {
    SkipLayers(layers, key, i);
    assert layers[i..][0] == layers[i];
  }

  lemma NoHit(layers: seq<Mem>, key: bytes)
    requires forall j :: 0 <= j < |layers| ==> key !in layers[j]
    ensures First(layers, key) == None
  {
    SkipLayers(layers, key, |layers|);
    assert layers[|layers|..] == [];
  }

  lemma FirstCons(m: Mem, layers: seq<Mem>, key: bytes)
    ensures First([m] + layers, key) == if key in m then Some(m[key]) else First(layers, key)
  {
    assert ([m] + layers)[1..] == layers;
  }

  /** The stack reads every key as the first `a` mutations say, except that keys mutated
      between `a` and `e` may already read ahead. */
  ghost predicate ReadsTo(layers: seq<Mem>, h: seq<Record>, a: nat, e: nat) {
    a <= e <= |h| && forall key :: !Touches(h[a..e], key) ==> Read(layers, key) == Latest(h[..a], key)
  }

  /** A memtable holding mutations a..b on top of such a stack. */
  lemma PushLayer(layers: seq<Mem>, h: seq<Record>, a: nat, b: nat, e: nat, m: Mem)
    requires ReadsTo(layers, h, a, e) && a <= b <= e && m == Replay(h[a..b])
    ensures ReadsTo([m] + layers, h, b, e)
  {
    forall key | !Touches(h[b..e], key) ensures Read([m] + layers, key) == Latest(h[..b], key) {
      FirstCons(m, layers, key);
      ReplayIsLast(h[a..b], key);
      LatestAcross(h, a, b, key);
      if !Touches(h[a..b], key) {
        assert h[a..e] == h[a..b] + h[b..e];
        LastEntryAppend(h[a..b], h[b..e], key);
      }
    }
  }

  lemma ReadsToLater(layers: seq<Mem>, h: seq<Record>, a: nat, e: nat, later: seq<Record>, f: nat)
    requires ReadsTo(layers, h, a, e) && h <= later && e <= f <= |later|
    ensures ReadsTo(layers, later, a, f)
  {
    assert later[..a] == h[..a];
    forall key | !Touches(later[a..f], key) ensures Read(layers, key) == Latest(later[..a], key) {
      assert h[a..e] == later[a..e];
      if Touches(h[a..e], key) {
        TouchesSub(later, a, e, a, f, key);
      }
    }
  }

  /** Stacks that read the same keep the same promises. */
  lemma SameReadings(layers: seq<Mem>, others: seq<Mem>, h: seq<Record>, a: nat, e: nat)
    requires ReadsTo(layers, h, a, e) && forall key :: Read(others, key) == Read(layers, key)
    ensures ReadsTo(others, h, a, e)
  {
  }

  /** Starting earlier is weaker, once the stretch in between counts as possibly read ahead. */
  lemma ReadsToEarlier(layers: seq<Mem>, h: seq<Record>, a: nat, e: nat, w: nat, f: nat)
    requires ReadsTo(layers, h, a, e) && w <= a && e <= f <= |h|
    ensures ReadsTo(layers, h, w, f)
  {
    forall key | !Touches(h[w..f], key) ensures Read(layers, key) == Latest(h[..w], key) {
      if Touches(h[a..e], key) {
        TouchesSub(h, a, e, w, f, key);
      }
      if Touches(h[w..a], key) {
        TouchesSub(h, w, a, w, f, key);
      }
      LatestAcross(h, w, a, key);
    }
  }

  lemma ReadsExactly(layers: seq<Mem>, h: seq<Record>, e: nat, key: bytes)
    requires ReadsTo(layers, h, e, e)
    ensures Read(layers, key) == Latest(h[..e], key)
  {
    assert h[e..e] == [];
  }
}
