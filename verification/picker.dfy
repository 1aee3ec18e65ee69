/** Which adjacent tables a compaction merges. */
module Picker {
  import opened Bytes
  import opened Tables

  datatype Reason = SizeSimilar | Fallback

  datatype Pick = Pick(ids: seq<nat>, totalBytes: nat, reason: Reason)

  /** The larger of two and the configured number. */
  function WindowSize(fanIn: nat): (k: nat)
    ensures k >= 2 && k >= fanIn && (k == 2 || k == fanIn)
  {
    if fanIn < 2 then 2 else fanIn
  }

  function TotalBytes(ts: seq<Table>): nat {
    if ts == [] then 0 else TotalBytes(ts[..|ts| - 1]) + ts[|ts| - 1].size
  }

  ghost predicate Within(ts: seq<Table>, lo: nat, hi: nat) {
    forall j :: 0 <= j < |ts| ==> lo <= ts[j].size <= hi
  }

  predicate Close(hi: nat, lo: nat, ratio: real) {
    hi as real <= ratio * (lo as real)
  }

  /** The largest file is at most `ratio` times the smallest. */
  ghost predicate Similar(ts: seq<Table>, ratio: real) {
    exists a, b :: 0 <= a < |ts| && 0 <= b < |ts| && Within(ts, ts[b].size, ts[a].size)
                   && Close(ts[a].size, ts[b].size, ratio)
  }

  function Window(ts: seq<Table>, i: nat, k: nat): (w: seq<Table>)
    requires i + k <= |ts|
    ensures |w| == k && w == ts[i..i + k]
  {
    ts[i..i + k]
  }

  /** Window i has the fewest bytes among the first n, and is the first such. */
  ghost predicate Smallest(ts: seq<Table>, i: nat, k: nat, n: nat)
    requires n + k <= |ts| + 1
  {
    && i < n
    && (forall j :: 0 <= j < n ==> TotalBytes(Window(ts, i, k)) <= TotalBytes(Window(ts, j, k)))
    && (forall j :: 0 <= j < i ==> TotalBytes(Window(ts, i, k)) < TotalBytes(Window(ts, j, k)))
  }

  /** The same among the size-similar windows. */
  ghost predicate SmallestSimilar(ts: seq<Table>, i: nat, k: nat, n: nat, ratio: real)
    requires n + k <= |ts| + 1
  {
    && i < n && Similar(Window(ts, i, k), ratio)
    && (forall j :: 0 <= j < n && Similar(Window(ts, j, k), ratio) ==>
          TotalBytes(Window(ts, i, k)) <= TotalBytes(Window(ts, j, k)))
    && (forall j :: 0 <= j < i && Similar(Window(ts, j, k), ratio) ==>
          TotalBytes(Window(ts, i, k)) < TotalBytes(Window(ts, j, k)))
  }

  ghost predicate Describes(pick: Pick, ts: seq<Table>, i: nat, k: nat)
    requires i + k <= |ts|
  {
    pick.ids == Ids(Window(ts, i, k)) && pick.totalBytes == TotalBytes(Window(ts, i, k))
  }

  ghost predicate NoneSimilar(ts: seq<Table>, k: nat, n: nat, ratio: real)
    requires n + k <= |ts| + 1
  {
    forall j :: 0 <= j < n ==> !Similar(Window(ts, j, k), ratio)
  }

  /** The pick over the first n windows. */
  ghost predicate Picked(pick: Pick, ts: seq<Table>, k: nat, n: nat, ratio: real)
    requires n + k <= |ts| + 1
  {
    match pick.reason
    case SizeSimilar => exists i: nat :: i + k <= |ts| && SmallestSimilar(ts, i, k, n, ratio)
                                         && Describes(pick, ts, i, k)
    case Fallback =>
      && NoneSimilar(ts, k, n, ratio)
      && exists i: nat :: i + k <= |ts| && Smallest(ts, i, k, n) && Describes(pick, ts, i, k)
  }

  /** The smallest and the largest size of a window. */
  ghost predicate Extremes(ts: seq<Table>, lo: nat, hi: nat) {
    && Within(ts, lo, hi)
    && (exists b :: 0 <= b < |ts| && ts[b].size == lo)
    && (exists a :: 0 <= a < |ts| && ts[a].size == hi)
  }

  lemma FirstExtremes(t: Table)
    ensures Extremes([t], t.size, t.size)
  {
    assert [t][0].size == t.size;
  }

  lemma NextExtremes(ts: seq<Table>, t: Table, lo: nat, hi: nat)
    requires Extremes(ts, lo, hi)
    ensures Extremes(ts + [t], if t.size < lo then t.size else lo, if t.size > hi then t.size else hi)
  {
    var b :| 0 <= b < |ts| && ts[b].size == lo;
    var a :| 0 <= a < |ts| && ts[a].size == hi;
    var more := ts + [t];
    assert more[b].size == lo && more[a].size == hi && more[|ts|] == t;
  }

  /** The extremes of a window decide whether it is size-similar. */
  lemma ExtremesDecide(ts: seq<Table>, ratio: real, lo: nat, hi: nat)
    requires Extremes(ts, lo, hi)
    ensures Similar(ts, ratio) <==> Close(hi, lo, ratio)
  {
    hide Close;
    var b :| 0 <= b < |ts| && ts[b].size == lo;
    var a :| 0 <= a < |ts| && ts[a].size == hi;
    if Similar(ts, ratio) {
      var x, y :| 0 <= x < |ts| && 0 <= y < |ts| && Within(ts, ts[y].size, ts[x].size)
        && Close(ts[x].size, ts[y].size, ratio);
      assert ts[x].size == hi && ts[y].size == lo;
    }
    if Close(hi, lo, ratio) {
      assert Within(ts, ts[b].size, ts[a].size);
    }
  }

  /** No file is more than `ratio` times any other. */
  ghost predicate Even(ts: seq<Table>, ratio: real) {
    forall i, j :: 0 <= i < |ts| && 0 <= j < |ts| ==> AtMostTimes(ts[i].size, ts[j].size, ratio)
  }

  ghost predicate AtMostTimes(x: nat, y: nat, ratio: real) {
    x as real <= ratio * (y as real)
  }

  lemma Between(lo: nat, small: nat, large: nat, hi: nat, ratio: real)
    requires lo <= small <= hi && large <= hi && AtMostTimes(hi, lo, ratio)
    ensures AtMostTimes(large, small, ratio)
  {
    if ratio >= 0.0 {
      assert ratio * (lo as real) <= ratio * (small as real);
    } else {
      assert ratio * (lo as real) <= 0.0;
    }
  }

  /** Size-similar means just that, for every pair of files. */
  lemma SimilarIsPairwise(ts: seq<Table>, ratio: real)
    requires ts != []
    ensures Similar(ts, ratio) <==> Even(ts, ratio)
  {
    hide Close, AtMostTimes;
    forall x, y ensures Close(x, y, ratio) <==> AtMostTimes(x, y, ratio) {
      CloseIs(x, y, ratio);
    }
    var a, b := ExtremePositions(ts);
    if Similar(ts, ratio) {
      var x, y :| 0 <= x < |ts| && 0 <= y < |ts| && Within(ts, ts[y].size, ts[x].size)
        && Close(ts[x].size, ts[y].size, ratio);
      forall i, j | 0 <= i < |ts| && 0 <= j < |ts| ensures AtMostTimes(ts[i].size, ts[j].size, ratio) {
        Between(ts[y].size, ts[j].size, ts[i].size, ts[x].size, ratio);
      }
    }
  }

  lemma CloseIs(x: nat, y: nat, ratio: real)
    ensures Close(x, y, ratio) <==> AtMostTimes(x, y, ratio)
  {
  }

  lemma {:induction false} ExtremePositions(ts: seq<Table>) returns (a: nat, b: nat)
    requires ts != []
    ensures a < |ts| && b < |ts| && Within(ts, ts[b].size, ts[a].size)
    decreases |ts|
  {
    if |ts| == 1 {
      a, b := 0, 0;
    } else {
      var n := |ts| - 1;
      a, b := ExtremePositions(ts[..n]);
      assert forall j :: 0 <= j < n ==> ts[j] == ts[..n][j];
      if ts[n].size > ts[a].size {
        a := n;
      }
      if ts[n].size < ts[b].size {
        b := n;
      }
    }
  }

  /** Bytes add up table by table. */
  lemma {:induction false} TotalBytesAppend(x: seq<Table>, y: seq<Table>)
    ensures TotalBytes(x + y) == TotalBytes(x) + TotalBytes(y)
    ensures forall t :: TotalBytes([t]) == t.size
    decreases |y|
  {
    forall t: Table ensures TotalBytes([t]) == t.size {
      assert [t][..0] == [];
    }
    if y == [] {
      assert x + y == x;
    } else {
      assert (x + y)[..|x + y| - 1] == x + y[..|y| - 1];
      TotalBytesAppend(x, y[..|y| - 1]);
    }
  }

  /** Scan one window: its numbers, its bytes and its extremes. */
  method Measure(ts: seq<Table>, i: nat, k: nat) returns (ids: seq<nat>, total: nat, lo: nat, hi: nat)
    requires i + k <= |ts| && k > 0 && forall t :: t in ts ==> t.size < U64_LIMIT
    ensures ids == Ids(Window(ts, i, k)) && total == TotalBytes(Window(ts, i, k))
    ensures Extremes(Window(ts, i, k), lo, hi)
  {
    hide Extremes;
    lo, hi, total, ids := U64_LIMIT - 1, 0, 0, [];
    var j := i;
    ghost var w: seq<Table> := [];
    while j < i + k
      invariant i <= j <= i + k && w == ts[i..j]
      invariant ids == Ids(w) && total == TotalBytes(w)
      invariant if w == [] then lo == U64_LIMIT - 1 && hi == 0 else Extremes(w, lo, hi)
    {
      var s := ts[j].size;
      assert ts[j] in ts;
      if w == [] {
        FirstExtremes(ts[j]);
        assert w + [ts[j]] == [ts[j]];
      } else {
        NextExtremes(w, ts[j], lo, hi);
      }
      assert (w + [ts[j]])[..|w|] == w;
      lo, hi, total, ids := if s < lo then s else lo, if s > hi then s else hi, total + s, ids + [ts[j].id];
      w := w + [ts[j]];
      j := j + 1;
    }
  }

  /** What a pick is, over the tables: the first of the windows of this width with the fewest bytes,
      among those in which no file is more than `ratio` times another, or among all if there is none. */
  lemma PickMeans(pick: Pick, ts: seq<Table>, k: nat, ratio: real) returns (i: nat)
    requires 0 < k <= |ts| && Picked(pick, ts, k, |ts| - k + 1, ratio)
    ensures i + k <= |ts| && pick.ids == Ids(ts[i..i + k]) && pick.totalBytes == TotalBytes(ts[i..i + k])
    ensures pick.reason.SizeSimilar? ==>
              && Even(ts[i..i + k], ratio)
              && forall j: nat :: j + k <= |ts| && Even(Window(ts, j, k), ratio) ==>
                   TotalBytes(ts[i..i + k]) <= TotalBytes(Window(ts, j, k))
                   && (j < i ==> TotalBytes(ts[i..i + k]) < TotalBytes(Window(ts, j, k)))
    ensures pick.reason.Fallback? ==>
              forall j: nat :: j + k <= |ts| ==>
                && !Even(Window(ts, j, k), ratio) && TotalBytes(ts[i..i + k]) <= TotalBytes(Window(ts, j, k))
                && (j < i ==> TotalBytes(ts[i..i + k]) < TotalBytes(Window(ts, j, k)))
  {
    hide Similar, TotalBytes, Ids, Even, Window;
    forall j: nat | j + k <= |ts| ensures Similar(Window(ts, j, k), ratio) <==> Even(Window(ts, j, k), ratio) {
      SimilarIsPairwise(Window(ts, j, k), ratio);
    }
    match pick.reason
    case SizeSimilar =>
      i :| i + k <= |ts| && SmallestSimilar(ts, i, k, |ts| - k + 1, ratio) && Describes(pick, ts, i, k);
    case Fallback =>
      i :| i + k <= |ts| && Smallest(ts, i, k, |ts| - k + 1) && Describes(pick, ts, i, k);
  }

  lemma KeepsFallback(ts: seq<Table>, i: nat, k: nat, n: nat)
    requires n + k <= |ts| && Smallest(ts, i, k, n) && TotalBytes(Window(ts, i, k)) <= TotalBytes(Window(ts, n, k))
    ensures Smallest(ts, i, k, n + 1)
  {
  }

  lemma NewFallback(ts: seq<Table>, k: nat, n: nat)
    requires n + k <= |ts|
    requires n == 0 || exists i: nat :: i + k <= |ts| && Smallest(ts, i, k, n)
                                        && TotalBytes(Window(ts, n, k)) < TotalBytes(Window(ts, i, k))
    ensures Smallest(ts, n, k, n + 1)
  {
  }

  lemma KeepsBest(ts: seq<Table>, i: nat, k: nat, n: nat, ratio: real)
    requires n + k <= |ts| && SmallestSimilar(ts, i, k, n, ratio)
    requires Similar(Window(ts, n, k), ratio) ==> TotalBytes(Window(ts, i, k)) <= TotalBytes(Window(ts, n, k))
    ensures SmallestSimilar(ts, i, k, n + 1, ratio)
  {
    hide Similar;
  }

  lemma NewBest(ts: seq<Table>, k: nat, n: nat, ratio: real)
    requires n + k <= |ts| && Similar(Window(ts, n, k), ratio)
    requires NoneSimilar(ts, k, n, ratio)
             || exists i: nat :: i + k <= |ts| && SmallestSimilar(ts, i, k, n, ratio)
                                 && TotalBytes(Window(ts, n, k)) < TotalBytes(Window(ts, i, k))
    ensures SmallestSimilar(ts, n, k, n + 1, ratio)
  {
    hide Similar;
  }

  /** The first window with the fewest bytes among the size-similar ones; if there is none,
      among all; nothing when there are too few tables for a window. */
  method PickCompaction(ts: seq<Table>, fanIn: nat, ratio: real) returns (pick: Option<Pick>)
    requires forall t :: t in ts ==> t.size < U64_LIMIT
    ensures pick == None <==> |ts| < WindowSize(fanIn)
    ensures pick.Some? ==> |pick.value.ids| == WindowSize(fanIn)
    ensures pick.Some? ==> Picked(pick.value, ts, WindowSize(fanIn), |ts| - WindowSize(fanIn) + 1, ratio)
  {
    hide Similar, Close, TotalBytes, Smallest, SmallestSimilar, Window, Ids;
    var k := WindowSize(fanIn);
    if |ts| < k {
      return None;
    }
    var best: Option<Pick>, fallback: Option<Pick> := None, None;
    var i := 0;
    while i + k <= |ts|
      invariant i + k <= |ts| + 1 && (i == 0 <==> fallback.None?)
      invariant fallback.Some? ==> exists f: nat :: f + k <= |ts| && Smallest(ts, f, k, i)
                                                    && Describes(fallback.value, ts, f, k)
      invariant best.None? ==> NoneSimilar(ts, k, i, ratio)
      invariant best.Some? ==> exists b: nat :: b + k <= |ts| && SmallestSimilar(ts, b, k, i, ratio)
                                                && Describes(best.value, ts, b, k)
      invariant best.Some? ==> best.value.reason == SizeSimilar
      invariant fallback.Some? ==> fallback.value.reason == Fallback
    {
      var ids, total, lo, hi := Measure(ts, i, k);
      if fallback.None? || total < fallback.value.totalBytes {
        NewFallback(ts, k, i);
        fallback := Some(Pick(ids, total, Fallback));
      } else {
        ghost var f: nat :| f + k <= |ts| && Smallest(ts, f, k, i) && Describes(fallback.value, ts, f, k);
        KeepsFallback(ts, f, k, i);
      }
      ExtremesDecide(Window(ts, i, k), ratio, lo, hi);
      if Close(hi, lo, ratio) && (best.None? || total < best.value.totalBytes) {
        NewBest(ts, k, i, ratio);
        best := Some(Pick(ids, total, SizeSimilar));
      } else if best.Some? {
        ghost var b: nat :| b + k <= |ts| && SmallestSimilar(ts, b, k, i, ratio) && Describes(best.value, ts, b, k);
        KeepsBest(ts, b, k, i, ratio);
      }
      i := i + 1;
    }
    pick := if best.Some? then best else fallback;
  }
}
