/** The engine as one thread drives it, over the log object, the manifest, memtables and table
    files: what each call does to the history, and what a get answers. */
module Engines {
  import opened Bytes
  import opened Memtables
  import opened Seqs
  import opened History
  import opened Tables
  import opened Compaction
  import opened CompactionJobs
  import opened TableFormat
  import opened TableLayout
  import opened TableScan
  import opened BlockCaches
  import opened SstStore
  import opened Manifests
  import opened StoreInvariant
  import opened WriterSteps
  import opened FlushSteps
  import opened CompactionSteps
  import opened ReaderSteps
  import opened RecoverySteps
  import Picker
  import WalFormat
  import WalLog

  datatype Error = StoreClosed | InvalidArgument | Backpressure

  datatype Result<+T> = Ok(value: T) | Err(error: Error)

  datatype Job = NoSet | Refused(why: Selection) | Done(from: nat, to: nat)

  datatype Settings = Settings(
    maxBytes: nat, maxImms: positive, overhead: nat, stopWrites: nat,
    fanIn: nat, ratio: real, trigger: nat,
    blockSize: nat, interval: positive, numBits: nat, numHashes: nat, pinIndex: bool)

  // ----- what flushes and compactions may write -----

  /** Every entry is one of the first n mutations. */
  ghost predicate Drawn(m: Mem, h: seq<Record>, n: nat) {
    n <= |h| && forall key :: key in m ==> exists i :: 0 <= i < n && h[i].key == key && ToEntry(h[i]) == m[key]
  }

  ghost predicate AllDrawn(ts: seq<Table>, h: seq<Record>, n: nat) {
    forall i :: 0 <= i < |ts| ==> Drawn(ts[i].data, h, n)
  }

  /** Whatever part of the history a table may hold, its lengths fit the format's fields. */
  ghost predicate Fits(c: Settings, h: seq<Record>) {
    forall rows :: rows != [] && Ordered(rows) && Drawn(ToMap(rows), h, |h|) ==>
      FitsFormat(rows, c.blockSize, c.interval, c.numBits, c.numHashes)
  }

  lemma DrawnReplay(h: seq<Record>, p: nat, b: nat, n: nat)
    requires p <= b <= n <= |h|
    ensures Drawn(Replay(h[p..b]), h, n)
  {
    forall key | key in Replay(h[p..b])
      ensures exists i :: 0 <= i < n && h[i].key == key && ToEntry(h[i]) == Replay(h[p..b])[key] {
      var i := ReplaySource(h, p, b, key);
    }
  }

  lemma DrawnFrom(m: Mem, h: seq<Record>, n: nat, other: seq<Record>, k: nat)
    requires Drawn(m, h, n) && n <= k <= |other| && other[..n] == h[..n]
    ensures Drawn(m, other, k)
  {
    forall key | key in m ensures exists x :: 0 <= x < k && other[x].key == key && ToEntry(other[x]) == m[key] {
      var x :| 0 <= x < n && h[x].key == key && ToEntry(h[x]) == m[key];
      assert other[..n][x] == h[..n][x];
    }
  }

  /** What came from the first n mutations still does, in any history that begins with them. */
  lemma AllDrawnFrom(ts: seq<Table>, h: seq<Record>, n: nat, other: seq<Record>, k: nat)
    requires AllDrawn(ts, h, n) && n <= |h| && n <= k <= |other| && other[..n] == h[..n]
    ensures AllDrawn(ts, other, k)
  {
    hide Drawn;
    forall i | 0 <= i < |ts| ensures Drawn(ts[i].data, other, k) {
      DrawnFrom(ts[i].data, h, n, other, k);
    }
  }

  lemma DrawnOutput(ts: seq<Table>, from: nat, to: nat, aged: set<nat>, h: seq<Record>, n: nat)
    requires from <= to <= |ts| && AllDrawn(ts, h, n) && n <= |h|
    ensures Drawn(Output(ts, from, to, aged), h, n)
  {
    var out := Output(ts, from, to, aged);
    forall key | key in out ensures exists x :: 0 <= x < n && h[x].key == key && ToEntry(h[x]) == out[key] {
      var m := WindowSource(ts, from, to, key);
      assert Drawn(ts[m].data, h, n);
    }
  }

  lemma AppliedActive(h: seq<Record>, from: nat, active: Mem, r: Record)
    requires ActiveOk(h, from, |h|, active)
    ensures ActiveOk(h + [r], from, |h| + 1, active[r.key := ToEntry(r)])
  {
    assert (h + [r])[from..|h|] == h[from..|h|];
    ReplayOneMore(h + [r], from, |h|);
  }

  // ----- files -----

  lemma NoNewStrays(files: map<nat, SstFile>, ts: seq<Table>, t: Table, f: SstFile)
    ensures (forall id :: id in files ==> id in Ids(ts)) ==> forall id :: id in files[t.id := f] ==> id in Ids([t] + ts)
  {
    var more := [t] + ts;
    if forall id :: id in files ==> id in Ids(ts) {
      forall id | id in files[t.id := f] ensures id in Ids(more) {
        if id == t.id {
          assert Ids(more)[0] == id;
        } else {
          var i :| 0 <= i < |ts| && Ids(ts)[i] == id;
          assert Ids(more)[i + 1] == id;
        }
      }
    }
  }

  /** Deleting the inputs and adding the output leaves no file behind that was not there before. */
  lemma StraysGone(ts: seq<Table>, from: nat, to: nat, out: Option<Table>, files: map<nat, SstFile>,
                   kept: map<nat, SstFile>, next: nat, f: SstFile)
    requires from <= to <= |ts| && (out.Some? ==> out.value.id == next)
    requires kept == (if out.Some? then files[next := f] else files) - (set x | x in ts[from..to] :: x.id)
    ensures (forall id :: id in files ==> id in Ids(ts)) ==>
            forall id :: id in kept ==> id in Ids(Replaced(ts, from, to, out))
  {
    var r := Replaced(ts, from, to, out);
    forall x | from <= x < to ensures ts[x].id in set t | t in ts[from..to] :: t.id {
      assert ts[from..to][x - from] == ts[x];
    }
    if forall id :: id in files ==> id in Ids(ts) {
      forall id | id in kept ensures id in Ids(r) {
        if out.Some? && id == next {
          assert r[from] == out.value && Ids(r)[from] == id;
        } else {
          var i :| 0 <= i < |ts| && Ids(ts)[i] == id;
          var x := if i < from then i else i - (to - from) + |Listed(out)|;
          assert r[x] == ts[i] && Ids(r)[x] == id;
        }
      }
    }
  }

  ghost predicate FiledAs(t: Table, files: map<nat, SstFile>, specs: map<nat, Spec>) {
    t.id in specs && t.id in files && Stored(files[t.id], specs[t.id]) && t.size == |files[t.id].data|
  }

  /** Every live table has its file, and no number is used twice. */
  ghost predicate FiledOk(tables: seq<Table>, nextId: nat, files: map<nat, SstFile>, specs: map<nat, Spec>) {
    && TablesOk(tables, nextId, Contents(specs)) && PublishedOk(tables, nextId, Contents(specs))
    && forall t :: t in tables ==> FiledAs(t, files, specs)
  }

  lemma NumberIsFree(tables: seq<Table>, nextId: nat, specs: map<nat, Spec>)
    requires PublishedOk(tables, nextId, Contents(specs))
    ensures nextId !in specs
  {
    hide Contents;
    ContentsKeys(specs);
  }

  lemma FileStays(t: Table, files: map<nat, SstFile>, specs: map<nat, Spec>, id: nat, f: SstFile, s: Spec)
    requires FiledAs(t, files, specs) && t.id != id
    ensures FiledAs(t, files[id := f], specs[id := s])
  {
    hide Stored;
  }

  /** A table written under the next number joins the list. */
  lemma FileOne(tables: seq<Table>, nextId: nat, files: map<nat, SstFile>, specs: map<nat, Spec>, f: SstFile, t: Table,
                s: Spec)
    requires FiledOk(tables, nextId, files, specs) && t.id == nextId && TableOk(t) && t.size == |f.data|
    requires Stored(f, s) && t.data == ToMap(RowsOf(s))
    ensures FiledOk([t] + tables, nextId + 1, files[nextId := f], specs[nextId := s])
  {
    hide Stored, TableOk, RowsOf, ToMap, Contents, TablesOk, PublishedOk;
    ContentsAdd(specs, nextId, s);
    NewFileTables(tables, nextId, Contents(specs), t.data);
    FlushTables(tables, nextId, Contents(specs[nextId := s]), Contents(specs), t);
    NumberIsFree(tables, nextId, specs);
    forall x | x in [t] + tables ensures FiledAs(x, files[nextId := f], specs[nextId := s]) {
      if x != t {
        assert x in tables;
        FileStays(x, files, specs, nextId, f, s);
      }
    }
  }

  lemma CacheOne(index: map<CacheKey, Node>, tables: seq<Table>, nextId: nat, specs: map<nat, Spec>, s: Spec)
    requires CacheKnows(index, specs) && PublishedOk(tables, nextId, Contents(specs))
    ensures CacheKnows(index, specs[nextId := s])
  {
    hide CacheKnows, Contents, PublishedOk;
    NumberIsFree(tables, nextId, specs);
    IndexLength(s);
    CacheLearns(index, specs, nextId, s);
  }

  /** The output takes the window's place; the inputs' files go. */
  lemma FileReplaced(ts: seq<Table>, from: nat, to: nat, out: Option<Table>, nextId: nat, files: map<nat, SstFile>,
                     specs: map<nat, Spec>,
                     next: nat, laterFiles: map<nat, SstFile>, laterSpecs: map<nat, Spec>, f: SstFile, s: Spec)
    requires from < to <= |ts| && FiledOk(ts, nextId, files, specs) && AllOk(Replaced(ts, from, to, out))
    requires out.Some? ==> out.value.id == nextId && out.value.size == |f.data| && Stored(f, s)
                           && out.value.data == ToMap(RowsOf(s))
    requires next == if out.Some? then nextId + 1 else nextId
    requires laterFiles == (if out.Some? then files[nextId := f] else files) - (set x | x in ts[from..to] :: x.id)
    requires laterSpecs == if out.Some? then specs[nextId := s] else specs
    ensures FiledOk(Replaced(ts, from, to, out), next, laterFiles, laterSpecs)
  {
    hide Stored, TableOk, RowsOf, ToMap, Contents, TablesOk, PublishedOk, Replaced, AllOk;
    ContentsAdd(specs, nextId, s);
    NumberIsFree(ts, nextId, specs);
    if out.Some? {
      NewFileTables(ts, nextId, Contents(specs), out.value.data);
    }
    OutputIsNew(ts, nextId, Contents(specs));
    ReplacedTables(ts, from, to, out, nextId, next, Contents(laterSpecs), Contents(specs), Contents(laterSpecs));
    InputsGone(ts, from, to, out);
    forall x | x in Replaced(ts, from, to, out) ensures FiledAs(x, laterFiles, laterSpecs) {
      ReplacedMember(ts, from, to, out, x);
    }
  }

  lemma ReplacedShrinks(ts: seq<Table>, from: nat, to: nat, out: Option<Table>)
    requires from + 2 <= to <= |ts|
    ensures |Replaced(ts, from, to, out)| < |ts| <= |Replaced(ts, from, to, out)| + (to - from)
  {
  }

  lemma WindowBounds(ts: seq<Table>, ids: seq<nat>, from: nat, to: nat)
    requires IsWindow(ts, ids, from, to)
    ensures from < to <= |ts|
  {
  }

  lemma SameWindow(ts: seq<Table>, ids: seq<nat>, from: nat, to: nat, from2: nat, to2: nat)
    requires IsWindow(ts, ids, from, to) && IsWindow(ts, ids, from2, to2)
    ensures from == from2 && to == to2
  {
    assert ts[from].id in ids && ts[from2].id in ids && ts[to - 1].id in ids && ts[to2 - 1].id in ids;
  }

  lemma PickIsWindow(ts: seq<Table>, ids: seq<nat>, i: nat)
    requires UniqueIds(ts) && i + |ids| <= |ts| && ids != [] && ids == Ids(ts[i..i + |ids|])
    ensures IsWindow(ts, ids, i, i + |ids|)
    ensures forall m :: 0 <= m < |ids| ==> Live(ts, ids[m])
  {
    forall j | 0 <= j < |ts| ensures ts[j].id in ids <==> i <= j < i + |ids| {
      if i <= j < i + |ids| {
        assert ids[j - i] == ts[j].id;
      } else {
        OtherIds(ts, i, i + |ids|, j);
      }
    }
    forall m | 0 <= m < |ids| ensures Live(ts, ids[m]) {
      assert ts[i + m].id == ids[m];
    }
  }

  lemma PickStart(pick: Picker.Pick, ts: seq<Table>, k: nat, ratio: real) returns (i: nat)
    requires 2 <= k <= |ts| && Picker.Picked(pick, ts, k, |ts| - k + 1, ratio)
    ensures i + k <= |ts| && |pick.ids| == k && pick.ids == Ids(ts[i..i + |pick.ids|])
  {
    hide Picker.Similar, Picker.TotalBytes, Picker.NoneSimilar;
    match pick.reason
    case SizeSimilar =>
      i :| i + k <= |ts| && Picker.SmallestSimilar(ts, i, k, |ts| - k + 1, ratio) && Picker.Describes(pick, ts, i, k);
    case Fallback =>
      i :| i + k <= |ts| && Picker.Smallest(ts, i, k, |ts| - k + 1) && Picker.Describes(pick, ts, i, k);
  }

  lemma PickedWindow(c: Settings, pick: Picker.Pick, ts: seq<Table>, from: nat, to: nat)
    requires from < to <= |ts| && to - from == Picker.WindowSize(c.fanIn) <= |ts| && pick.ids == Ids(ts[from..to])
    requires Picker.Picked(pick, ts, Picker.WindowSize(c.fanIn), |ts| - Picker.WindowSize(c.fanIn) + 1, c.ratio)
    ensures ByPicker(c, ts, from, to)
  {
    hide Picker.Picked, Ids;
  }

  lemma PickerWidth(c: Settings, ts: seq<Table>, from: nat, to: nat)
    requires ByPicker(c, ts, from, to)
    ensures to - from == Picker.WindowSize(c.fanIn)
  {
  }

  lemma RefusedWell(ts: seq<Table>, ids: seq<nat>, why: Selection)
    requires why.TooFew? <==> |ids| < 2
    requires why.NotLive? ==> FirstStranger(ts, ids, why.id)
    requires why.NotLive? <==> |ids| >= 2 && exists m :: 0 <= m < |ids| && !Live(ts, ids[m])
    requires why.NotAdjacent? ==> forall from, to :: !IsWindow(ts, ids, from, to)
    ensures !why.Chosen? ==> Refuses(ts, ids, why)
  {
    hide Live, IsWindow;
  }

  /** Everything that depends on the list of tables survives the swap. */
  lemma Swapped(h: seq<Record>, from0: nat, flushed: nat, ts: seq<Table>, from: nat, to: nat, aged: set<nat>,
                out: Option<Table>, order: seq<Table>, counter: nat, ahead: nat)
    requires OrderedOk(h, from0, flushed, ts) && NumbersOk(h, from0, flushed, ts, counter)
             && ReadsTo(Datas(ts), h, flushed, ahead)
    requires ahead <= |h| && AllDrawn(ts, h, ahead) && AllOk(ts) && from < to <= |ts|
             && Outputs(ts, from, to, aged, out)
    requires SortedFrom(order, Outside(ts, from, to) + Listed(out))
    ensures order == Replaced(ts, from, to, out) && AllOk(order)
    ensures OrderedOk(h, from0, flushed, order) && NumbersOk(h, from0, flushed, order, counter)
    ensures ReadsTo(Datas(order), h, flushed, ahead) && AllDrawn(order, h, ahead)
  {
    hide OrderedOk, NumbersOk, ReadsTo, AllDrawn, AllOk, Outputs, SortedFrom, Outside, Listed, Replaced, WellOrdered,
      Read;
    OrderedTables(h, from0, flushed, ts);
    CompactionPreservesReads(ts, from, to, aged, out, order);
    MaxBounded(order, MaxSeqnoOf(ts));
    CompactNumbers(h, from0, flushed, ts, order, counter);
    CompactOrdered(h, from0, flushed, ts, order);
    CompactReads(h, ts, order, flushed, ahead);
    DrawnReplaced(ts, from, to, aged, out, h, ahead);
  }

  lemma DrawnReplaced(ts: seq<Table>, from: nat, to: nat, aged: set<nat>, out: Option<Table>, h: seq<Record>, n: nat)
    requires from < to <= |ts| && n <= |h| && AllDrawn(ts, h, n) && Outputs(ts, from, to, aged, out)
    ensures AllDrawn(Replaced(ts, from, to, out), h, n)
  {
    hide Drawn, Replaced, Output, TableOk;
    var r := Replaced(ts, from, to, out);
    DrawnOutput(ts, from, to, aged, h, n);
    forall i | 0 <= i < |r| ensures Drawn(r[i].data, h, n) {
      var x := ReplacedAt(ts, from, to, out, i);
    }
  }

  ghost predicate Newer(segs: seq<seq<Record>>, ts: seq<Table>) {
    forall r :: r in Flatten(segs) ==> r.seqno > MaxSeqnoOf(ts)
  }

  lemma LogIs(h: seq<Record>, from: nat, segs: seq<seq<Record>>, contents: seq<seq<Record>>, replayed: seq<Record>,
              ts: seq<Table>)
    requires LogOk(h, from, segs) && replayed == Flatten(segs) == Flatten(contents) && Newer(segs, ts)
    ensures from <= |h| && replayed == h[from..] && LogOk(h, from, contents) && Newer(contents, ts)
  {
    hide Flatten;
  }

  lemma NextReplayed(h: seq<Record>, from: nat, i: nat)
    requires from + i < |h|
    ensures h[..from + i] + [h[from..][i]] == h[..from + (i + 1)]
  {
  }

  /** A clean reopen starts the memtables where the log starts. */
  lemma Reordered(h: seq<Record>, from: nat, contents: seq<seq<Record>>, flushed: nat, ahead: nat, ts: seq<Table>,
                  counter: nat)
    requires LogOk(h, from, contents) && Newer(contents, ts)
    requires OrderedOk(h, from, flushed, ts) && ReadsTo(Datas(ts), h, flushed, ahead) && ahead <= |h|
    requires counter >= MaxSeqnoOf(ts) && counter >= MaxSeqno(Flatten(contents))
    ensures OrderedOk(h, from, from, ts) && ReadsTo(Datas(ts), h, from, |h|) && NumbersOk(h, from, from, ts, counter)
  {
    hide Flatten, MaxSeqnoOf, MaxSeqno, ReadsTo, WellOrdered, RisingFrom;
    OpenNumbers(h, from, contents, ts, counter);
    CleanOrder(h, from, contents, flushed, ts);
    ReadsToEarlier(Datas(ts), h, flushed, ahead, from, |h|);
  }

  /** Why a manual selection is turned down. */
  ghost predicate Refuses(ts: seq<Table>, ids: seq<nat>, why: Selection) {
    match why
    case Chosen(_, _) => false
    case TooFew => |ids| < 2
    case NotLive(id) => |ids| >= 2 && FirstStranger(ts, ids, id)
    case NotAdjacent =>
      && |ids| >= 2 && (forall m :: 0 <= m < |ids| ==> Live(ts, ids[m]))
      && forall from, to :: !IsWindow(ts, ids, from, to)
  }

  /** The window is the one the picker chooses from these tables. */
  ghost predicate ByPicker(c: Settings, ts: seq<Table>, from: nat, to: nat) {
    exists pick ::
      var k := Picker.WindowSize(c.fanIn);
      && from < to <= |ts| && to - from == k <= |ts| && Picker.Picked(pick, ts, k, |ts| - k + 1, c.ratio)
      && pick.ids == Ids(ts[from..to])
  }

  /** One job of the picker's, on a list that has reached the trigger. */
  ghost predicate Round(c: Settings, before: seq<Table>, after: seq<Table>, aged: set<nat>) {
    |before| >= c.trigger
    && exists from: nat, to: nat, out ::
         from <= to <= |before| && ByPicker(c, before, from, to) && Outputs(before, from, to, aged, out)
         && after == Replaced(before, from, to, out)
  }

  /** So many such jobs, one after the other. */
  ghost predicate Rounds(c: Settings, before: seq<Table>, after: seq<Table>, aged: set<nat>, n: nat)
    decreases n
  {
    if n == 0 then after == before
    else exists mid :: Rounds(c, before, mid, aged, n - 1) && Round(c, mid, after, aged)
  }

  lemma NoRounds(c: Settings, ts: seq<Table>, aged: set<nat>)
    ensures Rounds(c, ts, ts, aged, 0)
  {
  }

  lemma IsRound(c: Settings, before: seq<Table>, from: nat, to: nat, out: Option<Table>, aged: set<nat>)
    requires |before| >= c.trigger && from <= to <= |before| && ByPicker(c, before, from, to)
    requires Outputs(before, from, to, aged, out)
    ensures Round(c, before, Replaced(before, from, to, out), aged)
  {
    hide ByPicker, Outputs, Replaced;
  }

  lemma OneMoreRound(c: Settings, before: seq<Table>, mid: seq<Table>, after: seq<Table>, aged: set<nat>, n: nat)
    requires Rounds(c, before, mid, aged, n) && Round(c, mid, after, aged)
    ensures Rounds(c, before, after, aged, n + 1)
  {
  }

  /** These tables in front of the others, one for each memtable. */
  ghost predicate InFront(imms: seq<Mem>, ts: seq<Table>, after: seq<Table>) {
    |after| == |imms| + |ts| && after[|imms|..] == ts && forall i :: 0 <= i < |imms| ==> after[i].data == imms[i]
  }

  lemma NoneInFront(imms: seq<Mem>, ts: seq<Table>)
    ensures InFront(imms[|imms|..], ts, ts)
  {
  }

  lemma OneMoreInFront(imms: seq<Mem>, n: nat, ts: seq<Table>, after: seq<Table>, more: seq<Table>)
    requires 0 < n <= |imms| && InFront(imms[n..], ts, after)
    requires |more| == |after| + 1 && more[1..] == after && more[0].data == imms[n - 1]
    ensures InFront(imms[n - 1..], ts, more)
  {
    assert more[|imms| - n + 1..] == after[|imms| - n..];
    forall i | 0 <= i < |imms[n - 1..]| ensures more[i].data == imms[n - 1..][i] {
      if i > 0 {
        assert more[i] == after[i - 1] && imms[n - 1..][i] == imms[n..][i - 1];
      }
    }
  }

  ghost function MapsOf(ms: seq<Memtable>): seq<Mem>
    reads ms
  {
    seq(|ms|, i requires 0 <= i < |ms| reads ms => ToMap(ms[i].rows))
  }

  // ----- the engine object -----

  class Engine {
    const settings: Settings
    const wal: WalLog.Wal
    const manifest: Manifest
    const cache: BlockCache
    var active: Memtable
    var immutables: seq<Memtable>
    var files: map<nat, SstFile>
    ghost var hist: seq<Record>
    ghost var cuts: seq<nat>
    ghost var walStart: nat
    ghost var settled: nat
    ghost var specs: map<nat, Spec>

    ghost function Imms(): seq<Mem>
      reads this`immutables, immutables
    {
      MapsOf(immutables)
    }

    ghost function Active(): Mem
      reads this`active, active
    {
      ToMap(active.rows)
    }

    /** The memtables hold the end of this history, cut where rotations fell. */
    ghost predicate Memory(h: seq<Record>)
      reads this`active, this`immutables, this`cuts, active, immutables
    {
      && active.Valid() && active !in immutables && (forall m :: m in immutables ==> m.Valid())
      && active.overhead == settings.overhead && |immutables| <= settings.maxImms
      && ImmsOk(h, cuts, Imms()) && ActiveOk(h, cuts[0], |h|, Active())
    }

    /** The log holds a suffix of the history, its counter is above everything stored, and all but
        the latest appends are on disk. */
    ghost predicate Logged()
      reads this`hist, this`cuts, this`walStart, this`settled, wal, manifest
    {
      && wal.Valid() && wal.isOpen && cuts != []
      && LogOk(hist, walStart, wal.contents)
      && NumbersOk(hist, walStart, cuts[|cuts| - 1], manifest.tables, wal.lastSeqno)
      && settled + wal.appendsSinceSync <= |hist|
    }

    /** The tables read as everything before the memtables, in an order compaction may trust, and
        nothing in them or in an immutable table is younger than what is on disk for certain. */
    ghost predicate Ordering()
      reads this`hist, this`cuts, this`walStart, this`settled, manifest
    {
      && manifest.Valid() && cuts != [] && cuts[0] <= settled <= |hist|
      && OrderedOk(hist, walStart, cuts[|cuts| - 1], manifest.tables)
      && ReadsTo(Datas(manifest.tables), hist, cuts[|cuts| - 1], settled)
      && AllDrawn(manifest.tables, hist, settled)
    }

    ghost predicate Filed()
      reads this`files, this`specs, manifest
    {
      FiledOk(manifest.tables, manifest.nextSstId, files, specs)
    }

    ghost predicate Cached()
      reads this`specs, cache
    {
      cache.Valid() && CacheKnows(cache.index, specs)
    }

    ghost predicate Valid()
      reads this, active, immutables, wal, manifest, cache
    {
      Memory(hist) && Logged() && Ordering() && Filed() && Cached()
    }

    // ----- opening -----

    /** The process starts over a directory of segments, table files and perhaps a manifest; `hist`,
        `walStart` and `flushed` say what an earlier process left there. */
    constructor (settings: Settings, file: Option<Document>, segments: seq<WalLog.SegmentFile>,
                 files: map<nat, SstFile>, fsyncEveryN: nat, rollBytes: nat, cacheBytes: nat,
                 ghost hist: seq<Record>, ghost walStart: nat, ghost flushed: nat, ghost settled: nat,
                 ghost specs: map<nat, Spec>)
      ensures this.settings == settings && this.files == files && this.hist == hist && this.walStart == walStart
              && this.specs == specs
      ensures this.settled == settled
      ensures cuts == [flushed] && active.Valid() && active.rows == [] && active.overhead == settings.overhead
              && immutables == []
      ensures fresh(active) && fresh(wal) && fresh(manifest) && fresh(cache)
      ensures wal.segments == segments && !wal.isOpen && wal.segmentMaxSeqno == map[] && wal.fsyncEveryN > 0
      ensures manifest.Valid() && manifest.saved == file
              && (file.None? ==> manifest.tables == [] && manifest.nextSstId == 1)
      ensures file.Some? ==> SortedFrom(manifest.tables, file.value.tables)
      ensures cache.Valid() && cache.lru == [] && cache.capacity == cacheBytes
      ensures wal.fsyncEveryN == (if fsyncEveryN == 0 then 1 else fsyncEveryN) && wal.rollBytes == rollBytes
    {
      this.settings := settings;
      this.wal := new WalLog.Wal(fsyncEveryN, rollBytes, segments);
      this.manifest := new Manifest.LoadOrCreate(file);
      this.cache := new BlockCache(cacheBytes);
      this.active := new Memtable(settings.overhead);
      this.immutables := [];
      this.files, this.hist, this.cuts, this.walStart, this.settled, this.specs := files, hist, [flushed], walStart,
        settled, specs;
    }

    /** What a stopped process leaves: a log, tables and their files that agree with one history,
        and only records newer than every table in the log. */
    ghost predicate AtRest()
      reads this, active, wal, manifest, cache
    {
      && active.Valid() && active.rows == [] && active.overhead == settings.overhead && immutables == [] && |cuts| == 1
      && !wal.isOpen && wal.segmentMaxSeqno == map[] && wal.fsyncEveryN > 0 && WalLog.Increasing(wal.segments)
      && LogOk(hist, walStart, WalLog.ReadContents(wal.segments))
      && Newer(WalLog.ReadContents(wal.segments), manifest.tables)
      && Ordering() && Filed() && Cached()
    }

    lemma RestWhole()
      requires active.Valid() && active.rows == [] && active.overhead == settings.overhead && immutables == []
               && |cuts| == 1
      requires !wal.isOpen && wal.segmentMaxSeqno == map[] && wal.fsyncEveryN > 0 && WalLog.Increasing(wal.segments)
      requires LogOk(hist, walStart, WalLog.ReadContents(wal.segments))
               && Newer(WalLog.ReadContents(wal.segments), manifest.tables)
      requires manifest.Valid() && cuts[0] <= settled <= |hist| && OrderedOk(hist, walStart, cuts[0], manifest.tables)
      requires ReadsTo(Datas(manifest.tables), hist, cuts[0], settled) && AllDrawn(manifest.tables, hist, settled)
      requires FiledOk(manifest.tables, manifest.nextSstId, files, specs) && cache.Valid()
               && CacheKnows(cache.index, specs)
      ensures AtRest()
    {
      hide LogOk, OrderedOk, ReadsTo, AllDrawn, Newer, WalLog.Increasing, WalLog.ReadContents, FiledOk, CacheKnows;
    }

    lemma FirstMemory()
      requires active.Valid() && active.rows == [] && active.overhead == settings.overhead && immutables == []
      requires walStart <= |hist| && cuts == [walStart]
      ensures Memory(hist[..walStart])
    {
      assert hist[..walStart][walStart..walStart] == [];
      assert Imms() == [];
    }

    method ReplayAll(replayed: seq<Record>)
      requires walStart <= |hist| && replayed == hist[walStart..] && Memory(hist[..walStart]) && cuts == [walStart]
      modifies this`active, this`immutables, this`cuts, active, wal
      ensures Memory(hist) && cuts != [] && cuts[|cuts| - 1] == walStart && cuts[0] <= |hist|
      ensures unchanged(wal) && (active == old(active) || fresh(active))
      ensures old(AllFull()) ==> AllFull()
      ensures old(Drained()) ==> Drained()
    {
      hide Memory, WalLog.Consistent, WalLog.Synced, WalLog.Active, WalLog.Log;
      var i := 0;
      while i < |replayed|
        invariant i <= |replayed| && Memory(hist[..walStart + i])
        invariant cuts != [] && cuts[|cuts| - 1] == walStart && cuts[0] <= |hist|
        invariant active == old(active) || fresh(active)
        invariant unchanged(wal)
        invariant old(AllFull()) ==> AllFull()
        invariant old(Drained()) ==> Drained()
      {
        ghost var h := hist[..walStart + i];
        ApplyMutation(replayed[i], true, h);
        NextReplayed(hist, walStart, i);
        i := i + 1;
        HasCuts(hist[..walStart + i]);
      }
      assert hist[..walStart + i] == hist;
    }

    /** Replay the log into memtables under the write path's rotation rule. */
    method ReplayLog() returns (report: WalLog.RecoveryReport)
      requires AtRest()
      modifies this`active, this`immutables, this`cuts, active, wal
      ensures Memory(hist) && cuts != [] && cuts[|cuts| - 1] == walStart && cuts[0] <= |hist|
      ensures active == old(active) || fresh(active)
      ensures wal.Valid() && wal.isOpen && wal.appendsSinceSync == 0
      ensures LogOk(hist, walStart, wal.contents) && Newer(wal.contents, manifest.tables)
      ensures wal.lastSeqno == MaxSeqno(Flatten(wal.contents)) && report.records == |hist| - walStart
      ensures hist[walStart..] == Flatten(wal.contents) && AllFull() && Drained()
    {
      hide Ordering, Memory, Filed, Cached, WalLog.Consistent, WalLog.Synced, WalLog.Active, WalLog.ReadContents,
        WalLog.Increasing, LogOk, Flatten, MaxSeqnoOf, MaxSeqno, Newer;
      ghost var segs := WalLog.ReadContents(wal.segments);
      var replayed;
      report, replayed := wal.Open();
      LogIs(hist, walStart, segs, wal.contents, replayed, manifest.tables);
      cuts := [walStart];
      FirstMemory();
      ReplayAll(replayed);
    }

    /** Replay the log, and start the counter above both the log and the tables. */
    method Open() returns (report: WalLog.RecoveryReport)
      requires AtRest()
      modifies this`active, this`immutables, this`cuts, this`settled, active, wal
      ensures Valid() && (active == old(active) || fresh(active))
      ensures report.records == |hist| - walStart
      ensures var logged, stored := MaxSeqno(hist[walStart..]), MaxSeqnoOf(manifest.tables);
              wal.lastSeqno == if logged < stored then stored else logged
      ensures AllFull() && Drained()
    {
      hide Valid, Logged, Ordering, Memory, Filed, Cached, WalLog.Consistent, WalLog.Synced, WalLog.Active,
        WalLog.ReadContents, WalLog.Increasing, LogOk, NumbersOk, OrderedOk, ReadsTo, AllDrawn, Flatten, MaxSeqnoOf,
        MaxSeqno, Newer;
      OrderingParts();
      ghost var flushed, ahead := cuts[0], settled;
      report := ReplayLog();
      var floor := manifest.MaxSeqno();
      wal.BumpSeqno(floor);
      Reordered(hist, walStart, wal.contents, flushed, ahead, manifest.tables, wal.lastSeqno);
      AllDrawnFrom(manifest.tables, hist, ahead, hist, |hist|);
      settled := |hist|;
      OrderingWhole();
      LoggedWhole();
      ValidWhole();
    }

    // ----- writing -----

    lemma HasCuts(h: seq<Record>)
      requires Memory(h)
      ensures |cuts| == |immutables| + 1 && cuts[0] <= |h|
    {
    }

    /** The active table is not left full while it has somewhere to go. */
    predicate Drained()
      reads this`active, this`immutables, active
    {
      active.size < settings.maxBytes || |immutables| >= settings.maxImms || active.rows == []
    }

    /** Only full tables are frozen. */
    ghost predicate AllFull()
      reads this`immutables, immutables
    {
      forall m :: m in immutables ==> m.size >= settings.maxBytes
    }

    /** The file the current settings make of these rows. */
    ghost predicate Wrote(f: SstFile, rows: seq<Row>) {
      WrittenAs(f, rows, settings.blockSize, settings.interval, settings.numBits, settings.numHashes)
    }

    /** A job's output is such a file, of its entries in key order. */
    ghost predicate OutputFiled(out: Option<Table>)
      reads this`files
    {
      out.Some? ==> out.value.id in files
                    && exists rows :: Ordered(rows) && ToMap(rows) == out.value.data && Wrote(files[out.value.id], rows)
    }

    /** No table file is left that the manifest does not list. */
    ghost predicate NoStrays()
      reads this`files, manifest
    {
      forall id :: id in files ==> id in Ids(manifest.tables)
    }

    /** One mutation's size in a memtable. */
    function Cost(key: bytes, value: bytes): nat {
      |key| + |value| + settings.overhead
    }

    /** Past the limit by less than one entry of this size. */
    predicate Bounded(entry: nat)
      reads this`active, active
    {
      active.size < settings.maxBytes + entry
    }

    /** Freeze a full active table, unless the queue of immutable tables is full. */
    method MaybeRotate(replaying: bool, ghost h: seq<Record>)
      requires Memory(h) && cuts[0] < |h| && (!replaying ==> wal.Valid() && wal.isOpen)
      modifies this`active, this`immutables, this`cuts, wal
      ensures Memory(h) && cuts[|cuts| - 1] == old(cuts[|cuts| - 1])
      ensures replaying ==> unchanged(wal)
      ensures old(wal.Valid() && wal.isOpen) ==>
                wal.Valid() && wal.isOpen && WalLog.Log(wal.V()) == old(WalLog.Log(wal.V()))
                && wal.lastSeqno == old(wal.lastSeqno)
      ensures cuts == old(cuts) ==> unchanged(wal)
      ensures Drained() && (old(AllFull()) ==> AllFull())
      ensures cuts == old(cuts) || (cuts[0] == |h| && (!replaying ==> wal.appendsSinceSync == 0))
      ensures var rotates := old(active.size >= settings.maxBytes && |immutables| < settings.maxImms);
              if rotates then
                && fresh(active) && active.rows == [] && immutables == [old(active)] + old(immutables)
                && (!replaying ==> wal.At() == WalLog.Place(old(wal.activeId) + 1, 8, 0))
              else active == old(active) && immutables == old(immutables)
    {
      hide Memory, WalLog.Consistent, WalLog.Synced, WalLog.Active, WalLog.Log;
      if active.size < settings.maxBytes || |immutables| >= settings.maxImms {
        return;
      }
      if !replaying {
        var rolled := wal.Roll();
      }
      Freeze(h);
    }

    method Freeze(ghost h: seq<Record>)
      requires Memory(h) && cuts[0] < |h| && |immutables| < settings.maxImms
      modifies this`active, this`immutables, this`cuts
      ensures Memory(h) && cuts == [|h|] + old(cuts) && cuts[|cuts| - 1] == old(cuts[|cuts| - 1])
      ensures fresh(active) && active.rows == [] && immutables == [old(active)] + old(immutables)
    {
      HasCuts(h);
      hide ImmsOk, ActiveOk;
      RotateImms(h, cuts, Imms(), Active());
      ghost var imms := [Active()] + Imms();
      immutables := [active] + immutables;
      active := new Memtable(settings.overhead);
      cuts := [|h|] + cuts;
      assert Imms() == imms;
    }

    /** One mutation into the active table, live or replayed. */
    method ApplyMutation(r: Record, replaying: bool, ghost h: seq<Record>)
      requires Memory(h) && (!replaying ==> wal.Valid() && wal.isOpen)
      modifies this`active, this`immutables, this`cuts, active, wal
      ensures Memory(h + [r]) && cuts[|cuts| - 1] == old(cuts[|cuts| - 1])
      ensures replaying ==> unchanged(wal)
      ensures old(wal.Valid() && wal.isOpen) ==>
                wal.Valid() && wal.isOpen && WalLog.Log(wal.V()) == old(WalLog.Log(wal.V()))
                && wal.lastSeqno == old(wal.lastSeqno)
      ensures active == old(active) || fresh(active)
      ensures cuts == old(cuts) ==> unchanged(wal)
      ensures old(active).size <= old(active.size) + Cost(r.key, r.value) && (active == old(active) || active.size == 0)
      ensures active.size < settings.maxBytes || old(|immutables|) >= settings.maxImms || active.size == 0
      ensures Drained() && (old(AllFull()) ==> AllFull())
      ensures cuts == old(cuts) || (cuts[0] == |h| + 1 && (!replaying ==> wal.appendsSinceSync == 0))
    {
      hide Memory, AllFull, WalLog.Consistent, WalLog.Synced, WalLog.Active, WalLog.Log;
      ApplyActive(r, h);
      MaybeRotate(replaying, h + [r]);
      EmptySize(h + [r]);
    }

    lemma EmptySize(h: seq<Record>)
      requires Memory(h)
      ensures active.rows == [] ==> active.size == 0
    {
    }

    method ApplyActive(r: Record, ghost h: seq<Record>)
      requires Memory(h)
      modifies active
      ensures Memory(h + [r]) && cuts[0] < |h + [r]|
      ensures old(AllFull()) ==> AllFull()
      ensures active.size <= old(active.size) + Cost(r.key, r.value)
    {
      hide ImmsOk, ActiveOk, ToMap;
      HasCuts(h);
      ghost var imms, before := Imms(), Active();
      active.Apply(r.key, r.value, r.seqno, r.tombstone);
      assert Imms() == imms;
      AppliedActive(h, cuts[0], before, r);
      LongerImms(h, h + [r], cuts, imms);
    }

    /** Refuse a write when tables pile up, or when the table is full and has nowhere to go. */
    method EnsureWriteCapacity() returns (ok: bool)
      ensures !ok <==> |manifest.tables| > settings.stopWrites
                       || (active.size >= settings.maxBytes && |immutables| >= settings.maxImms)
    {
      if |manifest.tables| > settings.stopWrites {
        return false;
      }
      ok := active.size < settings.maxBytes || |immutables| < settings.maxImms;
    }

    /** What one more mutation does to everything but the memtables; `later` is how much of the longer
        history counts as settled. */
    lemma OneMore(h: seq<Record>, r: Record, segs: seq<seq<Record>>, contents: seq<seq<Record>>, from: nat,
                  flushed: nat, ahead: nat, later: nat, tables: seq<Table>, counter: nat)
      requires LogOk(h, from, segs) && NumbersOk(h, from, flushed, tables, counter) && r.seqno == counter + 1
      requires OrderedOk(h, from, flushed, tables) && ReadsTo(Datas(tables), h, flushed, ahead)
               && AllDrawn(tables, h, ahead)
      requires Flatten(contents) == Flatten(segs) + [r] && ahead <= later <= |h| + 1
      ensures LogOk(h + [r], from, contents) && NumbersOk(h + [r], from, flushed, tables, r.seqno)
      ensures OrderedOk(h + [r], from, flushed, tables)
      ensures ReadsTo(Datas(tables), h + [r], flushed, later) && AllDrawn(tables, h + [r], later)
    {
      hide Flatten, MaxSeqnoOf, ReadsTo, WellOrdered, AllDrawn;
      LongerOrdered(h, r, from, flushed, tables);
      ReadsToBounds(Datas(tables), h, flushed, ahead);
      ReadsToLater(Datas(tables), h, flushed, ahead, h + [r], later);
      AllDrawnFrom(tables, h, ahead, h + [r], later);
      assert (h + [r])[from..] == h[from..] + [r];
    }

    /** Log first, then memory. */
    method LogAndApply(tombstone: bool, key: bytes, value: bytes) returns (r: Result<nat>)
      requires Valid() && wal.lastSeqno + 1 < U64_LIMIT && key != [] && (tombstone ==> value == [])
      modifies this`active, this`immutables, this`cuts, this`hist, this`settled, active, wal
      ensures Valid() && (active == old(active) || fresh(active))
      ensures r == if |key| > 0x4000_0000 || |value| > 0x4000_0000 then Err(InvalidArgument)
              else Ok(old(wal.lastSeqno) + 1)
      ensures r.Err? ==> hist == old(hist)
      ensures r.Ok? ==> hist == old(hist) + [Record(tombstone, key, value, r.value)] && wal.lastSeqno == r.value
                        && Drained()
      ensures r.Ok? ==> Latest(hist, key) == if tombstone then None else Some(value)
      ensures r.Ok? ==> forall k :: k != key ==> Latest(hist, k) == Latest(old(hist), k)
      ensures r.Ok? ==> old(active).size <= old(active.size) + Cost(key, value)
                        && (active == old(active) || active.size == 0)
      ensures r.Ok? ==> active.size < settings.maxBytes || old(|immutables|) >= settings.maxImms || active.size == 0
    {
      hide Valid, Logged, Memory, Ordering, Filed, Cached, WalLog.Consistent, WalLog.Synced, WalLog.Active, LogOk,
        NumbersOk, Flatten, Latest;
      ValidParts();
      LoggedParts();
      ghost var segs, counter := wal.contents, wal.lastSeqno;
      var appended := wal.Append(tombstone, key, value);
      if appended.Err? {
        ValidWhole();
        return Err(InvalidArgument);
      }
      var record := Record(tombstone, key, value, appended.value);
      LatestAfter(hist, record);
      Remember(record, segs, counter);
      r := Ok(appended.value);
    }

    /** A mutation already in the log goes into memory. */
    method Remember(record: Record, ghost segs: seq<seq<Record>>, ghost counter: nat)
      requires Memory(hist) && Ordering() && Filed() && Cached() && wal.Valid() && wal.isOpen
      requires LogOk(hist, walStart, segs) && Flatten(wal.contents) == Flatten(segs) + [record]
      requires cuts != [] && NumbersOk(hist, walStart, cuts[|cuts| - 1], manifest.tables, counter)
      requires record.seqno == counter + 1 == wal.lastSeqno && settled + wal.appendsSinceSync <= |hist| + 1
      modifies this`active, this`immutables, this`cuts, this`hist, this`settled, active, wal
      ensures Valid() && (active == old(active) || fresh(active))
      ensures hist == old(hist) + [record] && wal.lastSeqno == record.seqno && Drained()
      ensures old(active).size <= old(active.size) + Cost(record.key, record.value)
              && (active == old(active) || active.size == 0)
      ensures active.size < settings.maxBytes || old(|immutables|) >= settings.maxImms || active.size == 0
    {
      hide Valid, Logged, Memory, Ordering, Filed, Cached, WalLog.Consistent, WalLog.Synced, WalLog.Active, LogOk,
        NumbersOk, OrderedOk, ReadsTo, AllDrawn, Flatten;
      OrderingParts();
      ghost var h, before, contents := hist, cuts, wal.contents;
      ApplyMutation(record, false, h);
      hist := h + [record];
      ghost var later := if cuts == before then settled else |hist|;
      OneMore(h, record, segs, wal.contents, walStart, before[|before| - 1], settled, later, manifest.tables, counter);
      settled := later;
      HasCuts(hist);
      OrderingWhole();
      LoggedWhole();
      ValidWhole();
    }

    lemma LoggedParts()
      requires Logged()
      ensures wal.Valid() && wal.isOpen && cuts != [] && settled + wal.appendsSinceSync <= |hist|
      ensures LogOk(hist, walStart, wal.contents)
      ensures NumbersOk(hist, walStart, cuts[|cuts| - 1], manifest.tables, wal.lastSeqno)
    {
    }

    lemma LoggedWhole()
      requires wal.Valid() && wal.isOpen && cuts != [] && settled + wal.appendsSinceSync <= |hist|
      requires LogOk(hist, walStart, wal.contents)
      requires NumbersOk(hist, walStart, cuts[|cuts| - 1], manifest.tables, wal.lastSeqno)
      ensures Logged()
    {
    }

    lemma ValidParts()
      requires Valid()
      ensures Memory(hist) && Logged() && Ordering() && Filed() && Cached()
    {
    }

    lemma ValidWhole()
      requires Memory(hist) && Logged() && Ordering() && Filed() && Cached()
      ensures Valid()
    {
    }

    lemma OrderingWhole()
      requires manifest.Valid() && cuts != [] && OrderedOk(hist, walStart, cuts[|cuts| - 1], manifest.tables)
      requires ReadsTo(Datas(manifest.tables), hist, cuts[|cuts| - 1], settled)
               && AllDrawn(manifest.tables, hist, settled)
      requires cuts[0] <= settled <= |hist|
      ensures Ordering()
    {
    }

    lemma OrderingParts()
      requires Ordering()
      ensures cuts != [] && manifest.Valid()
      ensures OrderedOk(hist, walStart, cuts[|cuts| - 1], manifest.tables)
      ensures cuts[0] <= settled <= |hist|
      ensures ReadsTo(Datas(manifest.tables), hist, cuts[|cuts| - 1], settled)
              && AllDrawn(manifest.tables, hist, settled)
    {
    }

    method Put(key: bytes, value: bytes) returns (r: Result<nat>)
      requires Valid() && wal.lastSeqno + 1 < U64_LIMIT
      modifies this`active, this`immutables, this`cuts, this`hist, this`settled, active, wal
      ensures Valid() && (active == old(active) || fresh(active))
      ensures r.Err? ==> hist == old(hist)
      ensures r.Ok? ==> Latest(hist, key) == Some(value)
      ensures r.Ok? ==> forall k :: k != key ==> Latest(hist, k) == Latest(old(hist), k)
      ensures r.Ok? ==> r.value > old(wal.lastSeqno) && hist == old(hist) + [Record(false, key, value, r.value)]
                        && Drained()
      ensures r.Ok? ==> old(active).size <= old(active.size) + Cost(key, value)
      ensures r.Ok? ==> forall entry :: entry >= Cost(key, value) && old(Bounded(entry)) ==> Bounded(entry)
      ensures key == [] ==> r == Err(InvalidArgument)
      ensures r == Err(Backpressure) <==>
              key != [] && old(|manifest.tables| > settings.stopWrites
                               || (active.size >= settings.maxBytes && |immutables| >= settings.maxImms))
      ensures r == Err(InvalidArgument) <==>
              key == [] || (r != Err(Backpressure) && (|key| > 0x4000_0000 || |value| > 0x4000_0000))
      ensures r.Ok? || r == Err(InvalidArgument) || r == Err(Backpressure)
    {
      hide Valid, Latest, Drained;
      if key == [] {
        return Err(InvalidArgument);
      }
      var ok := EnsureWriteCapacity();
      if !ok {
        return Err(Backpressure);
      }
      r := LogAndApply(false, key, value);
    }

    /** A delete is a tombstone, whether or not the key is there. */
    method Remove(key: bytes) returns (r: Result<nat>)
      requires Valid() && wal.lastSeqno + 1 < U64_LIMIT
      modifies this`active, this`immutables, this`cuts, this`hist, this`settled, active, wal
      ensures Valid() && (active == old(active) || fresh(active))
      ensures r.Err? ==> hist == old(hist)
      ensures r.Ok? ==> Latest(hist, key) == None
      ensures r.Ok? ==> forall k :: k != key ==> Latest(hist, k) == Latest(old(hist), k)
      ensures r.Ok? ==> r.value > old(wal.lastSeqno) && hist == old(hist) + [Record(true, key, [], r.value)]
                        && Drained()
      ensures r.Ok? ==> old(active).size <= old(active.size) + Cost(key, [])
      ensures r.Ok? ==> forall entry :: entry >= Cost(key, []) && old(Bounded(entry)) ==> Bounded(entry)
      ensures key == [] ==> r == Err(InvalidArgument)
      ensures r == Err(Backpressure) <==>
              key != [] && old(|manifest.tables| > settings.stopWrites
                               || (active.size >= settings.maxBytes && |immutables| >= settings.maxImms))
      ensures r == Err(InvalidArgument) <==>
              key == [] || (r != Err(Backpressure) && |key| > 0x4000_0000)
      ensures r.Ok? || r == Err(InvalidArgument) || r == Err(Backpressure)
    {
      hide Valid, Latest, Drained;
      if key == [] {
        return Err(InvalidArgument);
      }
      var ok := EnsureWriteCapacity();
      if !ok {
        return Err(Backpressure);
      }
      r := LogAndApply(true, key, []);
    }

    // ----- flushing -----

    lemma Oldest()
      requires Memory(hist) && immutables != []
      ensures |cuts| == |immutables| + 1
      ensures var n := |immutables|;
              cuts[n] < cuts[n - 1] <= |hist|
              && Imms()[n - 1] == Replay(hist[cuts[n]..cuts[n - 1]])
      ensures immutables[|immutables| - 1].Valid() && immutables[|immutables| - 1].rows != []
      ensures Drawn(ToMap(immutables[|immutables| - 1].rows), hist, |hist|)
    {
      hide Replay, ActiveOk;
      var n := |immutables|;
      FlushImms(hist, cuts, Imms());
      LastMutationStored(hist, cuts[n], cuts[n - 1]);
      DrawnReplay(hist, cuts[n], cuts[n - 1], |hist|);
      assert Imms()[n - 1] == ToMap(immutables[n - 1].rows);
      assert immutables[n - 1] in immutables;
    }

    /** Everything the invariant will say once the oldest immutable table is the newest table. */
    lemma FlushReady(f: SstFile, t: Table, s: Spec, tables: seq<Table>, n: nat, b: nat)
      requires Valid() && immutables != [] && t.id == manifest.nextSstId && TableOk(t) && t.size == |f.data|
      requires Stored(f, s) && t.data == ToMap(RowsOf(s)) == Imms()[|immutables| - 1]
      requires tables == [t] + manifest.tables && n == |immutables| && |cuts| == n + 1 && b == cuts[n - 1]
      ensures ImmsOk(hist, cuts[..n], Imms()[..n - 1])
      ensures NumbersOk(hist, walStart, b, tables, wal.lastSeqno) && OrderedOk(hist, walStart, b, tables)
      ensures ReadsTo(Datas(tables), hist, b, settled) && AllDrawn(tables, hist, settled)
      ensures FiledOk(tables, t.id + 1, files[t.id := f], specs[t.id := s]) && CacheKnows(cache.index, specs[t.id := s])
    {
      hide Valid, Logged, Ordering, Stored, TableOk, RowsOf, Contents, CacheKnows, LogOk, ImmsOk, ActiveOk, OrderedOk,
        ReadsTo, NumbersOk, AllDrawn, TablesOk, PublishedOk, FiledAs, WalLog.Consistent, WalLog.Synced, WalLog.Active,
        FiledOk;
      ValidParts();
      LoggedParts();
      OrderingParts();
      FiledParts();
      Oldest();
      FlushImms(hist, cuts, Imms());
      FlushedIsOrdered(cuts[n], b, t);
      FileOne(manifest.tables, t.id, files, specs, f, t, s);
      CacheOne(cache.index, manifest.tables, t.id, specs, s);
    }

    method PublishFlush(f: SstFile, t: Table, ghost s: Spec)
      requires Valid() && immutables != [] && t.id == manifest.nextSstId && TableOk(t) && t.size == |f.data|
      requires Stored(f, s) && t.data == ToMap(RowsOf(s)) == Imms()[|immutables| - 1]
      modifies this`immutables, this`cuts, this`files, this`specs, manifest
      ensures Valid() && manifest.tables == [t] + old(manifest.tables) && files == old(files)[t.id := f]
      ensures immutables == old(immutables)[..|old(immutables)| - 1]
    {
      hide Manifest.Valid, Valid, Logged, Ordering, Stored, TableOk, RowsOf, CacheKnows, LogOk, ImmsOk, ActiveOk,
        OrderedOk, ReadsTo, NumbersOk, AllDrawn, FiledOk, WalLog.Consistent, WalLog.Synced, WalLog.Active;
      ValidParts();
      LoggedParts();
      OrderingParts();
      var n := |immutables|;
      Oldest();
      FlushReady(f, t, s, [t] + manifest.tables, n, cuts[n - 1]);
      ghost var imms := Imms()[..n - 1];
      manifest.AddTable(t);
      immutables, files := immutables[..n - 1], files[t.id := f];
      specs, cuts := specs[t.id := s], cuts[..n];
      assert Imms() == imms;
      OrderingWhole();
      LoggedWhole();
      ValidWhole();
    }

    lemma FlushedIsOrdered(p: nat, b: nat, t: Table)
      requires Valid() && p <= b <= settled && p == cuts[|cuts| - 1] && TableOk(t) && t.data == Replay(hist[p..b])
      ensures NumbersOk(hist, walStart, b, [t] + manifest.tables, wal.lastSeqno)
      ensures OrderedOk(hist, walStart, b, [t] + manifest.tables)
      ensures ReadsTo(Datas([t] + manifest.tables), hist, b, settled)
      ensures AllDrawn([t] + manifest.tables, hist, settled)
    {
      hide Memory, Filed, Cached, TableOk, Replay, OrderedOk, ReadsTo, NumbersOk, Flatten, Drawn, WalLog.Consistent,
        WalLog.Synced, WalLog.Active, RisingFrom;
      FlushNumbers(hist, walStart, p, b, manifest.tables, wal.lastSeqno, t);
      FlushOrdered(hist, walStart, p, b, manifest.tables, t);
      FlushReads(hist, manifest.tables, p, b, settled, t);
      DrawnReplay(hist, p, b, settled);
    }

    /** Delete the log segments the tables cover. */
    method CleanLog()
      requires Valid()
      modifies this`walStart, wal
      ensures Valid() && walStart >= old(walStart)
      ensures wal.segments == WalLog.KeptFiles(old(wal.segments), old(wal.segmentMaxSeqno), old(wal.activeId),
              MaxSeqnoOf(manifest.tables))
    {
      hide Memory, Filed, Cached, WalLog.Consistent, WalLog.Synced, WalLog.Active, WalLog.KeptContents,
        WalLog.KeptFiles, LogOk, NumbersOk, OrderedOk, ReadsTo, AllDrawn, Flatten, MaxSeqnoOf;
      var watermark := manifest.MaxSeqno();
      ghost var dropped := Covered(watermark);
      OrderingParts();
      var deleted := wal.RemoveSegmentsCovered(watermark);
      walStart := walStart + |dropped|;
      OrderingWhole();
    }

    /** What cleanup will drop is the front of the log. */
    lemma Covered(watermark: nat) returns (dropped: seq<Record>)
      requires Logged() && Ordering() && watermark == MaxSeqnoOf(manifest.tables)
      ensures |wal.segments| == |wal.contents|
      ensures LogOk(hist, walStart + |dropped|,
              WalLog.KeptContents(wal.segments, wal.contents, wal.segmentMaxSeqno, wal.activeId, watermark))
      ensures NumbersOk(hist, walStart + |dropped|, cuts[|cuts| - 1], manifest.tables, wal.lastSeqno)
      ensures OrderedOk(hist, walStart + |dropped|, cuts[|cuts| - 1], manifest.tables)
    {
      hide Flatten, ReadsTo, WellOrdered, AllDrawn, MaxSeqnoOf, WalLog.KeptContents, MaxSeqno, WalLog.Synced;
      LogRises(hist, walStart, wal.contents);
      WalLog.ActiveIsLast(wal.V(), wal.activeId, wal.activeBytes);
      dropped := WalLog.CleanupKeepsSuffix(wal.segments, wal.contents, wal.segmentMaxSeqno, wal.lastSeqno,
        wal.activeId, watermark);
      DroppedFront(hist, walStart, wal.contents, dropped,
                   WalLog.KeptContents(wal.segments, wal.contents, wal.segmentMaxSeqno, wal.activeId, watermark),
                     watermark);
      DeleteOrdered(hist, walStart, |dropped|, cuts[|cuts| - 1], manifest.tables);
    }

    lemma DroppedFront(h: seq<Record>, from: nat, segs: seq<seq<Record>>, dropped: seq<Record>, kept: seq<seq<Record>>,
                       watermark: nat)
      requires LogOk(h, from, segs) && Flatten(segs) == dropped + Flatten(kept) && MaxSeqno(dropped) <= watermark
      ensures from + |dropped| <= |h| && LogOk(h, from + |dropped|, kept)
      ensures forall k :: from <= k < from + |dropped| ==> h[k].seqno <= watermark
    {
      hide Flatten;
      assert h[from..][|dropped|..] == h[from + |dropped|..];
      WalLog.MaxSeqnoBounds(dropped);
      forall k | from <= k < from + |dropped| ensures h[k].seqno <= watermark {
        assert h[from..][k - from] == dropped[k - from];
      }
    }

    lemma LogRises(h: seq<Record>, from: nat, segs: seq<seq<Record>>)
      requires LogOk(h, from, segs)
      ensures WalLog.Rising(Flatten(segs))
    {
      hide Flatten;
    }

    /** Flush the oldest immutable table, then clean the log; false when nothing was pending. */
    method FlushOne() returns (flushed: bool)
      requires Valid() && Fits(settings, hist)
      modifies this`immutables, this`cuts, this`files, this`specs, this`walStart, manifest, wal
      ensures Valid() && flushed == (old(immutables) != []) && (old(NoStrays()) ==> NoStrays())
      ensures !flushed ==> immutables == [] && manifest.tables == old(manifest.tables)
      ensures flushed ==> immutables == old(immutables)[..|old(immutables)| - 1]
      ensures flushed ==> |manifest.tables| == |old(manifest.tables)| + 1
                          && manifest.tables[1..] == old(manifest.tables)
                          && manifest.tables[0].data == old(Imms()[|immutables| - 1])
                          && manifest.tables[0].id == old(manifest.nextSstId) && manifest.tables[0].id in files
                          && Wrote(files[manifest.tables[0].id], old(immutables[|immutables| - 1].rows))
      ensures flushed ==>
                wal.segments == WalLog.KeptFiles(old(wal.segments), old(wal.segmentMaxSeqno), old(wal.activeId),
                  MaxSeqnoOf(manifest.tables))
    {
      hide Memory, Logged, Ordering, Filed, Cached, Stored, FitsFormat, ToMap, TableOk, Drawn, RowsOf, WrittenAs;
      if immutables == [] {
        return false;
      }
      Oldest();
      var rows := immutables[|immutables| - 1].rows;
      assert Imms()[|immutables| - 1] == ToMap(rows);
      var f, t;
      ghost var s;
      f, t, s := WriteSst(rows, manifest.nextSstId, settings.blockSize, settings.interval, settings.numBits,
        settings.numHashes);
      NoNewStrays(files, manifest.tables, t, f);
      PublishFlush(f, t, s);
      CleanLog();
      flushed := true;
    }

    // ----- compaction -----

    /** Read the inputs of a job, newest first. */
    method ReadWindow(from: nat, to: nat) returns (scans: seq<seq<Row>>)
      requires Filed() && from <= to <= |manifest.tables|
      ensures |scans| == to - from
      ensures forall i :: 0 <= i < |scans| ==> Ordered(scans[i]) && ToMap(scans[i]) == manifest.tables[from + i].data
    {
      hide Filed, Stored, Contents, Ordered, ToMap;
      scans := [];
      var i := from;
      while i < to
        invariant from <= i <= to && |scans| == i - from
        invariant forall j :: 0 <= j < |scans| ==>
                  Ordered(scans[j]) && ToMap(scans[j]) == manifest.tables[from + j].data
      {
        var t := manifest.tables[i];
        TableContents(t);
        var rows := ReadSst(files[t.id], specs[t.id]);
        scans := scans + [rows];
        i := i + 1;
      }
    }

    /** One manifest edit, then the inputs' files go. */
    method PublishCompaction(from: nat, to: nat, ghost aged: set<nat>, out: Option<Table>, f: SstFile, ghost s: Spec)
      requires Valid() && from < to <= |manifest.tables| && Outputs(manifest.tables, from, to, aged, out)
      requires out.Some? ==> out.value.id == manifest.nextSstId && out.value.size == |f.data| && Stored(f, s)
                             && out.value.data == ToMap(RowsOf(s))
      modifies this`files, this`specs, manifest
      ensures Valid() && manifest.tables == Replaced(old(manifest.tables), from, to, out)
      ensures old(NoStrays()) ==> NoStrays()
      ensures out.Some? ==> out.value.id in files && files[out.value.id] == f
    {
      hide Memory, Stored, RowsOf, ToMap, Contents, CacheKnows, LogOk, OrderedOk, ReadsTo, NumbersOk, AllDrawn, AllOk,
        WellOrdered, Read, TablesOk, PublishedOk, FiledAs, FiledOk, Outputs, Replaced, Outside, Without, Listed,
        SortedFrom, WalLog.Consistent, WalLog.Synced, WalLog.Active;
      var inputs, next := manifest.tables[from..to], manifest.nextSstId;
      ghost var ts := manifest.tables;
      FiledParts();
      OrderingParts();
      assert NumbersOk(hist, walStart, cuts[|cuts| - 1], ts, wal.lastSeqno);
      CacheOne(cache.index, ts, next, specs, s);
      OutsideWindow(ts, from, to);
      manifest.ApplyCompaction(Ids(inputs), out);
      Swapped(hist, walStart, cuts[|cuts| - 1], ts, from, to, aged, out, manifest.tables, wal.lastSeqno, settled);
      var kept := if out.Some? then files[next := f] else files;
      kept := kept - (set x | x in inputs :: x.id);
      ghost var known := if out.Some? then specs[next := s] else specs;
      FileReplaced(ts, from, to, out, next, files, specs, manifest.nextSstId, kept, known, f, s);
      StraysGone(ts, from, to, out, files, kept, next, f);
      files, specs := kept, known;
      OrderingWhole();
    }

    lemma FiledParts()
      requires Filed()
      ensures UniqueIds(manifest.tables) && AllOk(manifest.tables)
      ensures PublishedOk(manifest.tables, manifest.nextSstId, Contents(specs))
    {
      hide Contents, PublishedOk, AllOk, UniqueIds, FiledAs;
    }

    /** What a job may write, it may write: its entries come from the history. */
    method WriteOutput(from: nat, to: nat, aged: set<nat>, rows: seq<Row>)
        returns (out: Option<Table>, f: SstFile, ghost s: Spec)
      requires Valid() && Fits(settings, hist) && from < to <= |manifest.tables|
      requires Ordered(rows) && ToMap(rows) == Output(manifest.tables, from, to, aged)
      ensures Outputs(manifest.tables, from, to, aged, out)
      ensures out.Some? ==> out.value.id == manifest.nextSstId && out.value.size == |f.data| && Stored(f, s)
                            && out.value.data == ToMap(RowsOf(s)) == ToMap(rows) && Wrote(f, rows)
    {
      hide Memory, Logged, Filed, Cached, Stored, FitsFormat, Ordered, TableOk, Drawn, RowsOf, Output;
      OrderingParts();
      DrawnOutput(manifest.tables, from, to, aged, hist, settled);
      DrawnFrom(Output(manifest.tables, from, to, aged), hist, settled, hist, |hist|);
      if rows == [] {
        out, f, s := None, SstFile([], [], []), Spec([], 1, Bloom(0, 0, []), 0);
      } else {
        var t;
        f, t, s := WriteSst(rows, manifest.nextSstId, settings.blockSize, settings.interval, settings.numBits,
          settings.numHashes);
        out := Some(t);
      }
    }

    /** Merge one window of adjacent tables. Nothing anyone can read changes. */
    method CompactWindow(from: nat, to: nat, aged: set<nat>)
      requires Valid() && Fits(settings, hist) && from < to <= |manifest.tables|
      modifies this`files, this`specs, manifest
      ensures Valid() && (old(NoStrays()) ==> NoStrays())
      ensures exists out :: Outputs(old(manifest.tables), from, to, aged, out) && OutputFiled(out)
                            && manifest.tables == Replaced(old(manifest.tables), from, to, out)
    {
      hide Memory, Logged, Ordering, Filed, Cached, Fits, Stored, Ordered, ToMap, Output, Outputs, Replaced, RowsOf,
        UniqueIds, AllOk, PublishedOk;
      FiledParts();
      var scans := ReadWindow(from, to);
      var final := MergeWindow(manifest.tables, from, to, scans, aged, settings.overhead);
      assert Ordered(final.rows);
      var out, f;
      ghost var s;
      out, f, s := WriteOutput(from, to, aged, final.rows);
      PublishCompaction(from, to, aged, out, f, s);
    }

    method LocatePick(pick: Picker.Pick, ghost i: nat) returns (from: nat, to: nat)
      requires Filed() && i + |pick.ids| <= |manifest.tables| && |pick.ids| >= 2
      requires pick.ids == Ids(manifest.tables[i..i + |pick.ids|])
      ensures from == i && to == i + |pick.ids|
    {
      hide Filed;
      FiledParts();
      PickIsWindow(manifest.tables, pick.ids, i);
      var located := SelectWindow(manifest.tables, pick.ids);
      assert located.Chosen? by {
        assert IsWindow(manifest.tables, pick.ids, i, i + |pick.ids|);
      }
      from, to := located.from, located.to;
      SameWindow(manifest.tables, pick.ids, i, i + |pick.ids|, from, to);
    }

    /** The window of a job: one that somebody names, or the picker's. */
    method ChooseWindow(inputs: Option<seq<nat>>) returns (r: Job)
      requires Filed()
      ensures inputs.None? ==> !r.Refused? && (r.NoSet? <==> |manifest.tables| < Picker.WindowSize(settings.fanIn))
      ensures inputs.Some? ==> !r.NoSet? && (r.Done? ==> IsWindow(manifest.tables, inputs.value, r.from, r.to))
      ensures r.Done? ==> r.from < r.to <= |manifest.tables|
      ensures r.Done? && inputs.None? ==> ByPicker(settings, manifest.tables, r.from, r.to)
      ensures r.Refused? ==> Refuses(manifest.tables, inputs.value, r.why)
    {
      hide FiledOk, IsWindow, Live, ByPicker, Refuses;
      if inputs.Some? {
        var chosen := SelectWindow(manifest.tables, inputs.value);
        RefusedWell(manifest.tables, inputs.value, chosen);
        if !chosen.Chosen? {
          return Refused(chosen);
        }
        WindowBounds(manifest.tables, inputs.value, chosen.from, chosen.to);
        return Done(chosen.from, chosen.to);
      }
      SizesFit();
      var pick := Picker.PickCompaction(manifest.tables, settings.fanIn, settings.ratio);
      if pick.None? {
        return NoSet;
      }
      ghost var i := PickStart(pick.value, manifest.tables, Picker.WindowSize(settings.fanIn), settings.ratio);
      var from, to := LocatePick(pick.value, i);
      PickedWindow(settings, pick.value, manifest.tables, from, to);
      r := Done(from, to);
    }

    /** One job: a window somebody names, or the picker's. */
    method RunCompaction(inputs: Option<seq<nat>>, aged: set<nat>) returns (r: Job)
      requires Valid() && Fits(settings, hist)
      modifies this`files, this`specs, manifest
      ensures Valid() && (old(NoStrays()) ==> NoStrays())
      ensures !r.Done? ==> manifest.tables == old(manifest.tables) && files == old(files)
      ensures inputs.None? ==> !r.Refused? && (r.NoSet? <==> |old(manifest.tables)| < Picker.WindowSize(settings.fanIn))
      ensures inputs.Some? ==> !r.NoSet? && (r.Done? ==> IsWindow(old(manifest.tables), inputs.value, r.from, r.to))
      ensures r.Done? ==> r.from < r.to <= |old(manifest.tables)|
                          && exists out :: Outputs(old(manifest.tables), r.from, r.to, aged, out) && OutputFiled(out)
                                           && manifest.tables == Replaced(old(manifest.tables), r.from, r.to, out)
      ensures r.Done? && inputs.None? ==> ByPicker(settings, old(manifest.tables), r.from, r.to)
      ensures r.Refused? ==> Refuses(old(manifest.tables), inputs.value, r.why)
    {
      hide Valid, Filed, Fits, Outputs, Replaced, IsWindow, ByPicker, Refuses, OutputFiled;
      ValidParts();
      r := ChooseWindow(inputs);
      if r.Done? {
        CompactWindow(r.from, r.to, aged);
      }
    }

    lemma SizesFit()
      requires Filed()
      ensures forall t :: t in manifest.tables ==> t.size < U64_LIMIT
    {
      hide TablesOk, PublishedOk, Contents, Stored;
      forall t | t in manifest.tables ensures t.size < U64_LIMIT {
        StoredFacts(files[t.id], specs[t.id]);
      }
    }

    /** Compact while tables are too many; every round leaves fewer. */
    method MaybeAutoCompact(aged: set<nat>)
      requires Valid() && Fits(settings, hist)
      modifies this`files, this`specs, manifest
      ensures Valid() && |manifest.tables| <= |old(manifest.tables)| && (old(NoStrays()) ==> NoStrays())
      ensures |manifest.tables| < settings.trigger || |manifest.tables| < Picker.WindowSize(settings.fanIn)
      ensures old(|manifest.tables|) < settings.trigger ==> manifest.tables == old(manifest.tables)
      ensures manifest.tables == old(manifest.tables)
              || |manifest.tables| + Picker.WindowSize(settings.fanIn) >= settings.trigger
      ensures exists n :: Rounds(settings, old(manifest.tables), manifest.tables, aged, n)
    {
      hide Valid, Fits, Outputs, Replaced, ByPicker, Round, Rounds, NoStrays, OutputFiled;
      ghost var n: nat := 0;
      NoRounds(settings, manifest.tables, aged);
      var previous: Option<nat> := None;
      while |manifest.tables| >= settings.trigger && (previous.None? || |manifest.tables| < previous.value)
        invariant Valid() && |manifest.tables| <= |old(manifest.tables)| && (old(NoStrays()) ==> NoStrays())
        invariant manifest.tables == old(manifest.tables)
                  || (|manifest.tables| + Picker.WindowSize(settings.fanIn) >= settings.trigger
                      && old(|manifest.tables|) >= settings.trigger)
        invariant Rounds(settings, old(manifest.tables), manifest.tables, aged, n)
        invariant previous.Some? ==> |manifest.tables| < previous.value
        decreases |manifest.tables|
      {
        ghost var before := manifest.tables;
        previous := Some(|manifest.tables|);
        var r := RunCompaction(None, aged);
        if !r.Done? {
          break;
        }
        PickerWidth(settings, before, r.from, r.to);
        ghost var out :| Outputs(before, r.from, r.to, aged, out)
          && manifest.tables == Replaced(before, r.from, r.to, out);
        ReplacedShrinks(before, r.from, r.to, out);
        IsRound(settings, before, r.from, r.to, out, aged);
        OneMoreRound(settings, old(manifest.tables), before, manifest.tables, aged, n);
        n := n + 1;
      }
    }

    /** Flush everything pending, oldest first, then compact unless that is paused. */
    method FlushPending(paused: bool, aged: set<nat>) returns (flushed: nat)
      requires Valid() && Fits(settings, hist)
      modifies this`immutables, this`cuts, this`files, this`specs, this`walStart, manifest, wal
      ensures Valid() && immutables == [] && flushed == |old(immutables)| && (old(NoStrays()) ==> NoStrays())
      ensures !paused ==> |manifest.tables| < settings.trigger || |manifest.tables| < Picker.WindowSize(settings.fanIn)
      ensures exists mid :: InFront(old(Imms()), old(manifest.tables), mid)
                            && if paused then manifest.tables == mid
                               else exists n :: Rounds(settings, mid, manifest.tables, aged, n)
    {
      hide Valid, Fits, InFront, Rounds, Wrote, NoStrays;
      flushed := 0;
      ghost var imms := Imms();
      NoneInFront(imms, manifest.tables);
      while immutables != []
        invariant Valid() && flushed + |immutables| == |old(immutables)| && (old(NoStrays()) ==> NoStrays())
        invariant |imms| == |old(immutables)| && Imms() == imms[..|immutables|]
        invariant InFront(imms[|immutables|..], old(manifest.tables), manifest.tables)
        decreases |immutables|
      {
        ghost var before := manifest.tables;
        var done := FlushOne();
        OneMoreInFront(imms, |immutables| + 1, old(manifest.tables), before, manifest.tables);
        flushed := flushed + 1;
      }
      if !paused {
        MaybeAutoCompact(aged);
      }
    }

    // ----- get -----

    method FindImmutable(key: bytes) returns (e: Option<Entry>)
      requires forall m :: m in immutables ==> m.Valid()
      ensures e == First(Imms(), key)
    {
      var i := 0;
      while i < |immutables|
        invariant i <= |immutables| && forall j :: 0 <= j < i ==> key !in Imms()[j]
      {
        assert immutables[i] in immutables;
        e := immutables[i].Lookup(key);
        if e.Some? {
          FirstHit(Imms(), key, i);
          return;
        }
        i := i + 1;
      }
      NoHit(Imms(), key);
      e := None;
    }

    lemma TableContents(t: Table)
      requires Filed() && t in manifest.tables
      ensures t.id in specs && t.id in files && Stored(files[t.id], specs[t.id]) && Contents(specs)[t.id] == t.data
      ensures RowsOf(specs[t.id]) != [] && ToMap(RowsOf(specs[t.id])) == t.data
    {
      hide Genuine, DamagedCopy, Image, Flatten, ToMap, AllOk, UniqueIds;
    }

    method FindTable(key: bytes) returns (e: Option<Entry>)
      requires Filed() && Cached()
      modifies cache
      ensures Cached() && e == First(Datas(manifest.tables), key)
    {
      hide Filed, Stored, Contents, CacheKnows;
      var i := 0;
      while i < |manifest.tables|
        invariant i <= |manifest.tables| && Cached()
        invariant forall j :: 0 <= j < i ==> key !in Datas(manifest.tables)[j]
      {
        var t := manifest.tables[i];
        TableContents(t);
        e := Probe(files[t.id], t.id, key, cache, settings.pinIndex, specs);
        if e.Some? {
          FirstHit(Datas(manifest.tables), key, i);
          return;
        }
        i := i + 1;
      }
      NoHit(Datas(manifest.tables), key);
      e := None;
    }

    lemma StackIsExact(key: bytes)
      requires Memory(hist) && Ordering()
      ensures Read([Active()] + (Imms() + Datas(manifest.tables)), key) == Latest(hist, key)
    {
      hide ReadsTo, ImmsOk, Read, Latest, OrderedOk, AllDrawn;
      ReadsToLater(Datas(manifest.tables), hist, cuts[|cuts| - 1], settled, hist, |hist|);
      StackReads(hist, cuts, Imms(), Datas(manifest.tables), |hist|);
      TopReads(Imms() + Datas(manifest.tables), hist, cuts[0], |hist|, |hist|, Active(), key);
      assert hist[..|hist|] == hist;
    }

    /** Active table, then immutable tables, then table files, newest first; the first hit decides. */
    method Get(key: bytes) returns (r: Result<Option<bytes>>)
      requires Valid()
      modifies cache
      ensures Valid()
      ensures r == if key == [] then Err(InvalidArgument) else Ok(Latest(hist, key))
    {
      hide Memory, Logged, Ordering, Filed, Cached, Latest;
      if key == [] {
        return Err(InvalidArgument);
      }
      StackIsExact(key);
      FirstCons(Active(), Imms() + Datas(manifest.tables), key);
      FirstAppend(Imms(), Datas(manifest.tables), key);
      assert active.Valid() && forall m :: m in immutables ==> m.Valid() by {
        MemtablesValid(hist);
      }
      var e := active.Lookup(key);
      if e.None? {
        e := FindImmutable(key);
        if e.None? {
          e := FindTable(key);
        }
      }
      r := Ok(Reading(e));
    }

    lemma MemtablesValid(h: seq<Record>)
      requires Memory(h)
      ensures active.Valid() && forall m :: m in immutables ==> m.Valid()
    {
    }
  }

  // ----- starting from nothing -----

  /** A store with no files at all opens as the empty history. */
  method FreshStart(settings: Settings, fsyncEveryN: nat, rollBytes: nat, cacheBytes: nat) returns (e: Engine)
    ensures fresh(e) && e.Valid() && e.hist == [] && e.settings == settings
    ensures e.NoStrays() && e.AllFull() && e.Drained() && e.cache.capacity == cacheBytes
    ensures e.wal.fsyncEveryN == (if fsyncEveryN == 0 then 1 else fsyncEveryN) && e.wal.rollBytes == rollBytes
  {
    hide CacheKnows, Engine.Valid, Engine.AtRest;
    e := new Engine(settings, None, [], map[], fsyncEveryN, rollBytes, cacheBytes, [], 0, 0, 0, map[]);
    EmptyCacheKnows(e.cache.index, e.specs);
    assert Datas(e.manifest.tables) == [];
    e.RestWhole();
    var report := e.Open();
  }

  // ----- stopping and starting again -----

  ghost function Known(specs: map<nat, Spec>, ts: seq<Table>): map<nat, Spec> {
    map id | id in specs && (exists t :: t in ts && t.id == id) :: specs[id]
  }

  /** The next process knows the live tables and nothing else. */
  lemma KnownIsFiled(ts: seq<Table>, nextId: nat, files: map<nat, SstFile>, specs: map<nat, Spec>, next: nat)
    requires FiledOk(ts, nextId, files, specs) && forall t :: t in ts ==> t.id < next
    ensures FiledOk(ts, next, files, Known(specs, ts))
  {
    hide Stored, ToMap, RowsOf, AllOk, UniqueIds;
    forall t | t in ts
      ensures FiledAs(t, files, Known(specs, ts)) && Contents(Known(specs, ts))[t.id] == Contents(specs)[t.id] {
      assert FiledAs(t, files, specs);
    }
  }

  lemma LoadedTables(loaded: seq<Table>, saved: seq<Table>, ts: seq<Table>)
    requires SortedFrom(loaded, saved) && multiset(saved) == multiset(ts) && WellOrdered(ts) && AllOk(ts)
    ensures loaded == ts
  {
    hide TableOk;
    SortKeepsWellOrdered(loaded, ts);
  }

  /** The directory after a crash: each segment keeps some front of what was written to it. */
  ghost function Survivors(files: seq<WalLog.SegmentFile>, images: seq<bytes>): (r: seq<WalLog.SegmentFile>)
    requires |images| == |files|
    ensures |r| == |files| && forall i :: 0 <= i < |r| ==> r[i].id == files[i].id && r[i].data == images[i]
  {
    seq(|files|, i requires 0 <= i < |files| => WalLog.SegmentFile(files[i].id, images[i], |images[i]|))
  }

  /** The log that survives is the front of the log, and lacks only what was never fsynced. */
  lemma SurvivingLog(h: seq<Record>, from: nat, v: WalLog.View, images: seq<bytes>) returns (n: nat)
    requires WalLog.Consistent(v) && WalLog.Synced(v) && WalLog.CrashImage(v.files, images)
             && LogOk(h, from, v.contents)
    requires forall i :: 0 <= i < |v.contents| ==> WalFormat.AllReadable(v.contents[i])
    ensures |images| == |v.files| && from <= n <= |h| && |h| - n <= v.unsynced
    ensures LogOk(h[..n], from, WalLog.ReadContents(Survivors(v.files, images)))
    ensures WalLog.Increasing(Survivors(v.files, images))
  {
    hide Flatten, WalFormat.AllReadable, WalFormat.SegmentRecords, WalLog.SegmentOk, WalLog.SyncedFile;
    WalLog.CrashKeepsSafeRecords(v, images);
    UnsyncedInLast(v);
    WalLog.SafeBound(v);
    var read := WalLog.ReadContents(Survivors(v.files, images));
    var all := WalLog.Recovered(images);
    assert read == seq(|images|, i requires 0 <= i < |images| => WalFormat.SegmentRecords(images[i]));
    n := from + |all|;
    assert all == h[from..][..|all|] == h[..n][from..];
  }

  lemma UnsyncedInLast(v: WalLog.View)
    requires WalLog.Synced(v)
    ensures |v.contents| > 0 && v.unsynced <= |v.contents[|v.contents| - 1]|
  {
  }

  /** What a valid engine leaves to its successor, whatever a crash takes. */
  lemma LeftBehind(e: Engine, images: seq<bytes>) returns (n: nat)
    requires e.Valid() && WalLog.CrashImage(e.wal.segments, images)
    requires forall i :: 0 <= i < |e.wal.contents| ==> WalFormat.AllReadable(e.wal.contents[i])
    ensures |images| == |e.wal.segments| && e.walStart <= n <= |e.hist| < n + e.wal.fsyncEveryN
    ensures LogOk(e.hist[..n], e.walStart, WalLog.ReadContents(Survivors(e.wal.segments, images)))
    ensures WalLog.Increasing(Survivors(e.wal.segments, images))
    ensures e.cuts != [] && e.cuts[|e.cuts| - 1] <= n
    ensures var ts, flushed := e.manifest.tables, e.cuts[|e.cuts| - 1];
            && OrderedOk(e.hist[..n], e.walStart, flushed, ts) && ReadsTo(Datas(ts), e.hist[..n], flushed, n)
            && AllDrawn(ts, e.hist[..n], n) && WellOrdered(ts) && AllOk(ts)
    ensures FiledOk(e.manifest.tables, e.manifest.nextSstId, e.files, e.specs)
    ensures e.manifest.saved.None? ==> e.manifest.tables == []
    ensures e.manifest.saved.Some? ==> multiset(e.manifest.saved.value.tables) == multiset(e.manifest.tables)
  {
    hide LogOk, NumbersOk, OrderedOk, ReadsTo, AllDrawn, WalLog.Consistent, WalLog.Synced, WalLog.Active,
      WalLog.CrashImage, WalFormat.AllReadable, CacheKnows, ImmsOk, ActiveOk, FiledOk, WalLog.Increasing,
      WalLog.ReadContents;
    var ts, flushed := e.manifest.tables, e.cuts[|e.cuts| - 1];
    e.FiledParts();
    e.OrderingParts();
    OrderedTables(e.hist, e.walStart, flushed, ts);
    n := SurvivingLog(e.hist, e.walStart, e.wal.V(), images);
    ShorterOrdered(e.hist, e.walStart, flushed, ts, n);
    ReadsToBounds(Datas(ts), e.hist, flushed, e.settled);
    ShorterReads(Datas(ts), e.hist, flushed, e.settled, n);
    AllDrawnFrom(ts, e.hist, e.settled, e.hist[..n], n);
  }

  /** Crash recovery over the bytes on disk. However a crash cuts the segment files, the engine that
      opens what is left holds the front of the history, short of fewer mutations than one fsync
      covers, and answers every get from it. */
  method CrashRestart(e: Engine, images: seq<bytes>, segments: seq<WalLog.SegmentFile>,
                      fsyncEveryN: nat, rollBytes: nat, cacheBytes: nat) returns (f: Engine, ghost n: nat)
    requires e.Valid() && WalLog.CrashImage(e.wal.segments, images)
    requires |images| == |e.wal.segments| && segments == Survivors(e.wal.segments, images)
    requires forall i :: 0 <= i < |e.wal.contents| ==> WalFormat.AllReadable(e.wal.contents[i])
    requires Newer(WalLog.ReadContents(segments), e.manifest.tables)
    ensures fresh(f) && f.Valid() && f.manifest.tables == e.manifest.tables && f.files == e.files
    ensures f.settings == e.settings && f.AllFull() && f.Drained() && f.cache.capacity == cacheBytes
    ensures f.wal.fsyncEveryN == (if fsyncEveryN == 0 then 1 else fsyncEveryN) && f.wal.rollBytes == rollBytes
    ensures n <= |e.hist| < n + e.wal.fsyncEveryN && f.hist == e.hist[..n]
  {
    hide LogOk, OrderedOk, ReadsTo, AllDrawn, Newer, WalFormat.AllReadable, WalLog.CrashImage, CacheKnows, FiledOk,
      WalLog.Increasing, WalLog.ReadContents, SortedFrom, WellOrdered, AllOk, Engine.Valid, Engine.AtRest, Survivors;
    n := LeftBehind(e, images);
    ghost var ts, flushed := e.manifest.tables, e.cuts[|e.cuts| - 1];
    f := new Engine(e.settings, e.manifest.saved, segments, e.files, fsyncEveryN, rollBytes, cacheBytes,
                    e.hist[..n], e.walStart, flushed, n, Known(e.specs, ts));
    if e.manifest.saved.Some? {
      LoadedTables(f.manifest.tables, e.manifest.saved.value.tables, ts);
    }
    KnownIsFiled(ts, e.manifest.nextSstId, e.files, e.specs, f.manifest.nextSstId);
    EmptyCacheKnows(f.cache.index, f.specs);
    f.RestWhole();
    var report := f.Open();
  }
}
