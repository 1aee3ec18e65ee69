/** The engine as a state machine over its atomic steps.

    One step is what a thread does between two points where another thread, a reader or a crash
    can come between: under the writer's lock, under the state lock, or on disk. */
module Store {
  import opened Bytes
  import opened Memtables
  import opened Seqs
  import opened History
  import opened Tables
  import opened Compaction

  /** Where the one writer holding the write lock stands. */
  datatype Writer = Idle | Logged | Durable | Visible

  /** Where the one thread holding the creation lock stands. */
  datatype Creator =
    | Free
    | Flushing
    | FlushWritten(id: nat)
    | Cleaning
    | Compacting(from: nat, to: nat)
    | CompactWritten(from: nat, to: nat, aged: set<nat>, out: Option<Table>)
    | Deleting(inputs: set<nat>)

  /** What a reader captured: its active memtable by identity, the rest by value. */
  datatype Version = Version(memId: nat, imms: seq<Mem>, tables: seq<Table>)

  datatype Stage = Captured | Probing(layer: nat, moment: nat) | Answered(result: Option<bytes>, moment: nat)

  /** `start` is where its active memtable begins in the history; `captured` is how many mutations
      were visible when the version was captured. */
  datatype Reader = Reader(key: bytes, version: Version, start: nat, captured: nat, stage: Stage)

  datatype Frozen = Frozen(data: Mem, end: nat)

  datatype State = State(
    every: positive,               // fsync after this many appends
    up: bool,
    hist: seq<Record>,             // every mutation logged and not lost
    durable: nat,                  // this many of them survive any crash
    walStart: nat,                 // the log holds hist[walStart..]
    segs: seq<seq<Record>>,        // by segment, the active one last
    unsynced: nat,                 // appends since the last fsync
    lastSeqno: nat,
    active: Mem, activeId: nat,
    imms: seq<Mem>,                // newest first
    cuts: seq<nat>,                // cuts[0] begins the active table, cuts[i+1] begins imms[i]
    tables: seq<Table>,            // the durable manifest, newest first
    nextId: nat,
    files: map<nat, Mem>,          // complete table files on disk
    published: map<nat, Mem>,      // every table this process has published
    frozen: map<nat, Frozen>,      // rotated memtables, for readers that still hold them
    writer: Writer, creator: Creator,
    readers: map<nat, Reader>)

  datatype Action =
    | Log(tombstone: bool, key: bytes, value: bytes, rolls: bool)
    | Sync | Apply | Rotate | Acknowledge
    | BeginFlush | WriteFlush | PublishFlush(table: Table) | DeleteSegment(index: nat) | EndCleanup
    | BeginCompact(from: nat, to: nat) | WriteCompact(aged: set<nat>, out: Option<Table>)
    | PublishCompact(order: seq<Table>) | DeleteInput(id: nat) | EndDelete | Abandon
    | Capture(reader: nat, key: bytes) | ProbeActive(reader: nat) | ProbeNext(reader: nat) | Release(reader: nat)
    | Crash(survivors: nat) | RemoveOrphan(id: nat) | Open(order: seq<Table>, cuts: seq<nat>)

  function Initial(every: positive): State {
    State(every, false, [], 0, 0, [], 0, 0, map[], 0, [], [0], [], 1, map[], map[], map[], Idle, Free, map[])
  }

  // ----- readings of a state -----

  /** Mutations visible in memory: all but the one being appended. */
  function Applied(s: State): nat {
    if (s.writer.Logged? || s.writer.Durable?) && s.hist != [] then |s.hist| - 1 else |s.hist|
  }

  /** Mutations acknowledged to their callers, and so promised. */
  function Acked(s: State): nat {
    if s.writer.Idle? || s.hist == [] then |s.hist| else |s.hist| - 1
  }

  function Stable(s: State): nat {
    if s.durable <= Applied(s) then s.durable else Applied(s)
  }

  /** The first mutation no table holds for certain. */
  function Flushed(s: State): nat
    requires s.cuts != []
  {
    s.cuts[|s.cuts| - 1]
  }

  function Layers(s: State): seq<Mem> {
    [s.active] + s.imms + Datas(s.tables)
  }

  function Rest(v: Version): seq<Mem> {
    v.imms + Datas(v.tables)
  }

  function FileOf(files: map<nat, Mem>, id: nat): Mem {
    if id in files then files[id] else map[]
  }

  predicate Above(r: Record, tables: seq<Table>) {
    r.seqno > MaxSeqnoOf(tables)
  }

  // ----- when a step can happen -----

  ghost predicate CanCleanup(segs: seq<seq<Record>>, index: nat, watermark: nat) {
    && index + 1 < |segs|
    && (forall r :: r in segs[index] ==> r.seqno <= watermark)
    && (forall j :: 0 <= j < index && segs[j] != [] ==> exists r :: r in segs[j] && r.seqno > watermark)
  }

  ghost predicate Referenced(readers: map<nat, Reader>, id: nat) {
    exists k :: k in readers && id in Ids(readers[k].version.tables)
  }

  predicate Falling(cuts: seq<nat>) {
    forall i :: 0 < i < |cuts| ==> cuts[i - 1] > cuts[i]
  }

  ghost predicate CanOpen(s: State, order: seq<Table>, cuts: seq<nat>) {
    && !s.up && SortedFrom(order, s.tables)
    && (forall id :: id in s.files ==> id in Ids(s.tables))
    && cuts != [] && Falling(cuts) && cuts[0] <= |s.hist| && cuts[|cuts| - 1] == s.walStart
  }

  ghost predicate Enabled(s: State, a: Action) {
    match a
    case Log(_, key, _, _) => s.up && s.writer.Idle? && key != [] && s.segs != []
    case Sync => s.up && s.writer.Logged?
    case Apply => s.up && s.writer.Durable? && s.hist != []
    case Rotate => s.up && s.writer.Visible? && s.cuts != [] && s.cuts[0] < |s.hist|
    case Acknowledge => s.up && s.writer.Visible?
    case BeginFlush => s.up && s.creator.Free? && s.imms != []
    case WriteFlush => s.up && s.creator.Flushing? && s.imms != []
    case PublishFlush(t) =>
      && s.up && s.creator.FlushWritten? && s.imms != [] && |s.cuts| > 1
      && t.id == s.creator.id && t.data == s.imms[|s.imms| - 1] && TableOk(t)
    case DeleteSegment(i) => s.up && s.creator.Cleaning? && CanCleanup(s.segs, i, MaxSeqnoOf(s.tables))
    case EndCleanup => s.up && s.creator.Cleaning?
    case BeginCompact(from, to) => s.up && s.creator.Free? && from < to <= |s.tables|
    case WriteCompact(aged, out) =>
      && s.up && s.creator.Compacting? && s.creator.from < s.creator.to <= |s.tables|
      && Outputs(s.tables, s.creator.from, s.creator.to, aged, out) && (out.Some? ==> out.value.id == s.nextId)
    case PublishCompact(order) =>
      && s.up && s.creator.CompactWritten? && s.creator.from < s.creator.to <= |s.tables|
      && SortedFrom(order, Outside(s.tables, s.creator.from, s.creator.to) + Listed(s.creator.out))
    case DeleteInput(id) => s.up && s.creator.Deleting? && id in s.creator.inputs && !Referenced(s.readers, id)
    case EndDelete => s.up && s.creator.Deleting?
    case Abandon => s.up && (s.creator.Compacting? || s.creator.CompactWritten? || s.creator.Flushing?
      || s.creator.FlushWritten?)
    case Capture(r, key) => s.up && r !in s.readers && s.cuts != [] && key != []
    case ProbeActive(r) =>
      && s.up && r in s.readers && s.readers[r].stage.Captured?
      && (s.readers[r].version.memId == s.activeId || s.readers[r].version.memId in s.frozen)
    case ProbeNext(r) => s.up && r in s.readers && s.readers[r].stage.Probing?
    case Release(r) => s.up && r in s.readers && s.readers[r].stage.Answered?
    case Crash(n) => s.up && s.cuts != [] && s.segs != [] && s.durable <= n <= |s.hist|
      && |s.hist| - n <= |s.segs[|s.segs| - 1]|
    case RemoveOrphan(id) => !s.up && id in s.files && id !in Ids(s.tables)
    case Open(order, cuts) => CanOpen(s, order, cuts)
  }

  // ----- what a step does -----

  function NextRecord(s: State, tombstone: bool, key: bytes, value: bytes): Record {
    Record(tombstone, key, if tombstone then [] else value, s.lastSeqno + 1)
  }

  /** Add to the active segment. */
  function Appended(segs: seq<seq<Record>>, r: Record): seq<seq<Record>>
    requires segs != []
  {
    segs[..|segs| - 1] + [segs[|segs| - 1] + [r]]
  }

  /** Take the last n records off the active segment. */
  function Torn(segs: seq<seq<Record>>, n: nat): seq<seq<Record>>
    requires segs != [] && n <= |segs[|segs| - 1]|
  {
    var last := segs[|segs| - 1];
    segs[..|segs| - 1] + [last[..|last| - n]]
  }

  /** A new segment begins only after the old one is on disk. */
  function Rolled(s: State): State {
    s.(durable := |s.hist|, unsynced := 0, segs := s.segs + [[]])
  }

  function DoLog(s: State, tombstone: bool, key: bytes, value: bytes): State
    requires s.segs != []
  {
    var r := NextRecord(s, tombstone, key, value);
    s.(hist := s.hist + [r], segs := Appended(s.segs, r), lastSeqno := r.seqno, writer := Logged)
  }

  function DoSync(s: State): State {
    var full := s.unsynced + 1 >= s.every;
    s.(unsynced := if full then 0 else s.unsynced + 1, durable := if full then |s.hist| else s.durable,
       writer := Durable)
  }

  function DoApply(s: State): State
    requires s.hist != []
  {
    var r := s.hist[|s.hist| - 1];
    s.(active := s.active[r.key := ToEntry(r)], writer := Visible)
  }

  function DoRotate(s: State): State {
    Rolled(s).(imms := [s.active] + s.imms, cuts := [|s.hist|] + s.cuts,
               frozen := s.frozen[s.activeId := Frozen(s.active, |s.hist|)],
               active := map[], activeId := s.activeId + 1)
  }

  function DoPublishFlush(s: State, t: Table): State
    requires s.imms != [] && |s.cuts| > 1
  {
    s.(tables := [t] + s.tables, imms := s.imms[..|s.imms| - 1], cuts := s.cuts[..|s.cuts| - 1],
       nextId := if t.id + 1 > s.nextId then t.id + 1 else s.nextId,
       published := s.published[t.id := t.data], creator := Cleaning)
  }

  function DoDeleteSegment(s: State, i: nat): State
    requires i < |s.segs|
  {
    s.(segs := s.segs[..i] + s.segs[i + 1..], walStart := s.walStart + |s.segs[i]|)
  }

  function DoPublishCompact(s: State, order: seq<Table>): State
    requires s.creator.CompactWritten? && s.creator.from < s.creator.to <= |s.tables|
  {
    var inputs := s.tables[s.creator.from..s.creator.to];
    var t := s.creator.out;
    s.(tables := order,
       nextId := if t.Some? && t.value.id + 1 > s.nextId then t.value.id + 1 else s.nextId,
       published := if t.Some? then s.published[t.value.id := t.value.data] else s.published,
       creator := Deleting(set x | x in inputs :: x.id))
  }

  function DoCapture(s: State, r: nat, key: bytes): State
    requires s.cuts != []
  {
    s.(readers := s.readers[r := Reader(key, Version(s.activeId, s.imms, s.tables), s.cuts[0], Applied(s), Captured)])
  }

  /** The one probe whose answer depends on when it happens. */
  function AfterActive(s: State, r: Reader): Stage
    requires r.version.memId == s.activeId || r.version.memId in s.frozen
  {
    var live := r.version.memId == s.activeId;
    var mem := if live then s.active else s.frozen[r.version.memId].data;
    var moment := if live then Applied(s) else s.frozen[r.version.memId].end;
    if r.key in mem then Answered(Reading(Some(mem[r.key])), moment) else Probing(0, moment)
  }

  /** The data behind one layer: a table is read from its file. */
  function LayerData(files: map<nat, Mem>, v: Version, i: nat): Mem
    requires i < |v.imms| + |v.tables|
  {
    if i < |v.imms| then v.imms[i] else FileOf(files, v.tables[i - |v.imms|].id)
  }

  function AfterLayer(files: map<nat, Mem>, r: Reader): Stage
    requires r.stage.Probing?
  {
    var v, i := r.version, r.stage.layer;
    if i >= |v.imms| + |v.tables| then Answered(None, r.stage.moment)
    else if r.key in LayerData(files, v, i) then Answered(Reading(Some(LayerData(files, v, i)[r.key])), r.stage.moment)
    else Probing(i + 1, r.stage.moment)
  }

  function WithStage(s: State, r: nat, stage: Stage): State
    requires r in s.readers
  {
    s.(readers := s.readers[r := s.readers[r].(stage := stage)])
  }

  /** Memory is gone; the log keeps some prefix that includes all that was fsynced. */
  function DoCrash(s: State, n: nat): State
    requires s.cuts != [] && s.segs != [] && n <= |s.hist| && |s.hist| - n <= |s.segs[|s.segs| - 1]|
  {
    s.(up := false, hist := s.hist[..n], durable := n, segs := Torn(s.segs, |s.hist| - n), unsynced := 0,
       active := map[], imms := [], cuts := [Flushed(s)], published := map[], frozen := map[],
       writer := Idle, creator := Free, readers := map[])
  }

  function PublishedFrom(ts: seq<Table>): map<nat, Mem> {
    if ts == [] then map[] else PublishedFrom(ts[1..])[ts[0].id := ts[0].data]
  }

  function MemtablesFrom(h: seq<Record>, cuts: seq<nat>): seq<Mem>
    requires cuts != [] && Falling(cuts) && cuts[0] <= |h|
  {
    if |cuts| == 1 then [] else
      assert cuts[0] > cuts[1];
      [Replay(h[cuts[1]..cuts[0]])] + MemtablesFrom(h, cuts[1..])
  }

  /** The manifest is sorted, the log is replayed into memtables cut wherever rotation falls, and
      the counter starts above both. What survived counts as durable. */
  function DoOpen(s: State, order: seq<Table>, cuts: seq<nat>): State
    requires cuts != [] && Falling(cuts) && cuts[0] <= |s.hist|
  {
    var m, t := MaxSeqno(Flatten(s.segs)), MaxSeqnoOf(order);
    s.(up := true, durable := |s.hist|, segs := if s.segs == [] then [[]] else s.segs, unsynced := 0,
       lastSeqno := if m > t then m else t,
       active := Replay(s.hist[cuts[0]..]), activeId := 0, imms := MemtablesFrom(s.hist, cuts), cuts := cuts,
       tables := order, published := PublishedFrom(order), frozen := map[],
       writer := Idle, creator := Free, readers := map[])
  }

  ghost function Do(s: State, a: Action): State
    requires Enabled(s, a)
  {
    match a
    case Log(tombstone, key, value, rolls) => DoLog(if rolls then Rolled(s) else s, tombstone, key, value)
    case Sync => DoSync(s)
    case Apply => DoApply(s)
    case Rotate => DoRotate(s)
    case Acknowledge => s.(writer := Idle)
    case BeginFlush => s.(creator := Flushing)
    case WriteFlush => s.(files := s.files[s.nextId := s.imms[|s.imms| - 1]], creator := FlushWritten(s.nextId))
    case PublishFlush(t) => DoPublishFlush(s, t)
    case DeleteSegment(i) => DoDeleteSegment(s, i)
    case EndCleanup => s.(creator := Free)
    case BeginCompact(from, to) => s.(creator := Compacting(from, to))
    case WriteCompact(aged, out) =>
      s.(files := if out.Some? then s.files[out.value.id := out.value.data] else s.files,
         creator := CompactWritten(s.creator.from, s.creator.to, aged, out))
    case PublishCompact(order) => DoPublishCompact(s, order)
    case DeleteInput(id) => s.(files := s.files - {id})
    case EndDelete => s.(creator := Free)
    case Abandon => s.(creator := Free)
    case Capture(r, key) => DoCapture(s, r, key)
    case ProbeActive(r) => WithStage(s, r, AfterActive(s, s.readers[r]))
    case ProbeNext(r) => WithStage(s, r, AfterLayer(s.files, s.readers[r]))
    case Release(r) => s.(readers := s.readers - {r})
    case Crash(n) => DoCrash(s, n)
    case RemoveOrphan(id) => s.(files := s.files - {id})
    case Open(order, cuts) => DoOpen(s, order, cuts)
  }
}
