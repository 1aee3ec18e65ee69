/** What every step of the engine keeps. */
module StoreInvariant {
  import opened Bytes
  import opened Memtables
  import opened Seqs
  import opened History
  import opened Tables
  import opened Compaction
  import opened Store

  /** Two kinds of runs. Compaction trusts the order of the list, so it needs every reopen to
      replay only records above the tables; without compaction any number of crashes will do. */
  datatype Mode = CleanReopens | NoCompaction

  ghost predicate CleanOpen(s: State) {
    forall r :: r in Flatten(s.segs) ==> Above(r, s.tables)
  }

  ghost predicate Allowed(mode: Mode, s: State, a: Action) {
    && Enabled(s, a)
    && match mode
       case CleanReopens => a.Open? ==> CleanOpen(s)
       case NoCompaction => !a.BeginCompact?
  }

  // ----- the log -----

  /** Numbers start above zero and rise. */
  ghost predicate RisingFrom(h: seq<Record>, from: nat) {
    && (forall i :: from <= i < |h| ==> h[i].seqno > 0)
    && forall i, j :: from <= i < j < |h| ==> h[i].seqno < h[j].seqno
  }

  /** The segments hold a suffix of the history, in rising order. */
  ghost predicate LogOk(h: seq<Record>, walStart: nat, segs: seq<seq<Record>>) {
    walStart <= |h| && Flatten(segs) == h[walStart..] && RisingFrom(h, walStart)
  }

  /** What may be lost is what was appended since the last fsync, all in the active segment. */
  ghost predicate SyncOk(every: positive, up: bool, n: nat, durable: nat, unsynced: nat, segs: seq<seq<Record>>,
                         writer: Writer) {
    && durable <= n && n - durable == unsynced + (if writer.Logged? then 1 else 0)
    && unsynced < every
    && (writer.Idle? || n > 0)
    && (up ==> segs != [] && n - durable <= |segs[|segs| - 1]|)
    && (!up ==> durable == n && writer.Idle?)
  }

  /** The counter is at least everything stored. */
  ghost predicate NumbersOk(h: seq<Record>, walStart: nat, flushed: nat, tables: seq<Table>, lastSeqno: nat) {
    && MaxSeqnoOf(tables) <= lastSeqno
    && forall i :: 0 <= i < |h| && (walStart <= i || flushed <= i) ==> h[i].seqno <= lastSeqno
  }

  // ----- memory -----

  ghost predicate ImmsOk(h: seq<Record>, cuts: seq<nat>, imms: seq<Mem>) {
    && |cuts| == |imms| + 1 && Falling(cuts) && cuts[0] <= |h|
    && forall i :: 0 <= i < |imms| ==> cuts[i + 1] < cuts[i] <= |h| && imms[i] == Replay(h[cuts[i + 1]..cuts[i]])
  }

  ghost predicate ActiveOk(h: seq<Record>, from: nat, applied: nat, active: Mem) {
    from <= applied <= |h| && active == Replay(h[from..applied])
  }

  // ----- tables -----

  ghost predicate TablesOk(tables: seq<Table>, nextId: nat, files: map<nat, Mem>) {
    && AllOk(tables) && UniqueIds(tables)
    && forall t :: t in tables ==> t.id < nextId && t.id in files && files[t.id] == t.data
  }

  ghost predicate PublishedOk(tables: seq<Table>, nextId: nat, published: map<nat, Mem>) {
    && (forall t :: t in tables ==> t.id in published && published[t.id] == t.data)
    && (forall id :: id in published ==> id < nextId)
  }

  ghost predicate CreatorOk(c: Creator, imms: seq<Mem>, tables: seq<Table>, nextId: nat, files: map<nat, Mem>) {
    match c
    case Free => true
    case Flushing => imms != []
    case FlushWritten(id) => imms != [] && id == nextId && id in files && files[id] == imms[|imms| - 1]
    case Cleaning => true
    case Compacting(from, to) => from < to <= |tables|
    case CompactWritten(from, to, aged, out) =>
      && from < to <= |tables| && Outputs(tables, from, to, aged, out)
      && (out.Some? ==> out.value.id == nextId && nextId in files && files[nextId] == out.value.data)
    case Deleting(inputs) => forall t :: t in tables ==> t.id !in inputs
  }

  // ----- readers -----

  /** Its tables still have their files. */
  ghost predicate HeldOk(v: Version, published: map<nat, Mem>, files: map<nat, Mem>) {
    forall t :: t in v.tables ==> t.id in published && published[t.id] == t.data && t.id in files
                                  && files[t.id] == t.data
  }

  /** Its active memtable holds the history from its start, up to now or up to its rotation. */
  ghost predicate ActiveHeld(r: Reader, h: seq<Record>, applied: nat, activeId: nat, activeStart: nat,
                             frozen: map<nat, Frozen>) {
    if r.version.memId == activeId then r.start == activeStart && r.captured <= applied
    else
      && r.version.memId < activeId && r.version.memId in frozen
      && r.captured <= frozen[r.version.memId].end <= applied <= |h| && r.start <= frozen[r.version.memId].end
      && frozen[r.version.memId].data == Replay(h[r.start..frozen[r.version.memId].end])
  }

  ghost predicate StageOk(r: Reader, h: seq<Record>, applied: nat) {
    match r.stage
    case Captured => ReadsTo(Rest(r.version), h, r.start, r.captured)
    case Probing(layer, moment) =>
      && r.captured <= moment <= applied <= |h| && layer <= |Rest(r.version)|
      && Read(Rest(r.version)[layer..], r.key) == Latest(h[..moment], r.key)
    case Answered(result, moment) =>
      r.captured <= moment <= applied <= |h| && result == Latest(h[..moment], r.key)
  }

  ghost predicate ReadersOk(readers: map<nat, Reader>, h: seq<Record>, applied: nat, activeId: nat, activeStart: nat,
                            frozen: map<nat, Frozen>, published: map<nat, Mem>, files: map<nat, Mem>) {
    forall k :: k in readers ==>
      && HeldOk(readers[k].version, published, files)
      && ActiveHeld(readers[k], h, applied, activeId, activeStart, frozen)
      && StageOk(readers[k], h, applied)
  }

  // ----- the whole -----

  /** While the process is up. */
  ghost predicate UpOk(s: State) {
    && s.cuts != []
    && ImmsOk(s.hist, s.cuts, s.imms)
    && ActiveOk(s.hist, s.cuts[0], Applied(s), s.active)
    && NumbersOk(s.hist, s.walStart, Flushed(s), s.tables, s.lastSeqno)
    && PublishedOk(s.tables, s.nextId, s.published)
    && CreatorOk(s.creator, s.imms, s.tables, s.nextId, s.files)
    && ReadersOk(s.readers, s.hist, Applied(s), s.activeId, s.cuts[0], s.frozen, s.published, s.files)
  }

  ghost predicate Core(s: State) {
    && LogOk(s.hist, s.walStart, s.segs)
    && SyncOk(s.every, s.up, |s.hist|, s.durable, s.unsynced, s.segs, s.writer)
    && s.cuts != [] && s.cuts[0] <= s.durable
    && TablesOk(s.tables, s.nextId, s.files)
    && ReadsTo(Datas(s.tables), s.hist, Flushed(s), Stable(s))
    && (if s.up then UpOk(s) else |s.cuts| == 1)
  }

  /** Clean reopens: ranges are disjoint and everything unflushed is newer than every table. */
  ghost predicate OrderedOk(h: seq<Record>, walStart: nat, flushed: nat, tables: seq<Table>) {
    && WellOrdered(tables) && walStart <= flushed
    && forall i :: flushed <= i < |h| ==> h[i].seqno > MaxSeqnoOf(tables)
  }

  /** No compaction: tables are exact, and together they account for everything up to their
      largest number; the log starts no later than that. */
  ghost predicate ExactOk(h: seq<Record>, walStart: nat, flushed: nat, stable: nat, tables: seq<Table>) {
    && Numbered(h)
    && (forall i :: 0 <= i < |tables| ==> Exact(tables[i], h))
    && Accounted(tables, h, MaxSeqnoOf(tables))
    && walStart <= MaxSeqnoOf(tables) && flushed <= MaxSeqnoOf(tables) <= stable
  }

  ghost predicate NeverCompacts(c: Creator) {
    c.Free? || c.Flushing? || c.FlushWritten? || c.Cleaning?
  }

  ghost predicate Inv(mode: Mode, s: State) {
    && Core(s)
    && match mode
       case CleanReopens => OrderedOk(s.hist, s.walStart, Flushed(s), s.tables)
       case NoCompaction =>
         && ExactOk(s.hist, s.walStart, Flushed(s), Stable(s), s.tables) && NeverCompacts(s.creator)
         && (s.up ==> s.lastSeqno == |s.hist|)
  }

  lemma InitialInv(mode: Mode, every: positive)
    ensures Inv(mode, Initial(every))
  {
    assert Datas([]) == [];
  }
}
