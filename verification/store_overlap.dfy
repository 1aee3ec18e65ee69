/** Why compaction needs clean reopens: the exact condition, and a run that breaks without it. */
module StoreOverlap {
  import opened Bytes
  import opened Memtables
  import opened Seqs
  import opened History
  import opened Tables
  import opened Compaction
  import opened Store
  import opened StoreInvariant
  import opened FlushSteps
  import opened RecoverySteps

  // ----- what a reopen that is not clean can do -----

  /** Open with these rotations, then flush the oldest immutable table as `t`. */
  ghost predicate FirstFlush(s: State, order: seq<Table>, cuts: seq<nat>, t: Table) {
    && Enabled(s, Open(order, cuts))
    && var live := Do(s, Open(order, cuts));
       && Enabled(live, BeginFlush)
       && Enabled(Do(live, BeginFlush), WriteFlush)
       && Enabled(Do(Do(live, BeginFlush), WriteFlush), PublishFlush(t))
  }

  ghost function AfterFirstFlush(s: State, order: seq<Table>, cuts: seq<nat>, t: Table): State
    requires FirstFlush(s, order, cuts, t)
  {
    Do(Do(Do(Do(s, Open(order, cuts)), BeginFlush), WriteFlush), PublishFlush(t))
  }

  /** A clean reopen keeps the order through its first flush. */
  lemma CleanFlushIsOrdered(s: State, order: seq<Table>, cuts: seq<nat>, t: Table)
    requires Inv(CleanReopens, s) && CleanOpen(s) && FirstFlush(s, order, cuts, t)
    ensures WellOrdered(AfterFirstFlush(s, order, cuts, t).tables)
  {
    var live := Do(s, Open(order, cuts));
    var begun := Do(live, BeginFlush);
    var written := Do(begun, WriteFlush);
    hide Enabled, Do, Inv, CleanOpen;
    OpenKeepsInv(CleanReopens, s, order, cuts);
    BeginFlushKeepsInv(CleanReopens, live);
    WriteFlushKeepsInv(CleanReopens, begun);
    PublishFlushKeepsInv(CleanReopens, written, t);
    InvOrdered(Do(written, PublishFlush(t)));
  }

  lemma InvOrdered(s: State)
    requires Inv(CleanReopens, s)
    ensures WellOrdered(s.tables) && AllOk(s.tables) && s.cuts != [] && RisingFrom(s.hist, s.walStart)
    ensures s.walStart <= |s.hist| && Flatten(s.segs) == s.hist[s.walStart..]
  {
    hide UpOk, ReadsTo, SyncOk, WellOrdered, TableOk, UniqueIds, Flatten, MaxSeqnoOf, RisingFrom;
  }

  /** Any non-empty memtable has the metadata of a table. */
  lemma {:induction false} Extremes(m: Mem) returns (lo: nat, hi: nat)
    requires m != map[]
    ensures forall key :: key in m ==> lo <= m[key].seqno <= hi
    ensures exists key :: key in m && m[key].seqno == lo
    ensures exists key :: key in m && m[key].seqno == hi
    decreases |m|
  {
    var k :| k in m;
    var rest := m - {k};
    assert m == rest[k := m[k]];
    if rest == map[] {
      lo, hi := m[k].seqno, m[k].seqno;
    } else {
      lo, hi := Extremes(rest);
      var a :| a in rest && rest[a].seqno == lo;
      var b :| b in rest && rest[b].seqno == hi;
      assert a in m && b in m && m[a] == rest[a] && m[b] == rest[b];
      lo, hi := if m[k].seqno < lo then m[k].seqno else lo, if m[k].seqno > hi then m[k].seqno else hi;
    }
  }

  lemma TableFor(id: nat, m: Mem) returns (t: Table)
    requires m != map[]
    ensures TableOk(t) && t.id == id && t.data == m
  {
    var lo, hi := Extremes(m);
    t := Table(id, m, lo, hi, 0);
  }

  /** A logged record no newer than some table. */
  lemma Offender(s: State) returns (p: nat)
    requires Inv(CleanReopens, s) && !CleanOpen(s)
    ensures s.walStart <= p < |s.hist| && s.hist[p].seqno <= MaxSeqnoOf(s.tables) && s.hist[p].seqno > 0
  {
    hide Inv, MaxSeqnoOf, Flatten;
    InvOrdered(s);
    var r :| r in Flatten(s.segs) && !Above(r, s.tables);
    var x :| 0 <= x < |s.hist[s.walStart..]| && s.hist[s.walStart..][x] == r;
    p := s.walStart + x;
  }

  lemma OrderedDescends(ts: seq<Table>)
    requires WellOrdered(ts) && AllOk(ts)
    ensures SortedFrom(ts, ts)
  {
    forall i, j | 0 <= i < j < |ts| ensures ts[i].maxSeqno >= ts[j].maxSeqno {
      OkRange(ts[i]);
    }
  }

  /** A table with a number at most some listed maximum cannot head a well-ordered list. */
  lemma OldTableBreaksOrder(ts: seq<Table>, t: Table, n: nat)
    requires t.minSeqno <= n <= MaxSeqnoOf(ts) && n > 0
    ensures !WellOrdered([t] + ts)
  {
    hide MaxSeqnoOf;
    MaxSeqnoBound(ts);
    NoTables();
    var x :| x in ts && x.maxSeqno == MaxSeqnoOf(ts);
    var i :| 0 <= i < |ts| && ts[i] == x;
    assert ([t] + ts)[0] == t && ([t] + ts)[i + 1] == x;
  }

  /** A reopen that is not clean may cut a memtable right after the offending record; flushed, it
      goes in front of a table that is no older. */
  lemma DirtyFlushBreaksOrder(s: State) returns (cuts: seq<nat>, t: Table)
    requires Inv(CleanReopens, s) && !CleanOpen(s) && !s.up && forall id :: id in s.files ==> id in Ids(s.tables)
    ensures FirstFlush(s, s.tables, cuts, t) && !WellOrdered(AfterFirstFlush(s, s.tables, cuts, t).tables)
  {
    hide Inv, CleanOpen, Ids, Replay, MaxSeqnoOf, MaxSeqno, Flatten, WellOrdered, TableOk, PublishedFrom, SortedFrom;
    var p := Offender(s);
    InvOrdered(s);
    OrderedDescends(s.tables);
    cuts := [p + 1, s.walStart];
    var data := Replay(s.hist[s.walStart..p + 1]);
    LastMutationStored(s.hist, s.walStart, p + 1);
    t := TableFor(s.nextId, data);
    OneImmutable(s.hist, p + 1, s.walStart);
    var live := DoOpen(s, s.tables, cuts);
    assert live.imms == [data];
    Belongs(t, s.hist[p].key);
    OldTableBreaksOrder(s.tables, t, s.hist[p].seqno);
  }

  lemma OneImmutable(h: seq<Record>, a: nat, b: nat)
    requires b < a <= |h|
    ensures MemtablesFrom(h, [a, b]) == [Replay(h[b..a])]
  {
    hide Replay;
    assert [a, b][1..] == [b];
    assert MemtablesFrom(h, [b]) == [];
  }

  lemma Belongs(t: Table, key: bytes)
    requires TableOk(t) && key in t.data
    ensures t.minSeqno <= t.data[key].seqno
  {
  }

  /** The exact condition: from an ordered store about to open, the tables stay ordered through the
      first flush, whatever replay and sorting do, if and only if every record in the log is newer
      than every table. */
  lemma OrderSurvivesOpen(s: State)
    requires Inv(CleanReopens, s) && !s.up && forall id :: id in s.files ==> id in Ids(s.tables)
    ensures CleanOpen(s) <==>
            forall order, cuts, t :: FirstFlush(s, order, cuts, t) ==>
              WellOrdered(AfterFirstFlush(s, order, cuts, t).tables)
  {
    hide Inv, CleanOpen, FirstFlush, AfterFirstFlush, WellOrdered;
    if CleanOpen(s) {
      forall order, cuts, t | FirstFlush(s, order, cuts, t)
        ensures WellOrdered(AfterFirstFlush(s, order, cuts, t).tables) {
        CleanFlushIsOrdered(s, order, cuts, t);
      }
    } else {
      var cuts, t := DirtyFlushBreaksOrder(s);
    }
  }

  // ----- a run with a reopen that is not clean -----

  // One rule of rotation for the whole run, live and in replay: memtable_max_bytes is 1, so any
  // entry fills a table, and max_immutable_tables is 1.

  /** Where replay rotates: after each record, if a slot is free. */
  function ReplayCuts(h: seq<Record>, from: nat): (cuts: seq<nat>)
    requires from <= |h|
    ensures cuts != []
  {
    if |h| == from then [from] else
      var cuts := ReplayCuts(h[..|h| - 1], from);
      if |cuts| == 1 then [|h|] + cuts else cuts
  }

  /** What the rule says of a step: a full table with a free slot is rotated, without one it refuses writes. */
  ghost predicate Obeys(s: State, a: Action) {
    match a
    case Log(_, _, _, _) => s.active == map[] || s.imms == []
    case Rotate => s.active != map[] && s.imms == []
    case Acknowledge => s.active == map[] || s.imms != []
    case Open(_, cuts) => s.walStart <= |s.hist| && cuts == ReplayCuts(s.hist, s.walStart)
    case _ => true
  }

  ghost predicate FreeStep(s: State, a: Action, t: State) {
    Enabled(s, a) && Obeys(s, a) && t == Do(s, a)
  }

  ghost predicate FreeRun(every: positive, states: seq<State>, actions: seq<Action>) {
    && |states| == |actions| + 1 && states[0] == Initial(every)
    && forall i :: 0 <= i < |actions| ==> FreeStep(states[i], actions[i], states[i + 1])
  }

  /** A run that ends here. */
  ghost predicate Reaches(states: seq<State>, actions: seq<Action>, s: State) {
    FreeRun(1, states, actions) && states[|actions|] == s
  }

  /** One more step of a run. */
  lemma Take(states: seq<State>, actions: seq<Action>, s: State, a: Action, t: State)
      returns (ss: seq<State>, aa: seq<Action>)
    requires Reaches(states, actions, s) && FreeStep(s, a, t)
    ensures Reaches(ss, aa, t)
  {
    hide FreeStep;
    ss, aa := states + [t], actions + [a];
    forall i | 0 <= i < |aa| ensures FreeStep(ss[i], aa[i], ss[i + 1]) {
      if i < |actions| {
        assert ss[i] == states[i] && ss[i + 1] == states[i + 1] && aa[i] == actions[i];
      }
    }
  }

  /** One put, synced and applied. */
  lemma Put(states: seq<State>, actions: seq<Action>, s: State, key: bytes, value: bytes, r: Record, t: State)
      returns (ss: seq<State>, aa: seq<Action>)
    requires Reaches(states, actions, s) && s.up && s.writer.Idle? && s.every == 1 && s.segs != [] && key != []
    requires (s.active == map[] || s.imms == []) && r == Record(false, key, value, s.lastSeqno + 1)
    requires t == s.(hist := s.hist + [r], durable := |s.hist| + 1, segs := Appended(s.segs, r), unsynced := 0,
                     lastSeqno := r.seqno, active := s.active[r.key := ToEntry(r)], writer := Visible)
    ensures Reaches(ss, aa, t)
  {
    hide Reaches, Appended;
    var a := s.(hist := s.hist + [r], segs := Appended(s.segs, r), lastSeqno := r.seqno, writer := Logged);
    ss, aa := Take(states, actions, s, Log(false, key, value, false), a);
    var b := a.(durable := |s.hist| + 1, unsynced := 0, writer := Durable);
    ss, aa := Take(ss, aa, a, Sync, b);
    ss, aa := Take(ss, aa, b, Apply, t);
  }

  lemma AppendedTo(front: seq<seq<Record>>, last: seq<Record>, r: Record, more: seq<Record>)
    requires more == last + [r]
    ensures Appended(front + [last], r) == front + [more]
  {
  }

  /** A put that fills the table, with a free slot: it rotates before it returns. */
  lemma Rotates(states: seq<State>, actions: seq<Action>, s: State, t: State) returns (ss: seq<State>, aa: seq<Action>)
    requires Reaches(states, actions, s) && s.up && s.writer.Visible? && s.cuts != [] && s.cuts[0] < |s.hist|
    requires s.active != map[] && s.imms == [] && t == DoRotate(s).(writer := Idle)
    ensures Reaches(ss, aa, t)
  {
    hide Reaches;
    ss, aa := Take(states, actions, s, Rotate, DoRotate(s));
    ss, aa := Take(ss, aa, DoRotate(s), Acknowledge, t);
  }

  /** A flush up to its manifest edit. */
  lemma Flushes(states: seq<State>, actions: seq<Action>, s: State, t: Table, u: State)
      returns (ss: seq<State>, aa: seq<Action>)
    requires Reaches(states, actions, s) && s.up && s.creator.Free? && s.imms != [] && |s.cuts| > 1
    requires TableOk(t) && t.id == s.nextId && t.data == s.imms[|s.imms| - 1]
    requires u == DoPublishFlush(s.(files := s.files[t.id := t.data]), t)
    ensures Reaches(ss, aa, u)
  {
    hide Reaches, TableOk;
    ss, aa := Take(states, actions, s, BeginFlush, s.(creator := Flushing));
    var w := s.(files := s.files[t.id := t.data], creator := FlushWritten(t.id));
    ss, aa := Take(ss, aa, s.(creator := Flushing), WriteFlush, w);
    ss, aa := Take(ss, aa, w, PublishFlush(t), u);
  }

  /** The cleanup after it. */
  lemma Cleans(states: seq<State>, actions: seq<Action>, s: State, u: State) returns (ss: seq<State>, aa: seq<Action>)
    requires Reaches(states, actions, s) && s.up && s.creator.Cleaning? && |s.segs| > 1
    requires forall r :: r in s.segs[0] ==> r.seqno <= MaxSeqnoOf(s.tables)
    requires u == DoDeleteSegment(s, 0).(creator := Free)
    ensures Reaches(ss, aa, u)
  {
    hide Reaches, MaxSeqnoOf;
    ss, aa := Take(states, actions, s, DeleteSegment(0), DoDeleteSegment(s, 0));
    ss, aa := Take(ss, aa, DoDeleteSegment(s, 0), EndCleanup, u);
  }

  // Another key first, then one key twice.

  const B: bytes := [2]
  const K: bytes := [1]
  const R0: Record := Record(false, [2], [0], 1)
  const R1: Record := Record(false, [1], [1], 2)
  const R2: Record := Record(false, [1], [2], 3)
  const M0: Mem := map[[2] := Entry([0], 1, false)]
  const M1: Mem := map[[1] := Entry([1], 2, false)]
  const M2: Mem := map[[1] := Entry([2], 3, false)]
  const T0: Table := Table(1, M0, 1, 1, 0)
  const T1: Table := Table(2, M2, 3, 3, 0)
  const T2: Table := Table(3, M1, 2, 2, 0)
  const T3: Table := Table(4, M1, 2, 2, 0)

  lemma Replays()
    ensures Replay([]) == map[] && Replay([R1]) == M1 && Replay([R2]) == M2
    ensures TableOk(T0) && TableOk(T1) && TableOk(T2) && TableOk(T3)
  {
    assert [R1][..0] == [] && [R2][..0] == [];
    assert B in M0 && K in M1 && K in M2;
  }

  lemma Maxima()
    ensures MaxSeqnoOf([]) == 0 && MaxSeqnoOf([T0]) == 1 && MaxSeqnoOf([T1, T0]) == 3 && MaxSeqnoOf([T2, T1, T0]) == 3
    ensures MaxSeqnoOf([T3, T0]) == 2 && MaxSeqno([]) == 0 && MaxSeqno([R1, R2]) == 3
  {
    MaxSeqnoCons(T0, []);
    MaxSeqnoCons(T1, [T0]);
    MaxSeqnoCons(T2, [T1, T0]);
    MaxSeqnoCons(T3, [T0]);
    assert [T0] + [] == [T0] && [T1] + [T0] == [T1, T0] && [T2] + [T1, T0] == [T2, T1, T0] && [T3] + [T0] == [T3, T0];
    assert [R1, R2][..1] == [R1] && [R1][..0] == [];
  }

  lemma Flat()
    ensures Flatten<Record>([]) == [] && Flatten<Record>([[]]) == [] && Flatten([[R1, R2], []]) == [R1, R2]
  {
    FlattenOne<Record>([]);
    FlattenOne([R1, R2]);
    FlattenSnoc([[R1, R2]], []);
    assert [[R1, R2]] + [[]] == [[R1, R2], []];
  }

  /** Replaying both records of the key rotates between them. */
  lemma Cuts()
    ensures ReplayCuts([], 0) == [0] && ReplayCuts([R0, R1, R2], 1) == [2, 1] && ReplayCuts([R0, R1, R2], 3) == [3]
  {
    assert [R0, R1, R2][..2] == [R0, R1] && [R0, R1][..1] == [R0];
    assert ReplayCuts([R0], 1) == [1];
    assert ReplayCuts([R0, R1], 1) == [2, 1];
  }

  /** An open store: what is in the log, in memory and in the tables. */
  function Live(hist: seq<Record>, walStart: nat, segs: seq<seq<Record>>, lastSeqno: nat, active: Mem, activeId: nat,
                imms: seq<Mem>, cuts: seq<nat>, tables: seq<Table>, nextId: nat, files: map<nat, Mem>,
                frozen: map<nat, Frozen>, writer: Writer, creator: Creator): State {
    State(1, true, hist, |hist|, walStart, segs, 0, lastSeqno, active, activeId, imms, cuts, tables, nextId, files,
          files, frozen, writer, creator, map[])
  }

  function Down(walStart: nat, segs: seq<seq<Record>>, activeId: nat, cuts: seq<nat>,
                tables: seq<Table>, nextId: nat, files: map<nat, Mem>): State {
    State(1, false, [R0, R1, R2], 3, walStart, segs, 0, 3, map[], activeId, [], cuts, tables, nextId, files, map[],
          map[], Idle, Free, map[])
  }

  function Empty(): State {
    Live([], 0, [[]], 0, map[], 0, [], [0], [], 1, map[], map[], Idle, Free)
  }

  lemma FirstOpen() returns (states: seq<State>, actions: seq<Action>)
    ensures Reaches(states, actions, Empty())
  {
    Replays();
    Maxima();
    Flat();
    Cuts();
    hide Replay, MaxSeqnoOf, MaxSeqno, Flatten, ReplayCuts, TableOk;
    states, actions := Take([Initial(1)], [], Initial(1), Open([], [0]), Empty());
  }

  /** The other key fills a table, which is frozen; the first value of the key cannot rotate. */
  function Deferred(): State {
    Live([R0, R1], 0, [[R0], [R1]], 2, M1, 1, [M0], [1, 0], [], 1, map[], map[0 := Frozen(M0, 1)], Idle, Free)
  }

  function OtherFrozen(): State {
    Live([R0], 0, [[R0], []], 1, map[], 1, [M0], [1, 0], [], 1, map[], map[0 := Frozen(M0, 1)], Idle, Free)
  }

  lemma WriteOther() returns (states: seq<State>, actions: seq<Action>)
    ensures Reaches(states, actions, OtherFrozen())
  {
    hide Reaches, Appended, TableOk;
    states, actions := FirstOpen();
    Replays();
    AppendedTo([], [], R0, [R0]);
    var none, start: seq<seq<Record>> := [], [[]];
    assert none + start == start && none + [[R0]] == [[R0]] && [] + [R0] == [R0];
    var s := Live([R0], 0, [[R0]], 1, M0, 0, [], [0], [], 1, map[], map[], Visible, Free);
    states, actions := Put(states, actions, Empty(), B, [0], R0, s);
    states, actions := Rotates(states, actions, s, OtherFrozen());
  }

  lemma WriteFirst() returns (states: seq<State>, actions: seq<Action>)
    ensures Reaches(states, actions, Deferred())
  {
    hide Reaches, Appended;
    states, actions := WriteOther();
    AppendedTo([[R0]], [], R1, [R1]);
    assert [R0] + [R1] == [R0, R1] && [[R0]] + [[]] == [[R0], []] && [[R0]] + [[R1]] == [[R0], [R1]];
    states, actions := Put(states, actions, OtherFrozen(), K, [1], R1, Deferred().(writer := Visible));
    states, actions := Take(states, actions, Deferred().(writer := Visible), Acknowledge, Deferred());
  }

  /** The other key flushed, the slot free again. */
  function FlushedOnce(): State {
    Live([R0, R1], 1, [[R1]], 2, M1, 1, [], [1], [T0], 2, map[1 := M0], map[0 := Frozen(M0, 1)], Idle, Free)
  }

  lemma FlushFirst() returns (states: seq<State>, actions: seq<Action>)
    ensures Reaches(states, actions, FlushedOnce())
  {
    hide Reaches;
    Replays();
    Maxima();
    hide TableOk, MaxSeqnoOf;
    states, actions := WriteFirst();
    var s := FlushedOnce().(walStart := 0, segs := [[R0], [R1]], creator := Cleaning);
    states, actions := Flushes(states, actions, Deferred(), T0, s);
    states, actions := Cleans(states, actions, s, FlushedOnce());
  }

  /** The second value of the key joins the first in one table. */
  function Rotated(): State {
    Live([R0, R1, R2], 1, [[R1, R2], []], 3, map[], 2, [M2], [3, 1], [T0], 2, map[1 := M0],
         map[0 := Frozen(M0, 1), 1 := Frozen(M2, 3)], Idle, Free)
  }

  lemma WriteSecond() returns (states: seq<State>, actions: seq<Action>)
    ensures Reaches(states, actions, Rotated())
  {
    hide Reaches;
    states, actions := FlushFirst();
    assert [R0, R1] + [R2] == [R0, R1, R2];
    Replays();
    AppendedTo([], [R1], R2, [R1, R2]);
    var none: seq<seq<Record>> := [];
    assert none + [[R1]] == [[R1]] && none + [[R1, R2]] == [[R1, R2]];
    assert M1[K := ToEntry(R2)] == M2;
    hide Appended, TableOk;
    var s := Live([R0, R1, R2], 1, [[R1, R2]], 3, M2, 1, [], [1], [T0], 2, map[1 := M0], map[0 := Frozen(M0, 1)],
      Visible, Free);
    states, actions := Put(states, actions, FlushedOnce(), K, [2], R2, s);
    states, actions := Rotates(states, actions, s, Rotated());
  }

  /** The flush of that table is published; the log is not yet cleaned. */
  function FlushedBoth(): State {
    Live([R0, R1, R2], 1, [[R1, R2], []], 3, map[], 2, [], [3], [T1, T0], 3, map[1 := M0, 2 := M2],
         map[0 := Frozen(M0, 1), 1 := Frozen(M2, 3)], Idle, Cleaning)
  }

  lemma FlushBoth() returns (states: seq<State>, actions: seq<Action>)
    ensures Reaches(states, actions, FlushedBoth())
  {
    hide Reaches, TableOk;
    Replays();
    states, actions := WriteSecond();
    states, actions := Flushes(states, actions, Rotated(), T1, FlushedBoth());
  }

  function Crashed(): State {
    Down(1, [[R1, R2], []], 2, [3], [T1, T0], 3, map[1 := M0, 2 := M2])
  }

  function Reopened(): State {
    Live([R0, R1, R2], 1, [[R1, R2], []], 3, M2, 0, [M1], [2, 1], [T1, T0], 3, map[1 := M0, 2 := M2], map[], Idle, Free)
  }

  lemma CrashOnce()
    ensures FreeStep(FlushedBoth(), Crash(3), Crashed())
  {
    hide Replay, MaxSeqnoOf, MaxSeqno, Flatten;
    assert [R0, R1, R2][..3] == [R0, R1, R2];
    assert Torn([[R1, R2], []], 0) == [[R1, R2], []];
  }

  /** The reopen replays both records over the table that already has them, and rotates in between. */
  lemma ReopenEnabled()
    ensures Enabled(Crashed(), Open([T1, T0], [2, 1])) && Obeys(Crashed(), Open([T1, T0], [2, 1]))
  {
    hide Replay, MaxSeqnoOf, MaxSeqno, Flatten, TableOk, ReplayCuts;
    Cuts();
    assert Ids([T1, T0]) == [2, 1];
    assert 1 in Ids([T1, T0]) && 2 in Ids([T1, T0]);
  }

  lemma ReopenOnce()
    ensures DoOpen(Crashed(), [T1, T0], [2, 1]) == Reopened()
  {
    hide Replay, MaxSeqnoOf, MaxSeqno, Flatten, TableOk, MemtablesFrom, PublishedFrom;
    Replays();
    Maxima();
    Flat();
    assert [R0, R1, R2][2..] == [R2] && [R0, R1, R2][1..2] == [R1];
    PublishedAtOpen();
    OneImmutable([R0, R1, R2], 2, 1);
  }

  lemma ReopenStep()
    ensures FreeStep(Crashed(), Open([T1, T0], [2, 1]), Reopened())
  {
    hide Enabled, DoOpen, Obeys, Reopened, Crashed;
    ReopenEnabled();
    ReopenOnce();
  }

  lemma PublishedAtOpen()
    ensures PublishedFrom([T1, T0]) == map[1 := M0, 2 := M2] && PublishedFrom([T3, T0]) == map[1 := M0, 4 := M1]
  {
    assert [T1, T0][1..] == [T0] && [T3, T0][1..] == [T0] && [T0][1..] == [];
    assert PublishedFrom([T0]) == map[1 := M0];
  }

  /** The older half, flushed to the front. */
  function FlushedTwice(): State {
    Live([R0, R1, R2], 3, [[]], 3, M2, 0, [], [2], [T2, T1, T0], 4, map[1 := M0, 2 := M2, 3 := M1], map[], Idle, Free)
  }

  lemma FlushAgain() returns (states: seq<State>, actions: seq<Action>)
    ensures Reaches(states, actions, FlushedTwice())
  {
    hide Reaches, FreeStep;
    states, actions := FlushBoth();
    CrashOnce();
    states, actions := Take(states, actions, FlushedBoth(), Crash(3), Crashed());
    ReopenStep();
    states, actions := Take(states, actions, Crashed(), Open([T1, T0], [2, 1]), Reopened());
    Replays();
    Maxima();
    hide TableOk, MaxSeqnoOf;
    var s := FlushedTwice().(walStart := 1, segs := [[R1, R2], []], creator := Cleaning);
    states, actions := Flushes(states, actions, Reopened(), T2, s);
    states, actions := Cleans(states, actions, s, FlushedTwice());
  }

  /** Merging by list order lets the older value win. */
  lemma MergeOverlap()
    ensures Outputs([T2, T1, T0], 0, 2, {}, Some(T3))
  {
    Replays();
    assert [T2, T1, T0][0..2] == [T2, T1] && [T2, T1][1..] == [T1] && [T1][1..] == [];
    assert Merge([T1]) == M2;
    assert Merge([T2, T1]) == M1;
  }

  const FILES: map<nat, Mem> := map[1 := M0, 2 := M2, 3 := M1, 4 := M1]

  function Merged(): State {
    FlushedTwice().(creator := CompactWritten(0, 2, {}, Some(T3)), files := FILES)
  }

  function Compacted(): State {
    FlushedTwice().(tables := [T3, T0], nextId := 5, files := FILES, published := FILES, creator := Deleting({2, 3}))
  }

  lemma PublishOverlap()
    ensures FreeStep(Merged(), PublishCompact([T3, T0]), Compacted())
  {
    hide Merge, TableOk, MaxSeqnoOf;
    assert Outside([T2, T1, T0], 0, 2) + Listed(Some(T3)) == [T0, T3];
    assert multiset([T3, T0]) == multiset([T0, T3]);
    var inputs := [T2, T1, T0][0..2];
    assert inputs == [T2, T1];
    assert (set x | x in inputs :: x.id) == {2, 3} by {
      assert T1 in inputs && T2 in inputs;
    }
  }

  lemma CompactOverlap() returns (states: seq<State>, actions: seq<Action>)
    ensures Reaches(states, actions, Compacted())
  {
    hide Reaches, Outputs, SortedFrom, Compacted;
    MergeOverlap();
    states, actions := FlushAgain();
    var s := FlushedTwice().(creator := Compacting(0, 2));
    states, actions := Take(states, actions, FlushedTwice(), BeginCompact(0, 2), s);
    states, actions := Take(states, actions, s, WriteCompact({}, Some(T3)), Merged());
    PublishOverlap();
    hide FreeStep;
    states, actions := Take(states, actions, Merged(), PublishCompact([T3, T0]), Compacted());
  }

  function CrashedAgain(files: map<nat, Mem>): State {
    Down(3, [[]], 0, [2], [T3, T0], 5, files)
  }

  function Lost(): State {
    Live([R0, R1, R2], 3, [[]], 2, map[], 0, [], [3], [T3, T0], 5, map[1 := M0, 4 := M1], map[], Idle, Free)
  }

  lemma CrashTwice()
    ensures FreeStep(Compacted(), Crash(3), CrashedAgain(FILES))
  {
    hide Replay, MaxSeqnoOf, MaxSeqno, Flatten;
    assert [R0, R1, R2][..3] == [R0, R1, R2];
    assert Torn([[]], 0) == [[]];
  }

  /** A file the second manifest does not list. */
  lemma Orphan(files: map<nat, Mem>, id: nat)
    requires id in files && id != 4 && id != 1
    ensures FreeStep(CrashedAgain(files), RemoveOrphan(id), CrashedAgain(files - {id}))
  {
    assert Ids([T3, T0]) == [4, 1];
  }

  lemma LastOpen()
    ensures FreeStep(CrashedAgain(map[1 := M0, 4 := M1]), Open([T3, T0], [3]), Lost())
  {
    hide Replay, MaxSeqnoOf, MaxSeqno, Flatten, TableOk, ReplayCuts;
    Replays();
    Maxima();
    Flat();
    Cuts();
    assert Ids([T3, T0]) == [4, 1];
    assert 4 in Ids([T3, T0]) && 1 in Ids([T3, T0]);
    PublishedAtOpen();
    assert [R0, R1, R2][3..] == [];
  }

  lemma LostReads()
    ensures Latest([R0, R1, R2], K) == Some([2]) && Read(Layers(Lost()), K) == Some([1])
  {
    assert Layers(Lost()) == [map[], M1, M0];
    assert [map[], M1, M0][1..] == [M1, M0];
  }

  /** Without the clean-reopen condition the store can lose an acknowledged, fsynced write, under one
      rule of rotation throughout: after a second crash the key reads its first value, though the
      second was acknowledged. */
  lemma OverlapLosesAWrite() returns (states: seq<State>, actions: seq<Action>)
    ensures FreeRun(1, states, actions)
    ensures var s := states[|actions|];
            && s.up && s.hist == [R0, R1, R2] && Acked(s) == 3
            && Latest(s.hist, K) == Some([2]) && Read(Layers(s), K) == Some([1])
  {
    hide FreeRun, FreeStep, Compacted, CrashedAgain, Latest, Read, Layers;
    states, actions := CompactOverlap();
    CrashTwice();
    states, actions := Take(states, actions, Compacted(), Crash(3), CrashedAgain(FILES));
    Orphan(FILES, 2);
    states, actions := Take(states, actions, CrashedAgain(FILES), RemoveOrphan(2), CrashedAgain(FILES - {2}));
    Orphan(FILES - {2}, 3);
    states, actions := Take(states, actions, CrashedAgain(FILES - {2}), RemoveOrphan(3),
      CrashedAgain(FILES - {2} - {3}));
    assert FILES - {2} - {3} == map[1 := M0, 4 := M1];
    LastOpen();
    states, actions := Take(states, actions, CrashedAgain(map[1 := M0, 4 := M1]), Open([T3, T0], [3]), Lost());
    LostReads();
  }
}
