/** What holds over whole runs of the engine, however writes, flushes, compactions, reads and
    crashes interleave. */
module StoreRuns {
  import opened Bytes
  import opened Memtables
  import opened Seqs
  import opened History
  import opened Tables
  import opened Compaction
  import opened Store
  import opened StoreInvariant
  import opened WriterSteps
  import opened FlushSteps
  import opened CompactionSteps
  import opened ReaderSteps
  import opened RecoverySteps

  /** Every step an engine may take keeps the invariant. */
  lemma StepKeepsInv(mode: Mode, s: State, a: Action)
    requires Inv(mode, s) && Allowed(mode, s, a)
    ensures Inv(mode, Do(s, a))
  {
    hide Inv, Enabled, Do, CleanOpen;
    match a
    case Log(tombstone, key, value, rolls) => LogKeepsInv(mode, s, tombstone, key, value, rolls);
    case Sync => SyncKeepsInv(mode, s);
    case Apply => ApplyKeepsInv(mode, s);
    case Rotate => RotateKeepsInv(mode, s);
    case Acknowledge => AcknowledgeKeepsInv(mode, s);
    case BeginFlush => BeginFlushKeepsInv(mode, s);
    case WriteFlush => WriteFlushKeepsInv(mode, s);
    case PublishFlush(t) => PublishFlushKeepsInv(mode, s, t);
    case DeleteSegment(i) => DeleteSegmentKeepsInv(mode, s, i);
    case EndCleanup => EndCleanupKeepsInv(mode, s);
    case BeginCompact(from, to) => BeginCompactKeepsInv(s, from, to);
    case WriteCompact(aged, out) =>
      OnlyCleanCompacts(mode, s, a);
      WriteCompactKeepsInv(s, aged, out);
    case PublishCompact(order) =>
      OnlyCleanCompacts(mode, s, a);
      PublishCompactKeepsInv(s, order);
    case DeleteInput(id) => DeleteInputKeepsInv(mode, s, id);
    case EndDelete => EndDeleteKeepsInv(mode, s);
    case Abandon => AbandonKeepsInv(mode, s);
    case Capture(r, key) => CaptureKeepsInv(mode, s, r, key);
    case ProbeActive(r) => ProbeActiveKeepsInv(mode, s, r);
    case ProbeNext(r) => ProbeNextKeepsInv(mode, s, r);
    case Release(r) => ReleaseKeepsInv(mode, s, r);
    case Crash(n) => CrashKeepsInv(mode, s, n);
    case RemoveOrphan(id) => RemoveOrphanKeepsInv(mode, s, id);
    case Open(order, cuts) => OpenKeepsInv(mode, s, order, cuts);
  }

  lemma OnlyCleanCompacts(mode: Mode, s: State, a: Action)
    requires Inv(mode, s) && Enabled(s, a) && (a.WriteCompact? || a.PublishCompact?)
    ensures mode == CleanReopens
  {
    hide Core, OrderedOk, ExactOk;
  }

  // ----- runs -----

  ghost predicate Run(mode: Mode, every: positive, states: seq<State>, actions: seq<Action>) {
    && |states| == |actions| + 1 && states[0] == Initial(every)
    && forall i :: 0 <= i < |actions| ==> Step(mode, states[i], actions[i], states[i + 1])
  }

  ghost predicate Step(mode: Mode, s: State, a: Action, t: State) {
    Allowed(mode, s, a) && t == Do(s, a)
  }

  lemma {:induction false} RunInv(mode: Mode, every: positive, states: seq<State>, actions: seq<Action>, i: nat)
    requires Run(mode, every, states, actions) && i < |states|
    ensures Inv(mode, states[i])
    decreases i
  {
    hide Inv, Allowed, Do, Initial;
    if i == 0 {
      InitialInv(mode, every);
    } else {
      RunInv(mode, every, states, actions, i - 1);
      assert Step(mode, states[i - 1], actions[i - 1], states[i - 1 + 1]);
      StepKeepsInv(mode, states[i - 1], actions[i - 1]);
    }
  }

  /** Whole-run refinement: at every moment of every run, a key reads as its latest visible
      mutation says. */
  lemma RunReads(mode: Mode, every: positive, states: seq<State>, actions: seq<Action>, i: nat, key: bytes)
    requires Run(mode, every, states, actions) && i < |states| && states[i].up
    ensures var s := states[i]; Read(Layers(s), key) == Latest(s.hist[..Applied(s)], key)
    ensures Acked(states[i]) <= Applied(states[i]) <= Acked(states[i]) + 1
  {
    hide Inv, Run, Read, Latest;
    RunInv(mode, every, states, actions, i);
    LiveReads(mode, states[i], key);
  }

  // ----- durability -----

  /** At most every - 1 acknowledged mutations are not yet on disk, all of them at the end of the
      active segment. */
  ghost predicate LagsAtMost(s: State, every: positive) {
    && Acked(s) <= s.durable + every - 1 && s.durable <= |s.hist|
    && (s.up ==>
          && s.segs != [] && |s.hist| - s.durable <= |s.segs[|s.segs| - 1]|
          && var last := s.segs[|s.segs| - 1]; s.hist[s.durable..] == last[|last| - (|s.hist| - s.durable)..])
  }

  lemma LagBound(mode: Mode, s: State)
    requires Inv(mode, s)
    ensures LagsAtMost(s, s.every)
  {
    hide OrderedOk, ExactOk, TablesOk, ReadsTo, UpOk, Flatten, RisingFrom;
    if s.up {
      var last := s.segs[|s.segs| - 1];
      FlattenSnoc(s.segs[..|s.segs| - 1], last);
      assert s.segs == s.segs[..|s.segs| - 1] + [last];
      var n := |s.hist| - s.durable;
      assert s.hist[s.durable..] == s.hist[s.walStart..][|s.hist[s.walStart..]| - n..];
    }
  }

  lemma RunLag(mode: Mode, every: positive, states: seq<State>, actions: seq<Action>, i: nat)
    requires Run(mode, every, states, actions) && i < |states|
    ensures LagsAtMost(states[i], every)
  {
    hide Inv, LagsAtMost;
    RunInv(mode, every, states, actions, i);
    LagBound(mode, states[i]);
    EverySame(mode, every, states, actions, i);
  }

  /** What a step does to the fields that only some steps touch. */
  lemma StepFacts(s: State, a: Action)
    requires Enabled(s, a)
    ensures Do(s, a).every == s.every
    ensures s.up && !a.Crash? ==> Do(s, a).up
    ensures !a.Log? && !a.Crash? ==> Do(s, a).hist == s.hist
    ensures !a.Log? && !a.Apply? && !a.Sync? && !a.Acknowledge? && !a.Crash? && !a.Open? ==> Do(s, a).writer == s.writer
    ensures !a.PublishFlush? && !a.PublishCompact? && !a.Crash? && !a.Open? ==> Do(s, a).published == s.published
    ensures !a.Capture? && !a.ProbeActive? && !a.ProbeNext? && !a.Release? && !a.Crash? && !a.Open? ==>
            Do(s, a).readers == s.readers
  {
    hide CanCleanup, Referenced, SortedFrom, TableOk, Outputs, Outside, Listed, Ids, Replay, MaxSeqnoOf, MaxSeqno,
      MemtablesFrom, PublishedFrom, Flatten, AfterActive, AfterLayer, Appended, Torn;
    match a {
      case DeleteSegment(index) =>
        CleanupIndex(s.segs, index, MaxSeqnoOf(s.tables));
      case _ =>
    }
  }

  lemma {:induction false} EverySame(mode: Mode, every: positive, states: seq<State>, actions: seq<Action>, i: nat)
    requires Run(mode, every, states, actions) && i < |states|
    ensures states[i].every == every
    decreases i
  {
    hide Enabled, Do, CleanOpen;
    if i > 0 {
      EverySame(mode, every, states, actions, i - 1);
      RunStep(mode, every, states, actions, i - 1);
      StepFacts(states[i - 1], actions[i - 1]);
    }
  }

  /** The writer's steps, and the crash. */
  lemma WriterFacts(s: State, a: Action)
    requires Enabled(s, a)
    ensures a.Log? ==> |Do(s, a).hist| == |s.hist| + 1 && s.hist <= Do(s, a).hist && s.writer.Idle?
                       && Do(s, a).writer.Logged?
    ensures a.Sync? ==> s.writer.Logged? && Do(s, a).writer.Durable?
    ensures a.Apply? ==> s.writer.Durable? && Do(s, a).writer.Visible?
    ensures a.Acknowledge? ==> s.writer.Visible? && Do(s, a).writer.Idle?
    ensures a.Open? ==> !s.up && Do(s, a).writer.Idle?
    ensures a.Crash? ==> s.durable <= a.survivors <= |s.hist| && Do(s, a).hist == s.hist[..a.survivors]
                         && Do(s, a).writer.Idle?
  {
    hide SortedFrom, Ids, Replay, MaxSeqnoOf, MaxSeqno, MemtablesFrom, PublishedFrom, Flatten, Appended, Torn;
    match a {
      case Log(_, _, _, _) =>
      case Sync =>
      case Apply =>
      case Acknowledge =>
      case Open(_, _) =>
      case Crash(_) =>
      case _ =>
    }
  }

  /** Short of a crash the history only grows, and what is acknowledged stays so; a crash keeps
      at least what was durable. */
  lemma StepKeepsHistory(mode: Mode, s: State, a: Action)
    requires Inv(mode, s) && Enabled(s, a)
    ensures !a.Crash? ==> s.hist <= Do(s, a).hist && Acked(s) <= Acked(Do(s, a)) && Applied(s) <= Applied(Do(s, a))
    ensures a.Crash? ==> Do(s, a).hist == s.hist[..a.survivors] && Acked(Do(s, a)) == a.survivors >= s.durable
  {
    hide LogOk, OrderedOk, ExactOk, TablesOk, ReadsTo, UpOk, Do, Enabled;
    StepFacts(s, a);
    WriterFacts(s, a);
  }

  /** With an fsync for every append, a mutation once acknowledged is never lost, whatever crashes follow. */
  lemma {:induction false} AckedNeverLost(mode: Mode, states: seq<State>, actions: seq<Action>, i: nat, j: nat)
    requires Run(mode, 1, states, actions) && i <= j < |states|
    ensures states[i].hist[..Acked(states[i])] <= states[j].hist[..Acked(states[j])]
    decreases j
  {
    hide Inv, Enabled, Do, CleanOpen, Initial;
    if i < j {
      AckedNeverLost(mode, states, actions, i, j - 1);
      var s, a := states[j - 1], actions[j - 1];
      assert Step(mode, s, a, states[j - 1 + 1]);
      RunInv(mode, 1, states, actions, j - 1);
      StepKeepsHistory(mode, s, a);
      LagBound(mode, s);
      EverySame(mode, 1, states, actions, j - 1);
    }
  }

  ghost predicate OnlyOrphans(actions: seq<Action>, i: nat, j: nat) {
    forall k :: i < k < j < |actions| ==> actions[k].RemoveOrphan?
  }

  lemma {:induction false} DownKeepsHistory(mode: Mode, every: positive, states: seq<State>, actions: seq<Action>,
                                            i: nat, j: nat)
    requires Run(mode, every, states, actions) && i < j < |actions| && OnlyOrphans(actions, i, j)
    ensures states[j].hist == states[i + 1].hist
    decreases j
  {
    hide Enabled, Do, CleanOpen, Initial;
    if i + 1 < j {
      DownKeepsHistory(mode, every, states, actions, i, j - 1);
      RunStep(mode, every, states, actions, j - 1);
      StepFacts(states[j - 1], actions[j - 1]);
    }
  }

  lemma OpensDown(s: State, a: Action)
    requires Enabled(s, a) && s.up
    ensures !a.Open?
  {
    hide SortedFrom, Ids;
  }

  lemma OpensUp(s: State, a: Action)
    requires Enabled(s, a) && a.Open?
    ensures Do(s, a).up
  {
    hide SortedFrom, Ids, Replay, MaxSeqnoOf, MaxSeqno, MemtablesFrom, PublishedFrom, Flatten;
  }

  /** Recovery: after a crash at any step of any run, the reopened store reads as the surviving
      prefix of the history says, and that prefix lacks at most every - 1 acknowledged mutations. */
  lemma CrashRecovery(mode: Mode, every: positive, states: seq<State>, actions: seq<Action>, i: nat, j: nat, key: bytes)
    requires Run(mode, every, states, actions) && i < j < |actions| && OnlyOrphans(actions, i, j)
    requires actions[i].Crash? && actions[j].Open?
    ensures var n := actions[i].survivors;
            && n <= |states[i].hist| && Acked(states[i]) <= n + every - 1
            && Read(Layers(states[j + 1]), key) == Latest(states[i].hist[..n], key)
  {
    hide Inv, Read, Latest, OnlyOrphans, Run, CleanOpen, Layers, Enabled, Do;
    var n := actions[i].survivors;
    RunStep(mode, every, states, actions, i);
    RunStep(mode, every, states, actions, j);
    WriterFacts(states[i], actions[i]);
    WriterFacts(states[j], actions[j]);
    StepFacts(states[j], actions[j]);
    OpensUp(states[j], actions[j]);
    RunLag(mode, every, states, actions, i);
    DownKeepsHistory(mode, every, states, actions, i, j);
    RunReads(mode, every, states, actions, j + 1, key);
    assert states[j + 1].hist[..Applied(states[j + 1])] == states[i].hist[..n];
  }

  lemma RunStep(mode: Mode, every: positive, states: seq<State>, actions: seq<Action>, i: nat)
    requires Run(mode, every, states, actions) && i < |actions|
    ensures |states| == |actions| + 1 && Step(mode, states[i], actions[i], states[i + 1])
  {
  }

  // ----- snapshot reads -----

  lemma ReaderFacts(s: State, a: Action, r: nat)
    requires Enabled(s, a) && r in s.readers && r in Do(s, a).readers
    requires a.Capture? || a.ProbeActive? || a.ProbeNext? || a.Release? || a.Crash? || a.Open? || a.Log?
    ensures !a.Crash? && !a.Open?
    ensures Do(s, a).readers[r].key == s.readers[r].key && Do(s, a).readers[r].captured == s.readers[r].captured
    ensures s.hist <= Do(s, a).hist
  {
    hide SortedFrom, Ids, Replay, MaxSeqnoOf, MaxSeqno, MemtablesFrom, PublishedFrom, Flatten, Appended, Torn,
      AfterActive, AfterLayer, Falling;
    match a {
      case Capture(_, _) =>
      case ProbeActive(_) =>
      case ProbeNext(_) =>
      case Release(_) =>
      case Crash(_) =>
      case Open(_, _) =>
      case Log(_, _, _, _) =>
    }
  }

  /** A reader keeps its key and the moment of its capture for as long as it is there. */
  lemma StepKeepsReader(mode: Mode, s: State, a: Action, r: nat)
    requires Inv(mode, s) && Enabled(s, a) && r in s.readers && r in Do(s, a).readers
    ensures Do(s, a).readers[r].key == s.readers[r].key && Do(s, a).readers[r].captured == s.readers[r].captured
    ensures s.hist <= Do(s, a).hist
  {
    hide Inv, Do, Enabled;
    StepFacts(s, a);
    if a.Capture? || a.ProbeActive? || a.ProbeNext? || a.Release? || a.Crash? || a.Open? || a.Log? {
      ReaderFacts(s, a, r);
    }
  }

  lemma CaptureFacts(s: State, r: nat, key: bytes)
    requires Enabled(s, Capture(r, key))
    ensures var t := Do(s, Capture(r, key));
            t.hist == s.hist && r in t.readers && t.readers[r].key == key && t.readers[r].captured == Applied(s)
  {
  }

  lemma {:induction false} ReaderKept(mode: Mode, every: positive, states: seq<State>, actions: seq<Action>, i: nat,
                                      j: nat, r: nat, key: bytes)
    requires Run(mode, every, states, actions) && i < j <= |actions| && actions[i] == Capture(r, key)
    requires forall k :: i < k <= j ==> r in states[k].readers
    ensures states[j].readers[r].key == key && states[j].readers[r].captured == Applied(states[i])
    ensures states[i].hist <= states[j].hist
    decreases j
  {
    hide Inv, CleanOpen, Initial, Do, Enabled;
    if i + 1 < j {
      ReaderKept(mode, every, states, actions, i, j - 1, r, key);
      RunStep(mode, every, states, actions, j - 1);
      RunInv(mode, every, states, actions, j - 1);
      StepKeepsReader(mode, states[j - 1], actions[j - 1], r);
    } else {
      RunStep(mode, every, states, actions, i);
      CaptureFacts(states[i], r, key);
    }
  }

  /** Snapshot reads are linearizable: a get that captured one version, and then probed its layers
      while anything else went on, answers for one moment between its capture and its return. */
  lemma SnapshotReads(mode: Mode, every: positive, states: seq<State>, actions: seq<Action>, i: nat, j: nat, r: nat,
                      key: bytes)
    requires Run(mode, every, states, actions) && i < j <= |actions| && actions[i] == Capture(r, key)
    requires forall k :: i < k <= j ==> r in states[k].readers
    requires states[j].up && states[j].readers[r].stage.Answered?
    ensures var done := states[j].readers[r].stage;
            && Acked(states[i]) <= Applied(states[i]) <= done.moment <= Applied(states[j]) <= |states[j].hist|
            && states[i].hist <= states[j].hist
            && done.result == Latest(states[j].hist[..done.moment], key)
  {
    hide Inv, Latest, Run;
    assert |states| == |actions| + 1 by {
      RunStep(mode, every, states, actions, i);
    }
    ReaderKept(mode, every, states, actions, i, j, r, key);
    RunInv(mode, every, states, actions, j);
    AnsweredOk(mode, states[j], r);
  }

  lemma AnsweredOk(mode: Mode, s: State, r: nat)
    requires Inv(mode, s) && s.up && r in s.readers && s.readers[r].stage.Answered?
    ensures var x := s.readers[r];
            && x.captured <= x.stage.moment <= Applied(s) <= |s.hist|
            && x.stage.result == Latest(s.hist[..x.stage.moment], x.key)
  {
    hide OrderedOk, ExactOk, LogOk, SyncOk, TablesOk, ReadsTo, UpOk, Latest;
    TheReader(s, r);
  }

  // ----- files -----

  /** At every instant every table of the manifest, and every table any reader's version names, has
      its complete file. */
  lemma FilesOutliveReferences(mode: Mode, every: positive, states: seq<State>, actions: seq<Action>, i: nat)
    requires Run(mode, every, states, actions) && i < |states|
    ensures var s := states[i]; forall t :: t in s.tables ==> t.id in s.files && s.files[t.id] == t.data
    ensures var s := states[i];
            s.up ==> forall r, t :: r in s.readers && t in s.readers[r].version.tables ==>
              t.id in s.files && s.files[t.id] == t.data
  {
    hide OrderedOk, ExactOk, LogOk, SyncOk, ReadsTo, UpOk, AllOk, UniqueIds, Run;
    RunInv(mode, every, states, actions, i);
    var s := states[i];
    if s.up {
      forall r, t | r in s.readers && t in s.readers[r].version.tables
        ensures t.id in s.files && s.files[t.id] == t.data {
        TheReader(s, r);
      }
    }
  }

  /** A run of deletions of files the manifest does not list. */
  ghost predicate Sweeps(s: State, states: seq<State>, actions: seq<Action>) {
    && |states| == |actions| + 1 && states[0] == s
    && forall i :: 0 <= i < |actions| ==> Sweep(states[i], actions[i], states[i + 1])
  }

  ghost predicate Sweep(s: State, a: Action, t: State) {
    a.RemoveOrphan? && Enabled(s, a) && t == Do(s, a)
  }

  /** The files the manifest lists. */
  function ListedFiles(files: map<nat, Mem>, ts: seq<Table>): map<nat, Mem> {
    map id | id in files && id in Ids(ts) :: files[id]
  }

  lemma NothingUnlisted(files: map<nat, Mem>, ts: seq<Table>)
    requires forall id :: id in files ==> id in Ids(ts)
    ensures ListedFiles(files, ts) == files
  {
  }

  lemma FewerFiles(files: map<nat, Mem>, id: nat)
    requires id in files
    ensures |files - {id}| < |files|
  {
    assert (files - {id}).Keys == files.Keys - {id};
    assert |files.Keys - {id}| == |files.Keys| - 1;
  }

  /** The sweep of the directory: some finite run of deletions leaves exactly the listed files, and
      on the way no listed file is touched. */
  lemma {:induction false} SweepOrphans(s: State) returns (states: seq<State>, actions: seq<Action>)
    requires !s.up
    ensures Sweeps(s, states, actions) && states[|actions|] == s.(files := ListedFiles(s.files, s.tables))
    ensures forall i :: 0 <= i < |states| ==> ListedFiles(states[i].files, s.tables) == ListedFiles(s.files, s.tables)
    decreases |s.files|
  {
    hide Ids, ListedFiles;
    if id :| id in s.files && id !in Ids(s.tables) {
      var t := s.(files := s.files - {id});
      FewerFiles(s.files, id);
      SameListed(s.files, s.tables, id);
      states, actions := SweepOrphans(t);
      assert Sweep(s, RemoveOrphan(id), t);
      SweepCons(s, RemoveOrphan(id), t, states, actions);
      states, actions := [s] + states, [RemoveOrphan(id)] + actions;
    } else {
      NothingUnlisted(s.files, s.tables);
      states, actions := [s], [];
    }
  }

  lemma SameListed(files: map<nat, Mem>, ts: seq<Table>, id: nat)
    requires id !in Ids(ts)
    ensures ListedFiles(files - {id}, ts) == ListedFiles(files, ts)
  {
  }

  lemma SweepCons(s: State, a: Action, t: State, states: seq<State>, actions: seq<Action>)
    requires Sweep(s, a, t) && Sweeps(t, states, actions)
    ensures Sweeps(s, [s] + states, [a] + actions)
  {
    hide Sweep;
    var ss, aa := [s] + states, [a] + actions;
    forall i | 0 <= i < |aa| ensures Sweep(ss[i], aa[i], ss[i + 1]) {
      if i > 0 {
        assert ss[i] == states[i - 1] && aa[i] == actions[i - 1] && ss[i + 1] == states[i - 1 + 1];
      }
    }
  }

  /** Any list of tables has a sorted order. */
  lemma {:induction false} SortExists(ts: seq<Table>) returns (order: seq<Table>)
    ensures SortedFrom(order, ts)
    decreases |ts|
  {
    if ts == [] {
      order := [];
    } else {
      var rest := SortExists(ts[1..]);
      order := InsertTable(rest, ts[0]);
      assert ts == [ts[0]] + ts[1..];
      assert multiset(ts) == multiset{ts[0]} + multiset(ts[1..]);
    }
  }

  lemma {:induction false} InsertTable(ts: seq<Table>, t: Table) returns (more: seq<Table>)
    requires Descending(ts)
    ensures Descending(more) && multiset(more) == multiset(ts) + multiset{t}
    decreases |ts|
  {
    if ts == [] || t.maxSeqno >= ts[0].maxSeqno {
      more := [t] + ts;
    } else {
      assert ts == [ts[0]] + ts[1..];
      var rest := InsertTable(ts[1..], t);
      more := [ts[0]] + rest;
      hide Descending;
      DescendingCons(ts[0], rest, ts[1..], t);
    }
  }

  lemma DescendingCons(first: Table, rest: seq<Table>, others: seq<Table>, t: Table)
    requires Descending([first] + others) && Descending(rest) && multiset(rest) == multiset(others) + multiset{t}
    requires t.maxSeqno < first.maxSeqno
    ensures Descending([first] + rest)
  {
    var all, more := [first] + others, [first] + rest;
    forall i, j | 0 <= i < j < |more| ensures more[i].maxSeqno >= more[j].maxSeqno {
      assert more[j] == rest[j - 1];
      assert more[j] in multiset(others) + multiset{t};
      if more[j] in others {
        var x :| 0 <= x < |others| && others[x] == more[j];
        assert all[0] == first && all[x + 1] == more[j];
      }
      if i > 0 {
        assert more[i] == rest[i - 1];
      }
    }
  }

  /** Opening sweeps the directory: from whatever a crash left, deleting unlisted files leads to a
      state where Open can happen, and afterwards the table files are exactly those the manifest
      lists, each still holding its table. */
  lemma OpenLeavesManifestFiles(mode: Mode, s: State)
      returns (states: seq<State>, actions: seq<Action>, order: seq<Table>)
    requires Inv(mode, s) && !s.up
    ensures Sweeps(s, states, actions)
    ensures forall i, t :: 0 <= i < |states| && t in s.tables ==>
            t.id in states[i].files && states[i].files[t.id] == t.data
    ensures var swept := states[|actions|]; Enabled(swept, Open(order, [s.walStart]))
    ensures var t := Do(states[|actions|], Open(order, [s.walStart]));
            && t.up && (forall x :: x in t.tables <==> x in s.tables)
            && t.files == ListedFiles(s.files, s.tables) && forall id :: id in t.files <==> id in Ids(t.tables)
  {
    hide OrderedOk, ExactOk, SyncOk, ReadsTo, UpOk, AllOk, UniqueIds, Flatten, RisingFrom, Replay, MaxSeqnoOf, MaxSeqno,
      MemtablesFrom, PublishedFrom;
    states, actions := SweepOrphans(s);
    order := SortExists(s.tables);
    SortedMembers(order, s.tables);
    forall t | t in s.tables
      ensures t.id in ListedFiles(s.files, s.tables) && ListedFiles(s.files, s.tables)[t.id] == t.data {
      ListedId(s.tables, t);
    }
    forall i, t | 0 <= i < |states| && t in s.tables
      ensures t.id in states[i].files && states[i].files[t.id] == t.data {
      assert t.id in ListedFiles(states[i].files, s.tables);
    }
    SameIds(order, s.tables);
    assert forall id :: id in Ids(s.tables) ==> id in s.files by {
      ListedHaveFiles(s.tables, s.nextId, s.files);
    }
  }

  lemma ListedHaveFiles(tables: seq<Table>, nextId: nat, files: map<nat, Mem>)
    requires TablesOk(tables, nextId, files)
    ensures forall id :: id in Ids(tables) ==> id in files
  {
    hide AllOk, UniqueIds;
    forall id | id in Ids(tables) ensures id in files {
      var i :| 0 <= i < |tables| && Ids(tables)[i] == id;
      assert tables[i] in tables;
    }
  }

  lemma SameIds(order: seq<Table>, ts: seq<Table>)
    requires forall t :: t in order <==> t in ts
    ensures forall id :: id in Ids(order) <==> id in Ids(ts)
  {
    forall id ensures id in Ids(order) <==> id in Ids(ts) {
      if id in Ids(order) {
        var i :| 0 <= i < |order| && Ids(order)[i] == id;
        ListedId(ts, order[i]);
      }
      if id in Ids(ts) {
        var i :| 0 <= i < |ts| && Ids(ts)[i] == id;
        ListedId(order, ts[i]);
      }
    }
  }

  lemma PublishFacts(s: State, a: Action, id: nat)
    requires UpOk(s) && s.up && Enabled(s, a) && id in s.published && (a.PublishFlush? || a.PublishCompact?)
    ensures id in Do(s, a).published && Do(s, a).published[id] == s.published[id]
  {
    hide SortedFrom, TableOk, Outputs, Outside, Listed, Ids, Replay, MaxSeqnoOf, ImmsOk, ActiveOk, NumbersOk, ReadersOk;
    match a {
      case PublishFlush(t) =>
      case PublishCompact(order) =>
        if s.creator.out.Some? {
          assert s.creator.out.value.id == s.nextId;
        }
    }
  }

  /** Within one process a published number keeps its contents for ever, so a block cached under it
      stays right. */
  lemma StepKeepsPublished(mode: Mode, s: State, a: Action, id: nat)
    requires Inv(mode, s) && s.up && Enabled(s, a) && !a.Crash? && id in s.published
    ensures id in Do(s, a).published && Do(s, a).published[id] == s.published[id]
  {
    hide OrderedOk, ExactOk, LogOk, SyncOk, ReadsTo, AllOk, UniqueIds, ImmsOk, ActiveOk, NumbersOk, ReadersOk, TablesOk,
      Do, Enabled;
    StepFacts(s, a);
    OpensDown(s, a);
    if a.PublishFlush? || a.PublishCompact? {
      PublishFacts(s, a, id);
    }
  }

  lemma {:induction false} NumbersNeverReused(mode: Mode, every: positive, states: seq<State>, actions: seq<Action>,
                                              i: nat, j: nat, id: nat)
    requires Run(mode, every, states, actions) && i <= j < |states| && states[i].up && id in states[i].published
    requires forall k :: i <= k < j ==> !actions[k].Crash?
    ensures states[j].up && id in states[j].published && states[j].published[id] == states[i].published[id]
    decreases j
  {
    hide Inv, CleanOpen, Initial, Do, Enabled;
    if i < j {
      NumbersNeverReused(mode, every, states, actions, i, j - 1, id);
      RunStep(mode, every, states, actions, j - 1);
      RunInv(mode, every, states, actions, j - 1);
      StepKeepsPublished(mode, states[j - 1], actions[j - 1], id);
      StepFacts(states[j - 1], actions[j - 1]);
    }
  }

  // ----- numbers -----

  /** A new sequence number is above everything stored in the log, in memory and in the tables. */
  lemma FreshNumber(mode: Mode, every: positive, states: seq<State>, actions: seq<Action>, i: nat,
                    tombstone: bool, key: bytes, value: bytes)
    requires Run(mode, every, states, actions) && i < |states| && states[i].up
    ensures var s, n := states[i], NextRecord(states[i], tombstone, key, value).seqno;
            && (forall r :: r in Flatten(s.segs) ==> r.seqno < n)
            && (forall k :: k in s.active ==> s.active[k].seqno < n)
            && (forall m, k :: 0 <= m < |s.imms| && k in s.imms[m] ==> s.imms[m][k].seqno < n)
            && (forall t, k :: t in s.tables && k in t.data ==> t.data[k].seqno < n)
  {
    hide OrderedOk, ExactOk, SyncOk, ReadsTo, Run, PublishedOk, CreatorOk, ReadersOk, Flatten, MaxSeqnoOf, Replay;
    RunInv(mode, every, states, actions, i);
    var s := states[i];
    NumbersInLog(s);
    NumbersInActive(s);
    forall m, k | 0 <= m < |s.imms| && k in s.imms[m] ensures s.imms[m][k].seqno <= s.lastSeqno {
      NumbersInImmutable(s, m, k);
    }
    MaxSeqnoBound(s.tables);
    forall t, k | t in s.tables && k in t.data ensures t.data[k].seqno <= s.lastSeqno {
      assert TableOk(t);
    }
  }

  lemma NumbersInLog(s: State)
    requires LogOk(s.hist, s.walStart, s.segs) && UpOk(s)
    ensures forall r :: r in Flatten(s.segs) ==> r.seqno <= s.lastSeqno
  {
    hide ImmsOk, ActiveOk, PublishedOk, CreatorOk, ReadersOk, Flatten;
    forall r | r in Flatten(s.segs) ensures r.seqno <= s.lastSeqno {
      var x :| 0 <= x < |s.hist[s.walStart..]| && s.hist[s.walStart..][x] == r;
      assert s.hist[s.walStart + x] == r;
    }
  }

  lemma NumbersInActive(s: State)
    requires UpOk(s)
    ensures forall k :: k in s.active ==> s.active[k].seqno <= s.lastSeqno
  {
    hide ImmsOk, PublishedOk, CreatorOk, ReadersOk, Replay, Falling;
    UpCuts(s);
    CutAboveLast(s.cuts, 0);
    forall k | k in s.active ensures s.active[k].seqno <= s.lastSeqno {
      var i := ReplaySource(s.hist, s.cuts[0], Applied(s), k);
    }
  }

  lemma NumbersInImmutable(s: State, m: nat, k: bytes)
    requires UpOk(s) && m < |s.imms| && k in s.imms[m]
    ensures s.imms[m][k].seqno <= s.lastSeqno
  {
    hide PublishedOk, CreatorOk, ReadersOk, Replay, ActiveOk;
    CutAboveLast(s.cuts, m + 1);
    var i := ReplaySource(s.hist, s.cuts[m + 1], s.cuts[m], k);
  }

  lemma {:induction false} CutAboveLast(cuts: seq<nat>, i: nat)
    requires Falling(cuts) && i < |cuts|
    ensures cuts[i] >= cuts[|cuts| - 1]
    decreases |cuts| - i
  {
    if i < |cuts| - 1 {
      CutAboveLast(cuts, i + 1);
    }
  }

  /** With clean reopens the tables stay well-ordered and older than every unflushed mutation. */
  lemma TablesStayOrdered(every: positive, states: seq<State>, actions: seq<Action>, i: nat)
    requires Run(CleanReopens, every, states, actions) && i < |states|
    ensures var s := states[i]; WellOrdered(s.tables)
    ensures var s := states[i];
            s.cuts != [] && forall t, p :: t in s.tables && Flushed(s) <= p < |s.hist| ==> t.maxSeqno < s.hist[p].seqno
  {
    hide LogOk, SyncOk, ReadsTo, UpOk, TablesOk, Run, MaxSeqnoOf, WellOrdered;
    RunInv(CleanReopens, every, states, actions, i);
    MaxSeqnoBound(states[i].tables);
  }

  // ----- cleanup -----

  /** The log is always a suffix of the history, and the tables alone, as a reopen would list them,
      answer for every key the log does not mention. */
  lemma CleanupIsSafe(mode: Mode, every: positive, states: seq<State>, actions: seq<Action>, i: nat, order: seq<Table>,
                      key: bytes)
    requires Run(mode, every, states, actions) && i < |states| && SortedFrom(order, states[i].tables)
    ensures var s := states[i]; s.walStart <= |s.hist| && Flatten(s.segs) == s.hist[s.walStart..]
    ensures var s := states[i];
            !Touches(s.hist[s.walStart..], key) ==> Read(Datas(order), key) == Latest(s.hist[..s.walStart], key)
  {
    hide Run, Flatten, RisingFrom, SyncOk, UpOk, Read, Latest, OrderedOk, ExactOk, SortedFrom, AllOk, UniqueIds;
    RunInv(mode, every, states, actions, i);
    var s := states[i];
    assert Stable(s) <= |s.hist|;
    match mode
    case CleanReopens => CoveredInOrder(s, order);
    case NoCompaction =>
      SortedExact(s.hist, s.walStart, Flushed(s), Stable(s), s.tables, order);
      OverlappingReads(s.hist, s.walStart, order);
    assert s.hist[s.walStart..] == s.hist[s.walStart..|s.hist|];
  }

  lemma CoveredInOrder(s: State, order: seq<Table>)
    requires s.cuts != [] && OrderedOk(s.hist, s.walStart, Flushed(s), s.tables) && SortedFrom(order, s.tables)
             && AllOk(s.tables)
    requires ReadsTo(Datas(s.tables), s.hist, Flushed(s), Stable(s)) && Stable(s) <= |s.hist|
    ensures ReadsTo(Datas(order), s.hist, s.walStart, |s.hist|)
  {
    hide ReadsTo, AllOk, SortedFrom;
    SortKeepsWellOrdered(order, s.tables);
    ReadsToEarlier(Datas(s.tables), s.hist, Flushed(s), Stable(s), s.walStart, |s.hist|);
  }
}
