/** When reopens are clean: no crash while covered segments are being deleted, and a replay that
    rotates only where a segment begins. */
module StoreClean {
  import opened Bytes
  import opened Memtables
  import opened Seqs
  import opened History
  import opened Tables
  import opened Compaction
  import opened Store
  import opened StoreInvariant
  import opened FlushSteps
  import opened RecoverySteps
  import opened StoreRuns

  /** The position in the history at which a segment begins. */
  function StartOf(walStart: nat, segs: seq<seq<Record>>, k: nat): nat
    requires k <= |segs|
  {
    walStart + |Flatten(segs[..k])|
  }

  ghost predicate Begins(walStart: nat, segs: seq<seq<Record>>, c: nat) {
    exists k :: 0 <= k < |segs| && StartOf(walStart, segs, k) == c
  }

  /** Every memtable's records begin with a segment. */
  ghost predicate Aligned(walStart: nat, segs: seq<seq<Record>>, cuts: seq<nat>) {
    forall i :: 0 <= i < |cuts| ==> Begins(walStart, segs, cuts[i])
  }

  /** No closed segment with records is covered by the tables any more. */
  ghost predicate Cleaned(segs: seq<seq<Record>>, watermark: nat) {
    forall i :: 0 <= i < |segs| && segs[i] != [] ==> !CanCleanup(segs, i, watermark)
  }

  /** What a run must avoid for its reopens to be clean. */
  ghost predicate Careful(s: State, a: Action) {
    match a
    case Crash(_) => !s.creator.Cleaning?
    case EndCleanup => Cleaned(s.segs, MaxSeqnoOf(s.tables))
    case Open(_, cuts) => Aligned(s.walStart, if s.segs == [] then [[]] else s.segs, cuts)
    case _ => true
  }

  ghost predicate CarefulStep(s: State, a: Action, t: State) {
    Enabled(s, a) && Careful(s, a) && t == Do(s, a)
  }

  ghost predicate CarefulRun(every: positive, states: seq<State>, actions: seq<Action>) {
    && |states| == |actions| + 1 && states[0] == Initial(every)
    && forall i :: 0 <= i < |actions| ==> CarefulStep(states[i], actions[i], states[i + 1])
  }

  /** The log holds nothing that is flushed, except while segments are being deleted; then the tables cover it. */
  ghost predicate Settled(c: Creator, h: seq<Record>, walStart: nat, flushed: nat, tables: seq<Table>) {
    if !c.Cleaning? then walStart == flushed
    else walStart <= flushed <= |h| && forall i :: walStart <= i < flushed ==> h[i].seqno <= MaxSeqnoOf(tables)
  }

  ghost predicate Tidy(s: State) {
    && s.cuts != [] && Settled(s.creator, s.hist, s.walStart, Flushed(s), s.tables)
    && (if s.up then Aligned(s.walStart, s.segs, s.cuts) else !s.creator.Cleaning?)
  }

  // ----- where segments begin -----

  lemma BeginsAt(walStart: nat, segs: seq<seq<Record>>, c: nat) returns (k: nat)
    requires Begins(walStart, segs, c)
    ensures k < |segs| && StartOf(walStart, segs, k) == c
  {
    hide StartOf;
    k :| 0 <= k < |segs| && StartOf(walStart, segs, k) == c;
  }

  /** Changing the last segment, or adding one, moves no beginning. */
  lemma SameBeginnings(walStart: nat, segs: seq<seq<Record>>, more: seq<seq<Record>>, cuts: seq<nat>)
    requires Aligned(walStart, segs, cuts) && segs != [] && |more| >= |segs| && more[..|segs| - 1] == segs[..|segs| - 1]
    ensures Aligned(walStart, more, cuts)
  {
    hide Flatten;
    forall i | 0 <= i < |cuts| ensures Begins(walStart, more, cuts[i]) {
      var k := BeginsAt(walStart, segs, cuts[i]);
      assert more[..k] == more[..|segs| - 1][..k] == segs[..k];
      assert StartOf(walStart, more, k) == cuts[i];
    }
  }

  lemma NewBeginning(h: seq<Record>, walStart: nat, segs: seq<seq<Record>>, cuts: seq<nat>)
    requires LogOk(h, walStart, segs) && Aligned(walStart, segs + [[]], cuts)
    ensures Aligned(walStart, segs + [[]], [|h|] + cuts)
  {
    hide Flatten;
    assert (segs + [[]])[..|segs|] == segs;
    assert StartOf(walStart, segs + [[]], |segs|) == |h|;
  }

  /** Deleting a covered segment moves no beginning that is not itself covered. */
  lemma DeleteKeepsBeginning(h: seq<Record>, walStart: nat, segs: seq<seq<Record>>, i: nat, watermark: nat, c: nat)
    requires LogOk(h, walStart, segs) && CanCleanup(segs, i, watermark) && Begins(walStart, segs, c)
    requires forall x :: c <= x < |h| ==> h[x].seqno > watermark
    ensures Begins(walStart + |segs[i]|, segs[..i] + segs[i + 1..], c)
  {
    hide Flatten, CanCleanup;
    CleanupIndex(segs, i, watermark);
    var k := BeginsAt(walStart, segs, c);
    var less := segs[..i] + segs[i + 1..];
    if segs[i] == [] {
      SkipEmpty(segs, i, k);
      assert StartOf(walStart, less, if k <= i then k else k - 1) == c;
    } else {
      DeletesPrefix(h, walStart, segs, i, watermark);
      if k <= i {
        StandsFrom(h, walStart, segs, i, k);
        CoveredRecord(segs, i, watermark);
        assert false;
      }
      SkipOne(segs, i, k);
      assert StartOf(walStart + |segs[i]|, less, k - 1) == c;
    }
  }

  lemma CoveredRecord(segs: seq<seq<Record>>, i: nat, watermark: nat)
    requires CanCleanup(segs, i, watermark) && segs[i] != []
    ensures segs[i][0].seqno <= watermark
  {
  }

  /** The records of a segment stand at or after the beginning of any earlier one. */
  lemma StandsFrom(h: seq<Record>, walStart: nat, segs: seq<seq<Record>>, i: nat, k: nat)
    requires LogOk(h, walStart, segs) && k <= i < |segs| && segs[i] != []
    ensures exists x :: StartOf(walStart, segs, k) <= x < |h| && h[x] == segs[i][0]
  {
    hide Flatten, RisingFrom;
    FlattenAt(segs, i);
    FlattenSplit(segs[..i], k);
    assert segs[..i][..k] == segs[..k];
    var x := walStart + |Flatten(segs[..i])|;
    assert h[walStart..][x - walStart] == h[x];
  }

  lemma SkipOne(segs: seq<seq<Record>>, i: nat, k: nat)
    requires i < k <= |segs|
    ensures |Flatten((segs[..i] + segs[i + 1..])[..k - 1])| + |segs[i]| == |Flatten(segs[..k])|
  {
    hide Flatten;
    FlattenAt(segs[..k], i);
    assert segs[..k][..i] == segs[..i] && segs[..k][i + 1..] == segs[i + 1..k];
    FlattenAppend(segs[..i], segs[i + 1..k]);
    assert (segs[..i] + segs[i + 1..])[..k - 1] == segs[..i] + segs[i + 1..k];
  }

  lemma SkipEmpty(segs: seq<seq<Record>>, i: nat, k: nat)
    requires i < |segs| && k < |segs| && segs[i] == []
    ensures |Flatten((segs[..i] + segs[i + 1..])[..if k <= i then k else k - 1])| == |Flatten(segs[..k])|
  {
    hide Flatten;
    if k <= i {
      assert (segs[..i] + segs[i + 1..])[..k] == segs[..k];
    } else {
      SkipOne(segs, i, k);
    }
  }

  lemma {:induction false} FirstWithRecords(segs: seq<seq<Record>>) returns (i: nat)
    requires Flatten(segs) != []
    ensures i < |segs| && segs[i] != [] && forall j :: 0 <= j < i ==> segs[j] == []
    decreases |segs|
  {
    var front := segs[..|segs| - 1];
    if Flatten(front) != [] {
      i := FirstWithRecords(front);
      assert forall j :: 0 <= j <= i ==> segs[j] == front[j];
    } else {
      i := |segs| - 1;
      forall j | 0 <= j < i ensures segs[j] == [] {
        FlattenAt(front, j);
        assert segs[j] == front[j];
      }
    }
  }

  /** A log that starts before a covered beginning has a segment left to delete. */
  lemma CoveredSegment(h: seq<Record>, walStart: nat, segs: seq<seq<Record>>, watermark: nat, flushed: nat)
    requires LogOk(h, walStart, segs) && Begins(walStart, segs, flushed) && walStart < flushed <= |h|
    requires forall x :: walStart <= x < flushed ==> h[x].seqno <= watermark
    ensures !Cleaned(segs, watermark)
  {
    hide Flatten, RisingFrom;
    var k := BeginsAt(walStart, segs, flushed);
    var i := FirstWithRecords(segs[..k]);
    assert segs[..k][i] == segs[i];
    forall r | r in segs[i] ensures r.seqno <= watermark {
      var y :| 0 <= y < |segs[i]| && segs[i][y] == r;
      FlattenAt(segs[..k], i);
      FlattenSplit(segs, k);
      var x := |Flatten(segs[..k][..i])| + y;
      assert h[walStart..][x] == h[walStart + x] == r;
    }
    assert forall j :: 0 <= j < i ==> segs[j] == segs[..k][j];
    assert CanCleanup(segs, i, watermark);
  }

  // ----- every careful step -----

  lemma TidyIsClean(s: State)
    requires Inv(CleanReopens, s) && Tidy(s) && !s.creator.Cleaning?
    ensures CleanOpen(s)
  {
    hide SyncOk, TablesOk, ReadsTo, UpOk, WellOrdered, MaxSeqnoOf, Flatten, RisingFrom, Aligned;
    forall r | r in Flatten(s.segs) ensures Above(r, s.tables) {
      var x :| 0 <= x < |s.hist[s.walStart..]| && s.hist[s.walStart..][x] == r;
      assert s.hist[s.walStart + x] == r;
    }
  }

  /** Steps that touch neither the log nor the boundary between memory and tables. */
  ghost predicate Aside(a: Action) {
    || a.Sync? || a.Apply? || a.Acknowledge? || a.BeginFlush? || a.WriteFlush? || a.BeginCompact? || a.WriteCompact?
    || a.PublishCompact? || a.DeleteInput? || a.EndDelete? || a.Abandon? || a.Capture? || a.ProbeActive? || a.ProbeNext?
    || a.Release? || a.RemoveOrphan?
  }

  lemma AsideFacts(s: State, a: Action)
    requires Aside(a) && Enabled(s, a)
    ensures var t := Do(s, a);
            && t.up == s.up && t.hist == s.hist && t.walStart == s.walStart && t.segs == s.segs && t.cuts == s.cuts
            && (t.creator.Cleaning? <==> s.creator.Cleaning?) && (s.creator.Cleaning? ==> t.tables == s.tables)
  {
    hide Referenced, SortedFrom, Outputs, Outside, Listed, Ids, AfterActive, AfterLayer;
    match a {
      case Sync =>
      case Apply =>
      case Acknowledge =>
      case BeginFlush =>
      case WriteFlush =>
      case BeginCompact(_, _) =>
      case WriteCompact(_, _) =>
      case PublishCompact(_) =>
      case DeleteInput(_) =>
      case EndDelete =>
      case Abandon =>
      case Capture(_, _) =>
      case ProbeActive(_) =>
      case ProbeNext(_) =>
      case Release(_) =>
      case RemoveOrphan(_) =>
    }
  }

  lemma LogTidy(s: State, tombstone: bool, key: bytes, value: bytes, rolls: bool)
    requires Inv(CleanReopens, s) && Tidy(s) && Enabled(s, Log(tombstone, key, value, rolls))
    ensures Tidy(Do(s, Log(tombstone, key, value, rolls)))
  {
    hide Inv, Aligned, MaxSeqnoOf;
    var t := Do(s, Log(tombstone, key, value, rolls));
    assert t.segs[..|s.segs| - 1] == s.segs[..|s.segs| - 1];
    SameBeginnings(s.walStart, s.segs, t.segs, s.cuts);
    assert forall i :: 0 <= i < |s.hist| ==> t.hist[i] == s.hist[i];
    assert Settled(t.creator, t.hist, t.walStart, Flushed(t), t.tables);
  }

  lemma RotateTidy(s: State)
    requires Inv(CleanReopens, s) && Tidy(s) && Enabled(s, Rotate)
    ensures Tidy(Do(s, Rotate))
  {
    hide Aligned, MaxSeqnoOf, OrderedOk, TablesOk, ReadsTo, UpOk, Flatten, RisingFrom;
    SameBeginnings(s.walStart, s.segs, s.segs + [[]], s.cuts);
    NewBeginning(s.hist, s.walStart, s.segs, s.cuts);
  }

  lemma FewerCuts(walStart: nat, segs: seq<seq<Record>>, cuts: seq<nat>)
    requires Aligned(walStart, segs, cuts) && cuts != []
    ensures Aligned(walStart, segs, cuts[..|cuts| - 1])
    ensures Begins(walStart, segs, cuts[|cuts| - 1])
  {
    hide Begins;
  }

  /** A flushed table covers every record it holds. */
  lemma FlushCovers(h: seq<Record>, p: nat, b: nat, tables: seq<Table>, t: Table)
    requires RisingFrom(h, p) && p < b <= |h| && TableOk(t) && t.data == Replay(h[p..b])
    ensures forall i :: p <= i < b ==> h[i].seqno <= MaxSeqnoOf([t] + tables)
  {
    hide Replay, MaxSeqnoOf;
    LastMutationStored(h, p, b);
    MaxSeqnoCons(t, tables);
    assert h[b - 1].seqno <= t.maxSeqno;
  }

  lemma FlushTidy(s: State, t: Table)
    requires Inv(CleanReopens, s) && Tidy(s) && Enabled(s, PublishFlush(t))
    ensures Tidy(Do(s, PublishFlush(t)))
  {
    hide Aligned, MaxSeqnoOf, SyncOk, ReadsTo, UpOk, TablesOk, TableOk, Replay, Flatten, RisingFrom, WellOrdered;
    FlushUp(s, t);
    FewerCuts(s.walStart, s.segs, s.cuts);
    FlushCovers(s.hist, Flushed(s), Flushed(DoPublishFlush(s, t)), s.tables, t);
  }

  lemma DeleteTidy(s: State, i: nat)
    requires Inv(CleanReopens, s) && Tidy(s) && Enabled(s, DeleteSegment(i))
    ensures Tidy(Do(s, DeleteSegment(i)))
  {
    hide MaxSeqnoOf, SyncOk, ReadsTo, UpOk, TablesOk, Flatten, RisingFrom, WellOrdered, CanCleanup, Begins, Falling;
    CleanupIndex(s.segs, i, MaxSeqnoOf(s.tables));
    UpCuts(s);
    var t := DoDeleteSegment(s, i);
    forall x | 0 <= x < |s.cuts| ensures Begins(t.walStart, t.segs, s.cuts[x]) {
      CutAboveLast(s.cuts, x);
      DeleteKeepsBeginning(s.hist, s.walStart, s.segs, i, MaxSeqnoOf(s.tables), s.cuts[x]);
    }
    assert Aligned(t.walStart, t.segs, t.cuts);
    DeleteKeepsSuffix(s.hist, s.walStart, s.segs, i, MaxSeqnoOf(s.tables));
    DeleteOrdered(s.hist, s.walStart, |s.segs[i]|, Flushed(s), s.tables);
    assert Settled(t.creator, t.hist, t.walStart, Flushed(t), t.tables);
  }

  lemma EndTidy(s: State)
    requires Inv(CleanReopens, s) && Tidy(s) && Enabled(s, EndCleanup) && Cleaned(s.segs, MaxSeqnoOf(s.tables))
    ensures Tidy(Do(s, EndCleanup))
  {
    hide Aligned, MaxSeqnoOf, SyncOk, ReadsTo, UpOk, TablesOk, LogOk, WellOrdered, Cleaned, Begins;
    if s.walStart < Flushed(s) {
      FewerCuts(s.walStart, s.segs, s.cuts);
      CoveredSegment(s.hist, s.walStart, s.segs, MaxSeqnoOf(s.tables), Flushed(s));
    }
  }

  lemma CrashTidy(s: State, n: nat)
    requires Inv(CleanReopens, s) && Tidy(s) && Enabled(s, Crash(n)) && !s.creator.Cleaning?
    ensures Tidy(Do(s, Crash(n)))
  {
    hide Inv, Aligned, Torn;
  }

  lemma OpenTidy(s: State, order: seq<Table>, cuts: seq<nat>)
    requires Inv(CleanReopens, s) && Tidy(s) && Enabled(s, Open(order, cuts)) && Careful(s, Open(order, cuts))
    ensures CleanOpen(s) && Tidy(Do(s, Open(order, cuts)))
  {
    hide Inv, Aligned, CleanOpen, SortedFrom, Ids, Replay, MaxSeqnoOf, MaxSeqno, MemtablesFrom, PublishedFrom, Flatten;
    TidyIsClean(s);
  }

  /** Every careful step is one the compacting engine may take, and leaves the log tidy. */
  lemma CarefulStepTidy(s: State, a: Action)
    requires Inv(CleanReopens, s) && Tidy(s) && Enabled(s, a) && Careful(s, a)
    ensures Allowed(CleanReopens, s, a) && Tidy(Do(s, a))
  {
    hide Inv, Enabled, Do, CleanOpen, Cleaned, Aligned, MaxSeqnoOf;
    match a {
      case Log(tombstone, key, value, rolls) => LogTidy(s, tombstone, key, value, rolls);
      case Rotate => RotateTidy(s);
      case PublishFlush(t) => FlushTidy(s, t);
      case DeleteSegment(i) => DeleteTidy(s, i);
      case EndCleanup => EndTidy(s);
      case Crash(n) => CrashTidy(s, n);
      case Open(order, cuts) => OpenTidy(s, order, cuts);
      case _ => AsideFacts(s, a);
    }
  }

  /** The theorem: a run that crashes at any step but the deletion of covered segments, and whose
      replays rotate only where a segment begins, has only clean reopens. */
  lemma {:induction false} CarefulRunIsClean(every: positive, states: seq<State>, actions: seq<Action>)
    requires CarefulRun(every, states, actions)
    ensures Run(CleanReopens, every, states, actions)
  {
    hide Inv, Enabled, Do, Careful, CleanOpen, Tidy;
    forall i | 0 <= i < |actions| ensures Step(CleanReopens, states[i], actions[i], states[i + 1]) {
      CarefulRunTidy(every, states, actions, i);
      assert CarefulStep(states[i], actions[i], states[i + 1]);
      CarefulStepTidy(states[i], actions[i]);
    }
  }

  lemma {:induction false} CarefulRunTidy(every: positive, states: seq<State>, actions: seq<Action>, i: nat)
    requires CarefulRun(every, states, actions) && i < |states|
    ensures Inv(CleanReopens, states[i]) && Tidy(states[i])
    decreases i
  {
    hide Inv, Enabled, Do, Careful, CleanOpen;
    if i == 0 {
      InitialInv(CleanReopens, every);
    } else {
      CarefulRunTidy(every, states, actions, i - 1);
      assert CarefulStep(states[i - 1], actions[i - 1], states[i - 1 + 1]);
      CarefulStepTidy(states[i - 1], actions[i - 1]);
      StepKeepsInv(CleanReopens, states[i - 1], actions[i - 1]);
    }
  }
}
