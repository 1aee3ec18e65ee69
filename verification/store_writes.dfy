/** What a caller sees over whole runs: an acknowledged write is read until the next one to its key,
    a read always finishes, and the loss the fsync period allows can really happen. */
module StoreWrites {
  import opened Bytes
  import opened Memtables
  import opened Seqs
  import opened History
  import opened Tables
  import opened Compaction
  import opened Store
  import opened StoreInvariant
  import opened FlushSteps
  import opened StoreRuns
  import StoreOverlap

  // ----- reading what was written -----

  lemma RunLength(mode: Mode, every: positive, states: seq<State>, actions: seq<Action>)
    requires Run(mode, every, states, actions)
    ensures |states| == |actions| + 1
  {
  }

  lemma LogFacts(s: State, a: Action)
    requires Enabled(s, a) && a.Log?
    ensures Do(s, a).hist == s.hist + [Record(a.tombstone, a.key, if a.tombstone then [] else a.value, s.lastSeqno + 1)]
  {
    hide Appended;
  }

  lemma StepHistory(mode: Mode, every: positive, states: seq<State>, actions: seq<Action>, i: nat)
    requires Run(mode, every, states, actions) && i < |actions|
    ensures actions[i].Log? ==>
              states[i + 1].hist
              == states[i].hist + [Record(actions[i].tombstone, actions[i].key,
                                          if actions[i].tombstone then [] else actions[i].value,
                                          states[i].lastSeqno + 1)]
    ensures !actions[i].Log? ==> states[i + 1].hist <= states[i].hist
    ensures !actions[i].Crash? ==> states[i].hist <= states[i + 1].hist
  {
    hide Inv, Enabled, Do, CleanOpen, Initial;
    RunStep(mode, every, states, actions, i);
    RunInv(mode, every, states, actions, i);
    StepFacts(states[i], actions[i]);
    StepKeepsHistory(mode, states[i], actions[i]);
    WriterFacts(states[i], actions[i]);
    if actions[i].Log? {
      LogFacts(states[i], actions[i]);
    }
  }

  /** No step from i to j logs a mutation of the key. */
  ghost predicate NoneLogged(actions: seq<Action>, i: nat, j: nat, key: bytes) {
    forall k :: i <= k < j && k < |actions| && actions[k].Log? ==> actions[k].key != key
  }

  ghost predicate NoCrash(actions: seq<Action>, i: nat, j: nat) {
    forall k :: i <= k < j && k < |actions| ==> !actions[k].Crash?
  }

  /** From position p on, a history mentions the key nowhere but in this record at p. */
  ghost predicate OnlyAt(h: seq<Record>, p: nat, r: Record, key: bytes) {
    forall x :: p <= x < |h| && h[x].key == key ==> x == p && h[x] == r
  }

  lemma {:induction false} OnlyThisWrite(mode: Mode, every: positive, states: seq<State>, actions: seq<Action>, i: nat,
                                         k: nat, key: bytes)
    requires Run(mode, every, states, actions) && i < k < |states| && actions[i].Log? && actions[i].key == key
    requires NoneLogged(actions, i + 1, k, key)
    ensures |states[i].hist| < |states[i + 1].hist|
    ensures OnlyAt(states[k].hist, |states[i].hist|, states[i + 1].hist[|states[i].hist|], key)
    decreases k
  {
    hide Run;
    RunLength(mode, every, states, actions);
    StepHistory(mode, every, states, actions, i);
    if i + 1 < k {
      OnlyThisWrite(mode, every, states, actions, i, k - 1, key);
      StepHistory(mode, every, states, actions, k - 1);
    }
  }

  lemma {:induction false} Grows(mode: Mode, every: positive, states: seq<State>, actions: seq<Action>, i: nat, j: nat)
    requires Run(mode, every, states, actions) && i <= j < |states| && NoCrash(actions, i, j)
    ensures states[i].hist <= states[j].hist && Acked(states[i]) <= Acked(states[j])
    decreases j
  {
    hide Inv, Enabled, Do, CleanOpen, Initial;
    if i < j {
      Grows(mode, every, states, actions, i, j - 1);
      RunStep(mode, every, states, actions, j - 1);
      RunInv(mode, every, states, actions, j - 1);
      StepKeepsHistory(mode, states[j - 1], actions[j - 1]);
    }
  }

  /** What was acknowledged stays: for good with an fsync for every append, and otherwise until a crash. */
  lemma AckedStays(mode: Mode, every: positive, states: seq<State>, actions: seq<Action>, a: nat, j: nat)
    requires Run(mode, every, states, actions) && a <= j < |states| && (every == 1 || NoCrash(actions, a, j))
    ensures Acked(states[a]) <= |states[a].hist| && Acked(states[j]) <= |states[j].hist|
    ensures states[a].hist[..Acked(states[a])] <= states[j].hist[..Acked(states[j])]
  {
    hide Run, NoCrash;
    if every == 1 {
      AckedNeverLost(mode, states, actions, a, j);
    } else {
      Grows(mode, every, states, actions, a, j);
    }
  }

  /** Read your writes. Once a put or delete has been acknowledged, and until the next mutation of its
      key is logged, every read at every moment the store is open gives its value, or nothing after a
      delete: through rotations, flushes, compactions and restarts, and through crashes too if every
      append is fsynced. */
  lemma AckedWriteIsRead(mode: Mode, every: positive, states: seq<State>, actions: seq<Action>, i: nat, a: nat, j: nat,
                         key: bytes)
    requires Run(mode, every, states, actions) && i < a <= j < |states|
    requires actions[i].Log? && actions[i].key == key && NoCrash(actions, i, a) && states[a].writer.Idle?
    requires NoneLogged(actions, i + 1, j, key) && (every == 1 || NoCrash(actions, a, j)) && states[j].up
    ensures Read(Layers(states[j]), key) == if actions[i].tombstone then None else Some(actions[i].value)
  {
    hide Run, Read, Latest, Layers;
    RunLength(mode, every, states, actions);
    var p := |states[i].hist|;
    StepHistory(mode, every, states, actions, i);
    var r := states[i + 1].hist[p];
    Grows(mode, every, states, actions, i + 1, a);
    AckedStays(mode, every, states, actions, a, j);
    RunReads(mode, every, states, actions, j, key);
    OnlyThisWrite(mode, every, states, actions, i, j, key);
    var h, n := states[j].hist, Applied(states[j]);
    assert states[a].hist[p] == r;
    assert h[..Acked(states[j])][p] == states[a].hist[..Acked(states[a])][p];
    forall x | p < x < n ensures h[..n][x].key != key {
      assert h[..n][x] == h[x];
    }
    LatestIsLastValue(h[..n], key, p);
  }

  // ----- a read finishes -----

  /** Steps of one reader only. */
  ghost predicate Probes(s: State, states: seq<State>, actions: seq<Action>, r: nat) {
    && |states| == |actions| + 1 && states[0] == s
    && forall i :: 0 <= i < |actions| ==> ProbeStep(states[i], actions[i], states[i + 1], r)
  }

  ghost predicate ProbeStep(s: State, a: Action, t: State, r: nat) {
    (a == ProbeActive(r) || a == ProbeNext(r)) && Enabled(s, a) && t == Do(s, a)
  }

  /** Layers a reader has yet to look at, its active table included. */
  function Unread(r: Reader): nat {
    match r.stage
    case Captured => |r.version.imms| + |r.version.tables| + 2
    case Probing(layer, _) =>
      if layer <= |r.version.imms| + |r.version.tables| then |r.version.imms| + |r.version.tables| + 1 - layer else 1
    case Answered(_, _) => 0
  }

  lemma ProbeFacts(s: State, r: nat, a: Action)
    requires r in s.readers && (a == ProbeActive(r) || a == ProbeNext(r)) && Enabled(s, a)
    ensures var t := Do(s, a);
            r in t.readers && t.up == s.up && t.activeId == s.activeId && t.frozen == s.frozen
            && Unread(t.readers[r]) < Unread(s.readers[r])
  {
  }

  /** Whatever else holds still or moves on, a reader that has captured its version can always go on,
      and answers after no more probes than it has layers, plus one. */
  lemma {:induction false} ReadFinishes(s: State, r: nat) returns (states: seq<State>, actions: seq<Action>)
    requires s.up && r in s.readers
    requires s.readers[r].version.memId == s.activeId || s.readers[r].version.memId in s.frozen
    ensures Probes(s, states, actions, r) && |actions| <= Unread(s.readers[r])
    ensures var t := states[|actions|]; r in t.readers && t.readers[r].stage.Answered?
    decreases Unread(s.readers[r])
  {
    if s.readers[r].stage.Answered? {
      states, actions := [s], [];
    } else {
      var a := if s.readers[r].stage.Captured? then ProbeActive(r) else ProbeNext(r);
      assert Enabled(s, a);
      ProbeFacts(s, r, a);
      ProbeKeepsVersion(s, r, a);
      var t := Do(s, a);
      hide Enabled, Do, Unread;
      var ss, aa := ReadFinishes(t, r);
      states, actions := [s] + ss, [a] + aa;
      forall i | 0 <= i < |actions| ensures ProbeStep(states[i], actions[i], states[i + 1], r) {
        if i > 0 {
          assert states[i] == ss[i - 1] && actions[i] == aa[i - 1] && states[i + 1] == ss[i - 1 + 1];
        }
      }
    }
  }

  lemma ProbeKeepsVersion(s: State, r: nat, a: Action)
    requires r in s.readers && (a == ProbeActive(r) || a == ProbeNext(r)) && Enabled(s, a)
    ensures r in Do(s, a).readers && Do(s, a).readers[r].version == s.readers[r].version
  {
  }

  // ----- nothing is ruled out -----

  /** A writer can always take its next step, whatever the workers do. */
  lemma WriterCanStep(mode: Mode, s: State)
    requires Inv(mode, s) && s.up
    ensures s.writer.Idle? ==> forall d, k, v, rolls :: k != [] ==> Enabled(s, Log(d, k, v, rolls))
    ensures s.writer.Logged? ==> Enabled(s, Sync)
    ensures s.writer.Durable? ==> Enabled(s, Apply)
    ensures s.writer.Visible? ==> Enabled(s, Acknowledge)
    ensures s.writer.Visible? && s.cuts != [] && s.cuts[0] < |s.hist| ==> Enabled(s, Rotate)
  {
    hide OrderedOk, ExactOk, LogOk, TablesOk, ReadsTo, ImmsOk, ActiveOk, NumbersOk, PublishedOk, CreatorOk, ReadersOk;
  }

  /** A reader can always take its next step. */
  lemma ReaderCanStep(mode: Mode, s: State)
    requires Inv(mode, s) && s.up
    ensures forall r, k :: r !in s.readers && k != [] ==> Enabled(s, Capture(r, k))
    ensures forall r :: r in s.readers && s.readers[r].stage.Captured? ==> Enabled(s, ProbeActive(r))
    ensures forall r :: r in s.readers && s.readers[r].stage.Probing? ==> Enabled(s, ProbeNext(r))
    ensures forall r :: r in s.readers && s.readers[r].stage.Answered? ==> Enabled(s, Release(r))
  {
    hide OrderedOk, ExactOk, LogOk, SyncOk, TablesOk, ReadsTo, ImmsOk, ActiveOk, NumbersOk, PublishedOk, CreatorOk,
      HeldOk, StageOk;
  }

  /** The worker that has the creation lock can always go on: a flush can be published, a job over any
      window can write its output and publish it, and deletions and cleanups can end. */
  lemma CreatorCanStep(mode: Mode, s: State, aged: set<nat>)
    requires Inv(mode, s) && s.up
    ensures s.creator.Free? && s.imms != [] ==> Enabled(s, BeginFlush)
    ensures s.creator.Free? ==>
              forall from: nat, to: nat :: from < to <= |s.tables| ==> Enabled(s, BeginCompact(from, to))
    ensures s.creator.Flushing? ==> Enabled(s, WriteFlush)
    ensures s.creator.FlushWritten? ==> exists t :: Enabled(s, PublishFlush(t))
    ensures s.creator.Cleaning? ==> Enabled(s, EndCleanup)
    ensures s.creator.Compacting? ==> exists out :: Enabled(s, WriteCompact(aged, out))
    ensures s.creator.CompactWritten? ==> exists order :: Enabled(s, PublishCompact(order))
    ensures s.creator.Deleting? ==> Enabled(s, EndDelete)
    ensures s.creator.Deleting? ==>
              forall id :: id in s.creator.inputs && !Referenced(s.readers, id) ==> Enabled(s, DeleteInput(id))
  {
    hide OrderedOk, ExactOk, LogOk, SyncOk, TablesOk, ReadsTo, ActiveOk, NumbersOk, PublishedOk, ReadersOk, Replay,
      TableOk, Output, SortedFrom, Referenced;
    match s.creator
    case FlushWritten(_) => FlushCanPublish(s);
    case Compacting(from, to) =>
      JobCanWrite(s, from, to, aged);
    case CompactWritten(from, to, _, out) =>
      var order := SortExists(Outside(s.tables, from, to) + Listed(out));
      assert Enabled(s, PublishCompact(order));
    case _ =>
  }

  lemma FlushCanPublish(s: State)
    requires UpOk(s) && s.up && s.creator.FlushWritten?
    ensures exists t :: Enabled(s, PublishFlush(t))
  {
    hide ActiveOk, NumbersOk, PublishedOk, ReadersOk, Replay, TableOk;
    var n := |s.imms|;
    assert s.imms[n - 1] == Replay(s.hist[s.cuts[n]..s.cuts[n - 1]]);
    LastMutationStored(s.hist, s.cuts[n], s.cuts[n - 1]);
    var t := StoreOverlap.TableFor(s.creator.id, s.imms[n - 1]);
    assert Enabled(s, PublishFlush(t));
  }

  lemma JobCanWrite(s: State, from: nat, to: nat, aged: set<nat>)
    requires s.up && s.creator == Compacting(from, to) && from < to <= |s.tables|
    ensures exists out :: Enabled(s, WriteCompact(aged, out))
  {
    hide TableOk, Output;
    if Output(s.tables, from, to, aged) == map[] {
      assert Enabled(s, WriteCompact(aged, None));
    } else {
      var t := StoreOverlap.TableFor(s.nextId, Output(s.tables, from, to, aged));
      assert Enabled(s, WriteCompact(aged, Some(t)));
    }
  }

  // ----- the bound on losses is tight -----

  /** An open store that nothing but k acknowledged puts has happened to, none of them fsynced. */
  ghost predicate Pending(s: State, every: positive, k: nat) {
    && s.every == every && s.up && s.writer.Idle? && s.creator.Free? && s.cuts == [0]
    && |s.hist| == k && s.durable == 0 && s.unsynced == k && |s.segs| == 1 && |s.segs[0]| == k
  }

  lemma RunSnoc(mode: Mode, every: positive, states: seq<State>, actions: seq<Action>, a: Action)
      returns (ss: seq<State>, aa: seq<Action>)
    requires Run(mode, every, states, actions) && Allowed(mode, states[|actions|], a)
    ensures Run(mode, every, ss, aa) && ss[|aa|] == Do(states[|actions|], a) && aa == actions + [a]
    ensures ss == states + [Do(states[|actions|], a)]
  {
    var t := Do(states[|actions|], a);
    hide Allowed, Do;
    ss, aa := states + [t], actions + [a];
    forall i | 0 <= i < |aa| ensures Step(mode, ss[i], aa[i], ss[i + 1]) {
      if i < |actions| {
        assert ss[i] == states[i] && aa[i] == actions[i] && ss[i + 1] == states[i + 1];
        assert Step(mode, states[i], actions[i], states[i + 1]);
      }
    }
  }

  lemma OnePut(mode: Mode, every: positive, k: nat, states: seq<State>, actions: seq<Action>)
      returns (ss: seq<State>, aa: seq<Action>)
    requires Run(mode, every, states, actions) && Pending(states[|actions|], every, k) && k + 1 < every
    ensures Run(mode, every, ss, aa) && Pending(ss[|aa|], every, k + 1)
  {
    hide Run;
    RunLength(mode, every, states, actions);
    ss, aa := RunSnoc(mode, every, states, actions, Log(false, [0], [], false));
    ss, aa := RunSnoc(mode, every, ss, aa, Sync);
    ss, aa := RunSnoc(mode, every, ss, aa, Apply);
    ss, aa := RunSnoc(mode, every, ss, aa, Acknowledge);
  }

  lemma {:induction false} PutsPending(mode: Mode, every: positive, k: nat)
      returns (states: seq<State>, actions: seq<Action>)
    requires k < every
    ensures Run(mode, every, states, actions) && Pending(states[|actions|], every, k)
    decreases k
  {
    if k == 0 {
      states, actions := RunSnoc(mode, every, [Initial(every)], [], Open([], [0]));
    } else {
      states, actions := PutsPending(mode, every, k - 1);
      states, actions := OnePut(mode, every, k - 1, states, actions);
    }
  }

  /** For every fsync period there is a run in which a crash takes all the mutations it may take:
      every - 1 of them, all acknowledged. */
  lemma LossIsReal(mode: Mode, every: positive) returns (states: seq<State>, actions: seq<Action>)
    ensures Run(mode, every, states, actions) && |actions| > 0 && actions[|actions| - 1] == Crash(0)
    ensures Acked(states[|actions| - 1]) == every - 1 && states[|actions|].hist == []
  {
    states, actions := PutsPending(mode, every, every - 1);
    RunLength(mode, every, states, actions);
    var s := states[|actions|];
    var n := |actions|;
    hide Run;
    states, actions := RunSnoc(mode, every, states, actions, Crash(0));
    assert states[n] == s;
  }
}
