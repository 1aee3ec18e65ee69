/** The lock protocol: any number of writers, the flush worker and the compaction worker over four
    mutexes and one condition variable. */
module Locks {
  import opened Bytes

  /** What a writer does next, and so what it holds. */
  datatype Writer =
    | Resting
    | WantWrite                  // holds nothing
    | WantCapacity               // write
    | Checking                   // write, state
    | Stalled(notified: bool)    // write; waits on the condition variable
    | WantLog                    // write
    | Appending                  // write, log
    | Applying                   // write
    | WantRotate                 // write
    | Rotating                   // write, state
    | WantRoll                   // write, state
    | Rolling                    // write, state, log
    | Publishing                 // write, state
    | Leaving                    // write

  datatype Flusher =
    | FRest                      // holds nothing
    | FLooking                   // state
    | FWaiting(notified: bool)   // holds nothing; waits on the condition variable
    | FWantCreation              // holds nothing
    | FWantTarget                // creation
    | FTaking                    // creation, state
    | FWriting                   // creation
    | FWantPublish               // creation
    | FPublishing                // creation, state
    | FNotifying                 // creation
    | FWantMark                  // creation
    | FMarking                   // creation, state
    | FWantLog                   // creation
    | FCleaning                  // creation, log
    | FDone                      // creation

  datatype Compactor =
    | CSleep                     // holds nothing
    | CLooking                   // state
    | CWantCreation              // holds nothing
    | CWantTables                // creation
    | CTaking                    // creation, state
    | CMerging                   // creation
    | CWantNumber                // creation
    | CNumbering                 // creation, state
    | CWriting                   // creation
    | CWantPublish               // creation
    | CPublishing                // creation, state
    | CDeleting                  // creation

  datatype Thread = AWriter(index: nat) | TheFlusher | TheCompactor

  datatype Config = Config(maxBytes: nat, maxImms: positive, entry: positive)

  /** `writeOwner` and the others say who has each mutex. */
  datatype State = State(
    writers: seq<Writer>, flusher: Flusher, compactor: Compactor,
    writeOwner: Option<Thread>, stateOwner: Option<Thread>, creationOwner: Option<Thread>, logOwner: Option<Thread>,
    bytes: nat, imms: nat)

  datatype Step =
    | StartPut(writer: nat)
    | WriterStep(writer: nat, refused: bool, grown: nat)
    | FlushStep
    | FlushTimeout
    | FlushFails
    | CompactStep(busy: bool)

  // ----- what each thread holds -----

  predicate HasWrite(w: Writer) {
    !w.Resting? && !w.WantWrite?
  }

  predicate HasState(w: Writer) {
    w.Checking? || w.Rotating? || w.WantRoll? || w.Rolling? || w.Publishing?
  }

  predicate HasLog(w: Writer) {
    w.Appending? || w.Rolling?
  }

  predicate FlusherHasState(f: Flusher) {
    f.FLooking? || f.FTaking? || f.FPublishing? || f.FMarking?
  }

  predicate FlusherHasCreation(f: Flusher) {
    !f.FRest? && !f.FLooking? && !f.FWaiting? && !f.FWantCreation?
  }

  predicate CompactorHasState(c: Compactor) {
    c.CLooking? || c.CTaking? || c.CNumbering? || c.CPublishing?
  }

  predicate CompactorHasCreation(c: Compactor) {
    !c.CSleep? && !c.CLooking? && !c.CWantCreation?
  }

  // ----- when a thread can go on -----

  /** Only a mutex somebody else has, or the condition variable, can hold a thread up. */
  predicate WriterCanStep(s: State, w: Writer) {
    match w
    case Resting => false
    case WantWrite => s.writeOwner.None?
    case WantCapacity => s.stateOwner.None?
    case Stalled(notified) => notified && s.stateOwner.None?
    case WantLog => s.logOwner.None?
    case WantRotate => s.stateOwner.None?
    case WantRoll => s.logOwner.None?
    case _ => true
  }

  predicate FlusherCanStep(s: State) {
    match s.flusher
    case FRest => s.stateOwner.None?
    case FWaiting(notified) => notified && s.stateOwner.None?
    case FWantCreation => s.creationOwner.None?
    case FWantTarget => s.stateOwner.None?
    case FWantPublish => s.stateOwner.None?
    case FWantMark => s.stateOwner.None?
    case FWantLog => s.logOwner.None?
    case _ => true
  }

  predicate CompactorCanStep(s: State) {
    match s.compactor
    case CSleep => s.stateOwner.None?
    case CWantCreation => s.creationOwner.None?
    case CWantTables => s.stateOwner.None?
    case CWantNumber => s.stateOwner.None?
    case CWantPublish => s.stateOwner.None?
    case _ => true
  }

  predicate Enabled(c: Config, s: State, a: Step) {
    match a
    case StartPut(i) => i < |s.writers| && s.writers[i].Resting?
    case WriterStep(i, _, grown) =>
      i < |s.writers| && WriterCanStep(s, s.writers[i]) && grown <= s.bytes + c.entry
    case FlushStep => FlusherCanStep(s)
    case FlushTimeout => s.flusher.FWaiting? && s.stateOwner.None?
    case FlushFails => s.flusher.FWriting?
    case CompactStep(_) => CompactorCanStep(s)
  }

  // ----- what it does -----

  function Woken(writers: seq<Writer>): seq<Writer> {
    seq(|writers|, i requires 0 <= i < |writers| => if writers[i].Stalled? then Stalled(true) else writers[i])
  }

  function WokenFlusher(f: Flusher): Flusher {
    if f.FWaiting? then FWaiting(true) else f
  }

  function DoWriter(c: Config, s: State, i: nat, refused: bool, grown: nat): State
    requires i < |s.writers|
  {
    var me := Some(AWriter(i));
    match s.writers[i]
    case Resting => s
    case WantWrite => s.(writers := s.writers[i := WantCapacity], writeOwner := me)
    case WantCapacity => s.(writers := s.writers[i := Checking], stateOwner := me)
    case Checking =>
      if refused then s.(writers := s.writers[i := Leaving], stateOwner := None)
      else if s.bytes < c.maxBytes || s.imms < c.maxImms then s.(writers := s.writers[i := WantLog], stateOwner := None)
      else s.(writers := s.writers[i := Stalled(false)], stateOwner := None)
    case Stalled(_) => s.(writers := s.writers[i := Checking], stateOwner := me)
    case WantLog => s.(writers := s.writers[i := Appending], logOwner := me)
    case Appending => s.(writers := s.writers[i := Applying], logOwner := None)
    case Applying =>
      s.(writers := s.writers[i := if grown < c.maxBytes then Leaving else WantRotate], bytes := grown)
    case WantRotate => s.(writers := s.writers[i := Rotating], stateOwner := me)
    case Rotating =>
      if s.imms >= c.maxImms then s.(writers := s.writers[i := Leaving], stateOwner := None)
      else s.(writers := s.writers[i := WantRoll])
    case WantRoll => s.(writers := s.writers[i := Rolling], logOwner := me)
    case Rolling => s.(writers := s.writers[i := Publishing], logOwner := None)
    case Publishing =>
      s.(writers := Woken(s.writers)[i := Leaving], flusher := WokenFlusher(s.flusher), stateOwner := None,
         bytes := 0, imms := s.imms + 1)
    case Leaving => s.(writers := s.writers[i := Resting], writeOwner := None)
  }

  function DoFlush(s: State): State {
    var me := Some(TheFlusher);
    match s.flusher
    case FRest => s.(flusher := FLooking, stateOwner := me)
    case FLooking => s.(flusher := if s.imms == 0 then FWaiting(false) else FWantCreation, stateOwner := None)
    case FWaiting(_) => s.(flusher := FLooking, stateOwner := me)
    case FWantCreation => s.(flusher := FWantTarget, creationOwner := me)
    case FWantTarget => s.(flusher := FTaking, stateOwner := me)
    case FTaking => s.(flusher := if s.imms == 0 then FDone else FWriting, stateOwner := None)
    case FWriting => s.(flusher := FWantPublish)
    case FWantPublish => s.(flusher := FPublishing, stateOwner := me)
    case FPublishing => s.(flusher := FNotifying, stateOwner := None, imms := if s.imms == 0 then 0 else s.imms - 1)
    case FNotifying => s.(flusher := FWantMark, writers := Woken(s.writers))
    case FWantMark => s.(flusher := FMarking, stateOwner := me)
    case FMarking => s.(flusher := FWantLog, stateOwner := None)
    case FWantLog => s.(flusher := FCleaning, logOwner := me)
    case FCleaning => s.(flusher := FDone, logOwner := None)
    case FDone => s.(flusher := FRest, creationOwner := None)
  }

  function DoCompact(s: State, busy: bool): State {
    var me := Some(TheCompactor);
    match s.compactor
    case CSleep => s.(compactor := CLooking, stateOwner := me)
    case CLooking => s.(compactor := if busy || s.imms > 0 then CSleep else CWantCreation, stateOwner := None)
    case CWantCreation => s.(compactor := CWantTables, creationOwner := me)
    case CWantTables => s.(compactor := CTaking, stateOwner := me)
    case CTaking => s.(compactor := CMerging, stateOwner := None)
    case CMerging => s.(compactor := CWantNumber)
    case CWantNumber => s.(compactor := CNumbering, stateOwner := me)
    case CNumbering => s.(compactor := CWriting, stateOwner := None)
    case CWriting => s.(compactor := CWantPublish)
    case CWantPublish => s.(compactor := CPublishing, stateOwner := me)
    case CPublishing => s.(compactor := CDeleting, stateOwner := None)
    case CDeleting => s.(compactor := CSleep, creationOwner := None)
  }

  function Do(c: Config, s: State, a: Step): State
    requires Enabled(c, s, a)
  {
    match a
    case StartPut(i) => s.(writers := s.writers[i := WantWrite])
    case WriterStep(i, refused, grown) => DoWriter(c, s, i, refused, grown)
    case FlushStep => DoFlush(s)
    case FlushTimeout => s.(flusher := FLooking, stateOwner := Some(TheFlusher))
    case FlushFails => s.(flusher := FRest, creationOwner := None)
    case CompactStep(busy) => DoCompact(s, busy)
  }

  /** What a writer's next step depends on: a full table with no slot free stalls it, a full one with
      a slot free is rotated. */
  lemma WriterDecides(c: Config, s: State, i: nat, refused: bool, grown: nat)
    requires i < |s.writers|
    ensures var w, t := s.writers[i], DoWriter(c, s, i, refused, grown);
            && |t.writers| == |s.writers|
            && (w.Checking? ==>
                  && (t.writers[i].Leaving? <==> refused)
                  && (t.writers[i].Stalled? <==> !refused && s.bytes >= c.maxBytes && s.imms >= c.maxImms)
                  && (t.writers[i].WantLog? <==> !refused && (s.bytes < c.maxBytes || s.imms < c.maxImms)))
            && (w.Applying? ==> t.bytes == grown && (t.writers[i].WantRotate? <==> grown >= c.maxBytes))
            && (w.Rotating? ==> (t.writers[i].WantRoll? <==> s.imms < c.maxImms))
            && (w.Publishing? ==> t.bytes == 0 && t.imms == s.imms + 1)
            && (!w.Applying? && !w.Publishing? ==> t.bytes == s.bytes)
            && (!w.Publishing? ==> t.imms == s.imms)
  {
  }

  /** What the workers' steps depend on: the flusher goes on while an immutable table is pending, the
      compactor while none is and it is not busy. */
  lemma WorkersDecide(s: State, busy: bool)
    ensures var t := DoFlush(s);
            && (s.flusher.FLooking? ==> (t.flusher.FWantCreation? <==> s.imms > 0))
            && (s.flusher.FTaking? ==> (t.flusher.FWriting? <==> s.imms > 0))
            && (s.flusher.FPublishing? && s.imms > 0 ==> t.imms == s.imms - 1)
            && (!s.flusher.FPublishing? ==> t.imms == s.imms) && t.bytes == s.bytes
    ensures var t := DoCompact(s, busy);
            && (s.compactor.CLooking? ==> (t.compactor.CWantCreation? <==> !busy && s.imms == 0))
            && t.imms == s.imms && t.bytes == s.bytes
  {
  }

  // ----- the invariant -----

  /** A writer's place says exactly which mutexes it has. */
  ghost predicate WriterOwns(s: State, i: nat)
    requires i < |s.writers|
  {
    && (HasWrite(s.writers[i]) <==> s.writeOwner == Some(AWriter(i)))
    && (HasState(s.writers[i]) <==> s.stateOwner == Some(AWriter(i)))
    && (HasLog(s.writers[i]) <==> s.logOwner == Some(AWriter(i)))
  }

  ghost predicate WorkersOwn(s: State) {
    && (FlusherHasState(s.flusher) <==> s.stateOwner == Some(TheFlusher))
    && (FlusherHasCreation(s.flusher) <==> s.creationOwner == Some(TheFlusher))
    && (s.flusher.FCleaning? <==> s.logOwner == Some(TheFlusher))
    && (CompactorHasState(s.compactor) <==> s.stateOwner == Some(TheCompactor))
    && (CompactorHasCreation(s.compactor) <==> s.creationOwner == Some(TheCompactor))
    && s.logOwner != Some(TheCompactor) && s.writeOwner != Some(TheFlusher) && s.writeOwner != Some(TheCompactor)
  }

  predicate IsWriter(s: State, t: Option<Thread>) {
    t.Some? && t.value.AWriter? ==> t.value.index < |s.writers|
  }

  ghost predicate OwnersExist(s: State) {
    IsWriter(s, s.writeOwner) && IsWriter(s, s.stateOwner) && IsWriter(s, s.logOwner)
    && (s.creationOwner.Some? ==> !s.creationOwner.value.AWriter?)
  }

  /** Between seeing work and publishing it. */
  predicate HasTarget(f: Flusher) {
    f.FWantCreation? || f.FWantTarget? || f.FTaking? || f.FWriting? || f.FWantPublish? || f.FPublishing?
  }

  /** No wake-up is lost: whoever sleeps un-notified has nothing to wake for, or is about to be told. */
  ghost predicate NoLostWakeup(c: Config, s: State) {
    && (forall i :: 0 <= i < |s.writers| && s.writers[i] == Stalled(false) ==>
       s.imms >= c.maxImms || s.flusher.FNotifying?)
    && (s.flusher == FWaiting(false) ==> s.imms == 0)
    && (HasTarget(s.flusher) ==> s.imms > 0)
  }

  /** The most a table can hold between two puts: what recovery left, or one entry past the limit. */
  function Base(c: Config, recovered: nat): nat {
    var limit := if c.maxBytes == 0 then c.entry else c.maxBytes - 1 + c.entry;
    if limit > recovered then limit else recovered
  }

  /** Past the capacity check there is room for one entry, or a free slot to rotate into. */
  ghost predicate MemoryOk(c: Config, s: State, recovered: nat) {
    && s.imms <= c.maxImms
    && (s.bytes > Base(c, recovered) ==> s.bytes <= Base(c, recovered) + c.entry && s.imms < c.maxImms && Overfull(s))
    && forall i :: 0 <= i < |s.writers| ==> WriterRoom(c, s, s.writers[i])
  }

  /** Only the writer that has just applied can leave the table over the bound, and it will rotate. */
  ghost predicate Overfull(s: State) {
    s.writeOwner.Some? && s.writeOwner.value.AWriter? && s.writeOwner.value.index < |s.writers|
    && AfterApply(s.writers[s.writeOwner.value.index])
  }

  predicate AfterApply(w: Writer) {
    w.WantRotate? || w.Rotating? || w.WantRoll? || w.Rolling? || w.Publishing?
  }

  ghost predicate WriterRoom(c: Config, s: State, w: Writer) {
    && (w.WantLog? || w.Appending? || w.Applying? ==> s.bytes < c.maxBytes || s.imms < c.maxImms)
    && (w.WantRoll? || w.Rolling? || w.Publishing? ==> s.imms < c.maxImms)
  }

  ghost predicate Inv(c: Config, s: State, recovered: nat) {
    && (forall i :: 0 <= i < |s.writers| ==> WriterOwns(s, i))
    && WorkersOwn(s) && OwnersExist(s) && NoLostWakeup(c, s) && MemoryOk(c, s, recovered)
  }

  function Initial(writers: nat, recovered: nat, imms: nat): State {
    State(seq(writers, i => Resting), FRest, CSleep, None, None, None, None, recovered, imms)
  }

  lemma InitialInv(c: Config, writers: nat, recovered: nat, imms: nat)
    requires imms <= c.maxImms
    ensures Inv(c, Initial(writers, recovered, imms), recovered)
  {
  }

  // ----- every step keeps it -----

  lemma WriterKeepsOwner(c: Config, s: State, i: nat, refused: bool, grown: nat, j: nat)
    requires i < |s.writers| && j < |s.writers| && WriterOwns(s, i) && WriterOwns(s, j)
             && WriterCanStep(s, s.writers[i])
    ensures |DoWriter(c, s, i, refused, grown).writers| == |s.writers|
            && WriterOwns(DoWriter(c, s, i, refused, grown), j)
  {
  }

  lemma WriterKeepsWorkers(c: Config, s: State, i: nat, refused: bool, grown: nat)
    requires i < |s.writers| && WriterOwns(s, i) && WorkersOwn(s) && OwnersExist(s) && WriterCanStep(s, s.writers[i])
    ensures WorkersOwn(DoWriter(c, s, i, refused, grown)) && OwnersExist(DoWriter(c, s, i, refused, grown))
  {
  }

  lemma WriterKeepsOwners(c: Config, s: State, i: nat, refused: bool, grown: nat, recovered: nat)
    requires Inv(c, s, recovered) && i < |s.writers| && WriterCanStep(s, s.writers[i])
    ensures var t := DoWriter(c, s, i, refused, grown);
            (forall j :: 0 <= j < |t.writers| ==> WriterOwns(t, j)) && WorkersOwn(t) && OwnersExist(t)
  {
    hide NoLostWakeup, MemoryOk, WriterOwns, WorkersOwn, OwnersExist, WriterCanStep, DoWriter;
    WriterKeepsWorkers(c, s, i, refused, grown);
    var t := DoWriter(c, s, i, refused, grown);
    WriterKeepsOwner(c, s, i, refused, grown, i);
    forall j | 0 <= j < |t.writers| ensures WriterOwns(t, j) {
      WriterKeepsOwner(c, s, i, refused, grown, j);
    }
  }

  lemma WriterKeepsWakeups(c: Config, s: State, i: nat, refused: bool, grown: nat, recovered: nat)
    requires Inv(c, s, recovered) && i < |s.writers| && WriterCanStep(s, s.writers[i])
    ensures NoLostWakeup(c, DoWriter(c, s, i, refused, grown))
  {
    hide WorkersOwn, OwnersExist;
    var t := DoWriter(c, s, i, refused, grown);
    assert WriterOwns(s, i) && WriterRoom(c, s, s.writers[i]);
    assert WorkersOwn(s);
    forall j | 0 <= j < |t.writers| && t.writers[j] == Stalled(false)
      ensures t.imms >= c.maxImms || t.flusher.FNotifying? {
      assert WriterOwns(s, j);
    }
  }

  lemma WriterKeepsMemory(c: Config, s: State, i: nat, refused: bool, grown: nat, recovered: nat)
    requires Inv(c, s, recovered) && i < |s.writers| && WriterCanStep(s, s.writers[i]) && grown <= s.bytes + c.entry
    ensures MemoryOk(c, DoWriter(c, s, i, refused, grown), recovered)
  {
    hide WorkersOwn, OwnersExist, NoLostWakeup;
    var t := DoWriter(c, s, i, refused, grown);
    assert WriterOwns(s, i) && WriterRoom(c, s, s.writers[i]);
    forall j | 0 <= j < |t.writers| ensures WriterRoom(c, t, t.writers[j]) {
      assert WriterOwns(s, j) && WriterRoom(c, s, s.writers[j]);
    }
  }

  lemma FlushKeepsOwner(s: State, j: nat)
    requires j < |s.writers| && WriterOwns(s, j) && WorkersOwn(s) && FlusherCanStep(s)
    ensures |DoFlush(s).writers| == |s.writers| && WriterOwns(DoFlush(s), j)
  {
  }

  lemma FlushKeepsWorkers(s: State)
    requires WorkersOwn(s) && OwnersExist(s) && FlusherCanStep(s)
    ensures WorkersOwn(DoFlush(s)) && OwnersExist(DoFlush(s))
  {
  }

  lemma FlushKeepsWakeups(c: Config, s: State)
    requires NoLostWakeup(c, s) && FlusherCanStep(s)
    ensures NoLostWakeup(c, DoFlush(s))
  {
  }

  lemma FlushKeepsMemory(c: Config, s: State, recovered: nat)
    requires MemoryOk(c, s, recovered) && FlusherCanStep(s)
    ensures MemoryOk(c, DoFlush(s), recovered)
  {
    var t := DoFlush(s);
    forall j | 0 <= j < |t.writers| ensures WriterRoom(c, t, t.writers[j]) {
      assert WriterRoom(c, s, s.writers[j]);
    }
  }

  lemma FlushKeepsInv(c: Config, s: State, recovered: nat, t: State)
    requires Inv(c, s, recovered)
    requires FlusherCanStep(s) && t == DoFlush(s)
    ensures Inv(c, t, recovered)
  {
    hide NoLostWakeup, MemoryOk, WriterOwns, WorkersOwn, OwnersExist, FlusherCanStep, DoFlush;
    FlushKeepsWorkers(s);
    FlushKeepsWakeups(c, s);
    FlushKeepsMemory(c, s, recovered);
    forall j | 0 <= j < |t.writers| ensures WriterOwns(t, j) {
      FlushKeepsCount(s);
      FlushKeepsOwner(s, j);
    }
  }

  lemma FlushKeepsCount(s: State)
    ensures |DoFlush(s).writers| == |s.writers|
  {
  }

  lemma CompactKeepsOwner(s: State, busy: bool, j: nat)
    requires j < |s.writers| && WriterOwns(s, j) && WorkersOwn(s) && CompactorCanStep(s)
    ensures WriterOwns(DoCompact(s, busy), j)
  {
  }

  lemma CompactKeepsWorkers(s: State, busy: bool)
    requires WorkersOwn(s) && OwnersExist(s) && CompactorCanStep(s)
    ensures WorkersOwn(DoCompact(s, busy)) && OwnersExist(DoCompact(s, busy))
  {
  }

  /** A compaction touches neither the writers nor the memtables. */
  lemma CompactFrame(s: State, busy: bool)
    ensures var t := DoCompact(s, busy);
            t.writers == s.writers && t.flusher == s.flusher && t.bytes == s.bytes && t.imms == s.imms
            && t.writeOwner == s.writeOwner
  {
  }

  lemma CompactKeepsInv(c: Config, s: State, recovered: nat, busy: bool)
    requires Inv(c, s, recovered) && CompactorCanStep(s)
    ensures Inv(c, DoCompact(s, busy), recovered)
  {
    hide WriterOwns, WorkersOwn, OwnersExist, CompactorCanStep, DoCompact;
    CompactFrame(s, busy);
    CompactKeepsWorkers(s, busy);
    var t := DoCompact(s, busy);
    forall j | 0 <= j < |t.writers| ensures WriterOwns(t, j) && WriterRoom(c, t, t.writers[j]) {
      CompactKeepsOwner(s, busy, j);
      assert WriterRoom(c, s, s.writers[j]);
    }
  }

  lemma StartKeepsInv(c: Config, s: State, recovered: nat, i: nat)
    requires Inv(c, s, recovered) && i < |s.writers| && s.writers[i].Resting?
    ensures Inv(c, s.(writers := s.writers[i := WantWrite]), recovered)
  {
    var t := s.(writers := s.writers[i := WantWrite]);
    assert WriterOwns(s, i);
    forall j | 0 <= j < |t.writers| ensures WriterOwns(t, j) && WriterRoom(c, t, t.writers[j]) {
      assert WriterOwns(s, j) && WriterRoom(c, s, s.writers[j]);
    }
  }

  /** Every step of every thread keeps mutual exclusion, the wake-ups and the memory bound. */
  lemma StepKeepsInv(c: Config, s: State, a: Step, recovered: nat)
    requires Inv(c, s, recovered) && Enabled(c, s, a)
    ensures Inv(c, Do(c, s, a), recovered)
  {
    hide Inv, DoWriter, DoFlush, DoCompact;
    match a
    case StartPut(i) => StartKeepsInv(c, s, recovered, i);
    case WriterStep(i, refused, grown) =>
      WriterKeepsOwners(c, s, i, refused, grown, recovered);
      WriterKeepsWakeups(c, s, i, refused, grown, recovered);
      WriterKeepsMemory(c, s, i, refused, grown, recovered);
      Together(c, DoWriter(c, s, i, refused, grown), recovered);
    case FlushStep => FlushKeepsInv(c, s, recovered, DoFlush(s));
    case FlushTimeout => TimeoutKeepsInv(c, s, recovered);
    case FlushFails => FailureKeepsInv(c, s, recovered);
    case CompactStep(busy) => CompactKeepsInv(c, s, recovered, busy);
  }

  lemma Together(c: Config, s: State, recovered: nat)
    requires (forall i :: 0 <= i < |s.writers| ==> WriterOwns(s, i)) && WorkersOwn(s) && OwnersExist(s)
    requires NoLostWakeup(c, s) && MemoryOk(c, s, recovered)
    ensures Inv(c, s, recovered)
  {
  }

  lemma TimeoutKeepsInv(c: Config, s: State, recovered: nat)
    requires Inv(c, s, recovered) && s.flusher.FWaiting? && s.stateOwner.None?
    ensures Inv(c, s.(flusher := FLooking, stateOwner := Some(TheFlusher)), recovered)
  {
    var t := s.(flusher := FLooking, stateOwner := Some(TheFlusher));
    forall j | 0 <= j < |t.writers| ensures WriterOwns(t, j) && WriterRoom(c, t, t.writers[j]) {
      assert WriterOwns(s, j) && WriterRoom(c, s, s.writers[j]);
    }
  }

  lemma FailureKeepsInv(c: Config, s: State, recovered: nat)
    requires Inv(c, s, recovered) && s.flusher.FWriting?
    ensures Inv(c, s.(flusher := FRest, creationOwner := None), recovered)
  {
    var t := s.(flusher := FRest, creationOwner := None);
    forall j | 0 <= j < |t.writers| ensures WriterOwns(t, j) && WriterRoom(c, t, t.writers[j]) {
      assert WriterOwns(s, j) && WriterRoom(c, s, s.writers[j]);
    }
  }

  // ----- runs: safety -----

  ghost predicate Run(c: Config, states: seq<State>, steps: seq<Step>, recovered: nat) {
    && |states| == |steps| + 1
    && states[0] == Initial(|states[0].writers|, recovered, states[0].imms) && states[0].imms <= c.maxImms
    && forall i :: 0 <= i < |steps| ==> Enabled(c, states[i], steps[i]) && states[i + 1] == Do(c, states[i], steps[i])
  }

  lemma {:induction false} RunInv(c: Config, states: seq<State>, steps: seq<Step>, recovered: nat, i: nat)
    requires Run(c, states, steps, recovered) && i < |states|
    ensures Inv(c, states[i], recovered)
    decreases i
  {
    hide Inv, Enabled, Do, Initial;
    if i == 0 {
      InitialInv(c, |states[0].writers|, recovered, states[0].imms);
    } else {
      RunInv(c, states, steps, recovered, i - 1);
      assert states[i - 1 + 1] == Do(c, states[i - 1], steps[i - 1]);
      StepKeepsInv(c, states[i - 1], steps[i - 1], recovered);
    }
  }

  /** The memory bound, however flushes are timed: never more immutable tables than allowed, and the
      active table never past what recovery left or one entry past the limit, plus one entry. When
      recovery left it below the limit that is maxBytes - 1 + 2 * entry. */
  lemma MemoryBound(c: Config, states: seq<State>, steps: seq<Step>, recovered: nat, i: nat)
    requires Run(c, states, steps, recovered) && i < |states|
    ensures states[i].imms <= c.maxImms && states[i].bytes <= Base(c, recovered) + c.entry
    ensures recovered < c.maxBytes ==> states[i].bytes <= c.maxBytes - 1 + 2 * c.entry
  {
    hide Run, WriterOwns, WorkersOwn, OwnersExist, NoLostWakeup;
    RunInv(c, states, steps, recovered, i);
  }

  /** Each mutex has one holder, and a stalled writer holds no mutex the flush needs. */
  lemma StalledWriterBlocksNobody(c: Config, states: seq<State>, steps: seq<Step>, recovered: nat, k: nat, i: nat)
    requires Run(c, states, steps, recovered) && k < |states| && i < |states[k].writers|
             && states[k].writers[i].Stalled?
    ensures var s := states[k];
            && s.writeOwner == Some(AWriter(i)) && s.stateOwner != Some(AWriter(i))
            && s.creationOwner != Some(AWriter(i)) && s.logOwner != Some(AWriter(i))
    ensures var s := states[k]; forall j :: 0 <= j < |s.writers| && j != i ==>
            s.writers[j].Resting? || s.writers[j].WantWrite?
  {
    hide Run, NoLostWakeup, MemoryOk, WorkersOwn;
    RunInv(c, states, steps, recovered, k);
    var s := states[k];
    assert WriterOwns(s, i);
    forall j | 0 <= j < |s.writers| && j != i ensures s.writers[j].Resting? || s.writers[j].WantWrite? {
      assert WriterOwns(s, j);
    }
  }

  // ----- runs: progress -----

  /** How far a writer is from done; a rotation leaves work for the flusher. */
  function WriterRank(w: Writer): nat {
    match w
    case Resting => 0
    case WantWrite => 80
    case WantCapacity => 79
    case Checking => 77
    case Stalled(notified) => if notified then 78 else 76
    case WantLog => 75
    case Appending => 74
    case Applying => 73
    case WantRotate => 72
    case Rotating => 71
    case WantRoll => 70
    case Rolling => 69
    case Publishing => 68
    case Leaving => 1
  }

  function FlusherRank(f: Flusher): nat {
    match f
    case FWaiting(notified) => if notified then 13 else 0
    case FRest => 12
    case FLooking => 11
    case FWantCreation => 10
    case FWantTarget => 9
    case FTaking => 8
    case FWriting => 7
    case FWantPublish => 6
    case FPublishing => 5
    case FNotifying => 25
    case FWantMark => 19
    case FMarking => 18
    case FWantLog => 17
    case FCleaning => 16
    case FDone => 15
  }

  function CompactorRank(k: Compactor): nat {
    match k
    case CSleep => 0
    case CLooking => 11
    case CWantCreation => 10
    case CWantTables => 9
    case CTaking => 8
    case CMerging => 7
    case CWantNumber => 6
    case CNumbering => 5
    case CWriting => 4
    case CWantPublish => 3
    case CPublishing => 2
    case CDeleting => 1
  }

  function Sum(ws: seq<Writer>): nat {
    if ws == [] then 0 else Sum(ws[..|ws| - 1]) + WriterRank(ws[|ws| - 1])
  }

  /** What is left to do. */
  function Measure(s: State): nat {
    Sum(s.writers) + 30 * s.imms + FlusherRank(s.flusher) + CompactorRank(s.compactor)
  }

  lemma {:induction false} SumUpdate(ws: seq<Writer>, i: nat, w: Writer)
    requires i < |ws|
    ensures Sum(ws[i := w]) == Sum(ws) - WriterRank(ws[i]) + WriterRank(w)
    decreases |ws|
  {
    hide WriterRank;
    var vs := ws[i := w];
    if i == |ws| - 1 {
      assert vs[..|vs| - 1] == ws[..|ws| - 1];
    } else {
      assert vs[..|vs| - 1] == ws[..|ws| - 1][i := w];
      SumUpdate(ws[..|ws| - 1], i, w);
    }
  }

  /** At most one writer waits, so waking them all costs little. */
  lemma {:induction false} SumWoken(ws: seq<Writer>)
    requires forall i, j :: 0 <= i < j < |ws| ==> !(ws[i].Stalled? && ws[j].Stalled?)
    ensures Sum(Woken(ws)) <= Sum(ws) + 2
    ensures (forall i :: 0 <= i < |ws| ==> !ws[i].Stalled?) ==> Sum(Woken(ws)) == Sum(ws)
    decreases |ws|
  {
    if ws != [] {
      var front := ws[..|ws| - 1];
      assert Woken(ws)[..|ws| - 1] == Woken(front);
      SumWoken(front);
    }
  }

  lemma OneStalled(c: Config, s: State, recovered: nat)
    requires Inv(c, s, recovered)
    ensures forall i, j :: 0 <= i < j < |s.writers| ==> !(s.writers[i].Stalled? && s.writers[j].Stalled?)
    ensures forall i, j :: 0 <= i < |s.writers| && 0 <= j < |s.writers| && s.writers[i].Publishing? ==>
            !s.writers[j].Stalled?
  {
    forall i, j | 0 <= i < |s.writers| && 0 <= j < |s.writers| && i != j && HasWrite(s.writers[i])
      ensures !HasWrite(s.writers[j]) {
      assert WriterOwns(s, i) && WriterOwns(s, j);
    }
  }

  /** A writer that can go on gets closer to done, whatever it finds. */
  lemma WriterProgress(c: Config, s: State, i: nat, refused: bool, grown: nat, recovered: nat)
    requires Inv(c, s, recovered) && i < |s.writers| && WriterCanStep(s, s.writers[i])
    ensures Measure(DoWriter(c, s, i, refused, grown)) < Measure(s)
  {
    hide Sum, Inv;
    var t := DoWriter(c, s, i, refused, grown);
    OneStalled(c, s, recovered);
    if s.writers[i].Publishing? {
      SumWoken(s.writers);
      assert Woken(s.writers)[i] == Publishing;
      SumUpdate(Woken(s.writers), i, Leaving);
    } else {
      SumUpdate(s.writers, i, t.writers[i]);
      assert t.writers == s.writers[i := t.writers[i]];
    }
  }

  lemma FlushProgress(c: Config, s: State, recovered: nat)
    requires Inv(c, s, recovered) && FlusherCanStep(s)
             && (s.imms > 0 || FlusherHasCreation(s.flusher) || FlusherHasState(s.flusher))
    ensures Measure(DoFlush(s)) < Measure(s)
  {
    hide Sum, WriterOwns, WorkersOwn, MemoryOk, OwnersExist;
    OneStalled(c, s, recovered);
    SumWoken(s.writers);
  }

  lemma CompactProgress(s: State, busy: bool)
    requires CompactorCanStep(s) && !s.compactor.CSleep?
    ensures Measure(DoCompact(s, busy)) < Measure(s)
  {
    hide Sum;
  }

  /** Nothing is being written and nothing waits to be flushed. */
  ghost predicate Quiet(s: State) {
    s.imms == 0 && forall i :: 0 <= i < |s.writers| ==> s.writers[i].Resting?
  }

  /** A thread that can go on, and whose next step leaves less to do whatever it finds. */
  ghost predicate Helps(c: Config, s: State, t: Thread) {
    match t
    case AWriter(i) =>
      && i < |s.writers| && WriterCanStep(s, s.writers[i])
      && forall refused, grown :: Measure(DoWriter(c, s, i, refused, grown)) < Measure(s)
    case TheFlusher => FlusherCanStep(s) && Measure(DoFlush(s)) < Measure(s)
    case TheCompactor => CompactorCanStep(s) && forall busy :: Measure(DoCompact(s, busy)) < Measure(s)
  }

  lemma WriterHelps(c: Config, s: State, i: nat, recovered: nat)
    requires Inv(c, s, recovered) && i < |s.writers| && WriterCanStep(s, s.writers[i])
    ensures Helps(c, s, AWriter(i))
  {
    hide Inv, DoWriter, Measure, WriterCanStep;
    forall refused, grown ensures Measure(DoWriter(c, s, i, refused, grown)) < Measure(s) {
      WriterProgress(c, s, i, refused, grown, recovered);
    }
  }

  lemma FlusherHelps(c: Config, s: State, recovered: nat)
    requires Inv(c, s, recovered) && FlusherCanStep(s)
             && (s.imms > 0 || FlusherHasCreation(s.flusher) || FlusherHasState(s.flusher))
    ensures Helps(c, s, TheFlusher)
  {
    hide Inv, DoFlush, Measure, FlusherCanStep;
    FlushProgress(c, s, recovered);
  }

  lemma CompactorHelps(c: Config, s: State)
    requires CompactorCanStep(s) && !s.compactor.CSleep?
    ensures Helps(c, s, TheCompactor)
  {
    hide DoCompact, Measure, CompactorCanStep;
    forall busy ensures Measure(DoCompact(s, busy)) < Measure(s) {
      CompactProgress(s, busy);
    }
  }

  /** Whoever has the log mutex only has to let it go. */
  lemma LogHolderHelps(c: Config, s: State, recovered: nat)
    requires Inv(c, s, recovered) && s.logOwner.Some?
    ensures Helps(c, s, s.logOwner.value)
  {
    hide Helps, NoLostWakeup, MemoryOk;
    match s.logOwner.value
    case AWriter(i) =>
      assert WriterOwns(s, i);
      WriterHelps(c, s, i, recovered);
    case TheFlusher => FlusherHelps(c, s, recovered);
  }

  /** Whoever has the state mutex waits at most for the log mutex. */
  lemma StateHolderHelps(c: Config, s: State, recovered: nat)
    requires Inv(c, s, recovered) && s.logOwner.None? && s.stateOwner.Some?
    ensures Helps(c, s, s.stateOwner.value)
  {
    hide Helps, NoLostWakeup, MemoryOk;
    match s.stateOwner.value
    case AWriter(i) =>
      assert WriterOwns(s, i);
      WriterHelps(c, s, i, recovered);
    case TheFlusher => FlusherHelps(c, s, recovered);
    case TheCompactor => CompactorHelps(c, s);
  }

  /** Whoever has the creation mutex waits at most for those two. */
  lemma CreationHolderHelps(c: Config, s: State, recovered: nat)
    requires Inv(c, s, recovered) && s.logOwner.None? && s.stateOwner.None? && s.creationOwner.Some?
    ensures Helps(c, s, s.creationOwner.value)
  {
    hide Helps, NoLostWakeup, MemoryOk, WriterOwns;
    match s.creationOwner.value
    case TheFlusher => FlusherHelps(c, s, recovered);
    case TheCompactor => CompactorHelps(c, s);
  }

  /** With those three free, an immutable table gives the flusher something to do, awake or woken. */
  lemma FlusherIsFree(c: Config, s: State, recovered: nat)
    requires Inv(c, s, recovered) && s.logOwner.None? && s.stateOwner.None? && s.creationOwner.None? && s.imms > 0
    ensures Helps(c, s, TheFlusher)
  {
    hide Helps, MemoryOk, WriterOwns;
    FlusherHelps(c, s, recovered);
  }

  /** With those three free, the writer in charge goes on, or is stalled with work for the flusher. */
  lemma WriteHolderHelps(c: Config, s: State, recovered: nat, i: nat)
    requires Inv(c, s, recovered) && s.logOwner.None? && s.stateOwner.None? && s.creationOwner.None?
    requires s.writeOwner == Some(AWriter(i)) && s.imms == 0
    ensures Helps(c, s, AWriter(i))
  {
    hide Helps, MemoryOk;
    assert WriterOwns(s, i);
    WriterHelps(c, s, i, recovered);
  }

  /** No deadlock: as long as anything is unfinished, some thread can go on and leaves less to do. */
  lemma SomeThreadHelps(c: Config, s: State, recovered: nat) returns (t: Thread)
    requires Inv(c, s, recovered) && !Quiet(s)
    ensures Helps(c, s, t)
  {
    hide Helps, MemoryOk, NoLostWakeup;
    if s.logOwner.Some? {
      t := s.logOwner.value;
      LogHolderHelps(c, s, recovered);
    } else if s.stateOwner.Some? {
      t := s.stateOwner.value;
      StateHolderHelps(c, s, recovered);
    } else if s.creationOwner.Some? {
      t := s.creationOwner.value;
      CreationHolderHelps(c, s, recovered);
    } else if s.imms > 0 {
      t := TheFlusher;
      FlusherIsFree(c, s, recovered);
    } else if s.writeOwner.Some? {
      t := s.writeOwner.value;
      assert t.AWriter?;
      WriteHolderHelps(c, s, recovered, t.index);
    } else {
      var i :| 0 <= i < |s.writers| && !s.writers[i].Resting?;
      assert WriterOwns(s, i);
      t := AWriter(i);
      WriterHelps(c, s, i, recovered);
    }
  }

  lemma RunHasNoDeadlock(c: Config, states: seq<State>, steps: seq<Step>, recovered: nat, k: nat) returns (t: Thread)
    requires Run(c, states, steps, recovered) && k < |states| && !Quiet(states[k])
    ensures Helps(c, states[k], t)
  {
    hide Run, Helps, Inv, Quiet;
    RunInv(c, states, steps, recovered, k);
    t := SomeThreadHelps(c, states[k], recovered);
  }

  // ----- everything can finish -----

  ghost predicate Path(c: Config, s: State, states: seq<State>, steps: seq<Step>) {
    && |states| == |steps| + 1 && states[0] == s
    && forall i :: 0 <= i < |steps| ==> Enabled(c, states[i], steps[i]) && states[i + 1] == Do(c, states[i], steps[i])
  }

  function StepOf(t: Thread): Step {
    match t
    case AWriter(i) => WriterStep(i, false, 0)
    case TheFlusher => FlushStep
    case TheCompactor => CompactStep(true)
  }

  lemma HelpfulStep(c: Config, s: State, t: Thread)
    requires Helps(c, s, t)
    ensures Enabled(c, s, StepOf(t)) && Measure(Do(c, s, StepOf(t))) < Measure(s)
  {
    hide Measure, DoWriter, DoFlush, DoCompact, WriterCanStep, FlusherCanStep, CompactorCanStep;
  }

  lemma PathCons(c: Config, s: State, a: Step, states: seq<State>, steps: seq<Step>)
    requires Enabled(c, s, a) && Path(c, Do(c, s, a), states, steps)
    ensures Path(c, s, [s] + states, [a] + steps)
  {
    hide Enabled, Do;
    var ss, aa := [s] + states, [a] + steps;
    forall i | 0 <= i < |aa| ensures Enabled(c, ss[i], aa[i]) && ss[i + 1] == Do(c, ss[i], aa[i]) {
      if i > 0 {
        assert ss[i] == states[i - 1] && aa[i] == steps[i - 1] && ss[i + 1] == states[i - 1 + 1];
      }
    }
  }

  /** From every reachable state every put and every flush can be brought to its end, in no more
      steps than the measure. */
  lemma {:induction false} CanFinish(c: Config, s: State, recovered: nat) returns (states: seq<State>, steps: seq<Step>)
    requires Inv(c, s, recovered)
    ensures Path(c, s, states, steps) && Quiet(states[|steps|]) && |steps| <= Measure(s)
    decreases Measure(s)
  {
    hide Helps, Inv, Measure, Enabled, Do, Quiet;
    if Quiet(s) {
      states, steps := [s], [];
    } else {
      var t := SomeThreadHelps(c, s, recovered);
      HelpfulStep(c, s, t);
      StepKeepsInv(c, s, StepOf(t), recovered);
      states, steps := CanFinish(c, Do(c, s, StepOf(t)), recovered);
      PathCons(c, s, StepOf(t), states, steps);
      states, steps := [s] + states, [StepOf(t)] + steps;
    }
  }
}
