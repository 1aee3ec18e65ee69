/** The write-ahead log: numbered segment files, of which the last is open for appending. Each
    file remembers how many of its bytes an fsync has made safe from a crash. */
module WalLog {
  import opened Bytes
  import opened Crc32
  import opened Seqs
  import opened Memtables
  import opened WalFormat

  datatype SegmentScan = SegmentScan(records: seq<Record>, maxSeqno: nat, goodBytes: nat, clean: bool)

  datatype SegmentFile = SegmentFile(id: nat, data: bytes, durable: nat)

  datatype RecoveryReport = RecoveryReport(segments: nat, records: nat, truncated: nat, lastSeqno: nat)

  datatype WalError = StoreClosed | InvalidArgument

  datatype Result<+T> = Ok(value: T) | Err(error: WalError)

  /** The scan has read `records` and stands at `pos`. */
  ghost predicate Scanned(file: bytes, pos: nat, records: seq<Record>) {
    && HEADER_SIZE <= pos <= |file|
    && AllReadable(records)
    && pos == HEADER_SIZE + |EncodeAll(records)|
    && Records(file[HEADER_SIZE..]) == records + Records(file[pos..])
  }

  /** No record starts at `pos`. */
  ghost predicate Stops(file: bytes, pos: nat) {
    pos < |file| && First(file[pos..]) == None
  }

  lemma StopsHere(file: bytes, pos: nat)
    requires pos < |file| && First(file[pos..]) == None
    ensures Stops(file, pos)
  {
  }

  lemma ScanStart(file: bytes)
    requires HeaderOk(file)
    ensures |file| >= HEADER_SIZE && Scanned(file, HEADER_SIZE, []) && MaxSeqno([]) == 0
  {
  }

  lemma ScanStep(file: bytes, pos: nat, records: seq<Record>, r: Record, end: nat, extended: seq<Record>)
    requires Scanned(file, pos, records) && First(file[pos..]) == Some(r)
    requires end == pos + FRAME_OVERHEAD + PayloadSize(r) && extended == records + [r]
    ensures pos <= end <= |file| && Scanned(file, end, extended)
    ensures MaxSeqno(extended) == if MaxSeqno(records) < r.seqno then r.seqno else MaxSeqno(records)
  {
    hide First, Encode, EncodeAll;
    FirstIffEncoded(file[pos..], r);
    EncodeAllOne(records, r);
    assert file[pos..][|Encode(r)|..] == file[pos + |Encode(r)|..];
    assert extended[..|records|] == records;
  }

  lemma ScanEnd(file: bytes, pos: nat, records: seq<Record>)
    requires HeaderOk(file) && Scanned(file, pos, records)
    requires pos == |file| || Stops(file, pos)
    ensures records == SegmentRecords(file) && pos == GoodBytes(file) <= |file|
  {
    hide First, EncodeAll;
    if pos == |file| {
      assert file[pos..] == [];
      NothingFirst();
    }
    NothingRead(file[pos..]);
  }

  /** Read one segment record by record, stopping at the first thing that is not a record. */
  method ScanSegment(file: bytes) returns (scan: SegmentScan)
    ensures scan.records == SegmentRecords(file)
    ensures scan.maxSeqno == MaxSeqno(scan.records)
    ensures scan.goodBytes == GoodBytes(file) <= |file|
    ensures scan.clean <==> HeaderOk(file) && scan.goodBytes == |file|
  {
    if !HeaderOk(file) {
      return SegmentScan([], 0, 0, false);
    }
    hide HeaderOk;
    var records, maxSeqno, pos, clean := [], 0, HEADER_SIZE, true;
    ScanStart(file);
    hide First, Encode, EncodeAll, Accepted, Records, SegmentRecords, GoodBytes, MaxSeqno, Scanned, Stops;
    while pos < |file| && clean
      invariant pos <= |file| && Scanned(file, pos, records)
      invariant maxSeqno == MaxSeqno(records)
      invariant !clean ==> Stops(file, pos)
      decreases |file| - pos, clean
    {
      var next := ReadRecord(file, pos);
      match next {
        case None =>
          StopsHere(file, pos);
          clean := false;
        case Some(r) =>
          var end := pos + FRAME_OVERHEAD + PayloadSize(r);
          var extended := records + [r];
          ScanStep(file, pos, records, r, end, extended);
          maxSeqno := if maxSeqno < r.seqno then r.seqno else maxSeqno;
          pos, records := end, extended;
      }
    }
    ScanEnd(file, pos, records);
    scan := SegmentScan(records, maxSeqno, pos, clean);
  }

  /** The checks made on one frame: length, completeness, checksum, and its own description. */
  method ReadRecord(file: bytes, pos: nat) returns (next: Option<Record>)
    requires pos < |file|
    ensures next == First(file[pos..])
  {
    hide GetU32, GetU64, Field, Checksum, ParsePayload;
    ghost var rest := file[pos..];
    if |file| - pos < 4 {
      return None;
    }
    var payloadLen := GetU32(file[pos..pos + 4]);
    assert file[pos..pos + 4] == rest[..4];
    if payloadLen < MIN_PAYLOAD || payloadLen > MAX_PAYLOAD || |file| - pos - 4 < payloadLen + 4 {
      return None;
    }
    var payload := file[pos + 4..pos + 4 + payloadLen];
    assert payload == rest[4..4 + payloadLen];
    var crc := Compute(payload);
    assert file[pos + 4 + payloadLen..pos + 8 + payloadLen] == rest[4 + payloadLen..8 + payloadLen];
    if Field(crc) != file[pos + 4 + payloadLen..pos + 8 + payloadLen] {
      return None;
    }
    next := ParsePayload(payload);
  }

  // ----- the log as a value -----

  /** The directory, the records each file holds, and what memory knows about them. */
  datatype View = View(
    files: seq<SegmentFile>,
    contents: seq<seq<Record>>,
    maxima: map<nat, nat>,
    lastSeqno: nat,
    unsynced: nat)

  ghost predicate SegmentOk(file: SegmentFile, rs: seq<Record>, maxima: map<nat, nat>, lastSeqno: nat) {
    && Holds(file.data, rs)
    && MaxSeqno(rs) <= lastSeqno
    && if file.id in maxima then maxima[file.id] == MaxSeqno(rs) else rs == []
  }

  ghost predicate Consistent(v: View) {
    && |v.contents| == |v.files|
    && (forall i, j :: 0 <= i < j < |v.files| ==> v.files[i].id < v.files[j].id)
    && (forall i :: 0 <= i < |v.files| ==> SegmentOk(v.files[i], v.contents[i], v.maxima, v.lastSeqno))
    && (forall id :: id in v.maxima ==> |v.files| > 0 && id <= v.files[|v.files| - 1].id)
  }

  /** Closed segments are safe; the active one, the last, is safe but for its latest appends. */
  ghost predicate Synced(v: View) {
    && |v.contents| == |v.files| > 0
    && (forall i :: 0 <= i < |v.files| - 1 ==> v.files[i].durable == |v.files[i].data|)
    && SyncedFile(v.files[|v.files| - 1], v.contents[|v.contents| - 1], v.unsynced)
  }

  ghost predicate SyncedFile(file: SegmentFile, rs: seq<Record>, unsynced: nat) {
    && AllAccepted(rs) && unsynced <= |rs| && file.data != []
    && HEADER_SIZE + |EncodeAll(rs[..|rs| - unsynced])| <= file.durable <= |file.data|
  }

  /** Every record in the log, oldest first. */
  ghost function Log(v: View): seq<Record> {
    Flatten(v.contents)
  }

  /** The records that no crash can take. */
  ghost function Safe(v: View): seq<Record>
    requires |v.contents| > 0 && v.unsynced <= |v.contents[|v.contents| - 1]|
  {
    var last := v.contents[|v.contents| - 1];
    Flatten(v.contents[..|v.contents| - 1]) + last[..|last| - v.unsynced]
  }

  /** At most `unsynced` records lie beyond the last fsync, and all of them in the active segment. */
  lemma SafeBound(v: View)
    requires |v.contents| > 0 && v.unsynced <= |v.contents[|v.contents| - 1]|
    ensures Safe(v) <= Log(v) && |Log(v)| - |Safe(v)| == v.unsynced
  {
    var last := v.contents[|v.contents| - 1];
    assert last == last[..|last| - v.unsynced] + last[|last| - v.unsynced..];
    assert Log(v) == Safe(v) + last[|last| - v.unsynced..];
  }

  // ----- crashes -----

  /** What recovery reads from a directory of file images. */
  ghost function Recovered(images: seq<bytes>): seq<Record> {
    Flatten(seq(|images|, i requires 0 <= i < |images| => SegmentRecords(images[i])))
  }

  /** A crash may cut any file short, but never below what an fsync made safe. */
  ghost predicate CrashImage(files: seq<SegmentFile>, images: seq<bytes>) {
    && |images| == |files|
    && forall i :: 0 <= i < |files| ==> images[i] <= files[i].data && files[i].durable <= |images[i]|
  }

  /** Each segment's records up to the first that recovery refuses. */
  ghost function ReadableParts(contents: seq<seq<Record>>): (r: seq<seq<Record>>)
    ensures |r| == |contents| && forall i :: 0 <= i < |r| ==> r[i] == ReadablePart(contents[i])
  {
    seq(|contents|, i requires 0 <= i < |contents| => ReadablePart(contents[i]))
  }

  lemma AllReadableParts(contents: seq<seq<Record>>)
    requires forall i :: 0 <= i < |contents| ==> AllReadable(contents[i])
    ensures ReadableParts(contents) == contents
  {
    hide ReadablePart, AllReadable;
    forall i | 0 <= i < |contents| ensures ReadableParts(contents)[i] == contents[i] {
      ReadablePartIs(contents[i]);
    }
  }

  /** The safe records that recovery is willing to read. */
  ghost function SafeReadable(v: View): seq<Record>
    requires |v.contents| > 0 && v.unsynced <= |v.contents[|v.contents| - 1]|
  {
    var n := |v.contents| - 1;
    Flatten(ReadableParts(v.contents[..n])) + ReadablePart(v.contents[n][..|v.contents[n]| - v.unsynced])
  }

  /** After any crash, recovery reads a front of the readable log with every safe record in it;
      when no record is oversized, that is a front of the log with every safe record. */
  lemma CrashKeepsSafeRecords(v: View, images: seq<bytes>)
    requires Consistent(v) && Synced(v) && CrashImage(v.files, images)
    ensures SafeReadable(v) <= Recovered(images) <= Flatten(ReadableParts(v.contents))
    ensures (forall i :: 0 <= i < |v.contents| ==> AllReadable(v.contents[i])) ==>
            Safe(v) <= Recovered(images) <= Log(v)
  {
    hide EncodeAll, SegmentRecords, AllReadable, Holds, AllAccepted, MaxSeqno, ReadablePart;
    var n := |v.files| - 1;
    var read := seq(|images|, i requires 0 <= i < |images| => SegmentRecords(images[i]));
    var parts := ReadableParts(v.contents);
    forall i | 0 <= i < n ensures read[i] == parts[i] {
      assert SegmentOk(v.files[i], v.contents[i], v.maxima, v.lastSeqno);
      assert images[i] == v.files[i].data;
      WholeSegmentReads(v.files[i].data, v.contents[i]);
    }
    assert read[..n] == parts[..n] == ReadableParts(v.contents[..n]);
    assert SegmentOk(v.files[n], v.contents[n], v.maxima, v.lastSeqno);
    ActiveSegmentReads(v.files[n], v.contents[n], v.unsynced, images[n]);
    PrefixesOfLast(Flatten(parts[..n]), ReadablePart(v.contents[n][..|v.contents[n]| - v.unsynced]), read[n], parts[n]);
    if forall i :: 0 <= i < |v.contents| ==> AllReadable(v.contents[i]) {
      ReadableSafe(v);
    }
  }

  lemma ReadableSafe(v: View)
    requires |v.contents| > 0 && v.unsynced <= |v.contents[|v.contents| - 1]|
    requires forall i :: 0 <= i < |v.contents| ==> AllReadable(v.contents[i])
    ensures SafeReadable(v) == Safe(v) && Flatten(ReadableParts(v.contents)) == Log(v)
  {
    hide Flatten, ReadablePart, Readable;
    var n := |v.contents| - 1;
    AllReadableParts(v.contents);
    AllReadableParts(v.contents[..n]);
    ReadablePartIs(v.contents[n][..|v.contents[n]| - v.unsynced]);
  }

  lemma PrefixesOfLast<T>(front: seq<T>, x: seq<T>, y: seq<T>, z: seq<T>)
    requires x <= y <= z
    ensures front + x <= front + y <= front + z
  {
  }

  lemma ActiveSegmentReads(file: SegmentFile, rs: seq<Record>, unsynced: nat, image: bytes)
    requires Holds(file.data, rs) && SyncedFile(file, rs, unsynced)
    requires image <= file.data && file.durable <= |image|
    ensures ReadablePart(rs[..|rs| - unsynced]) <= SegmentRecords(image) <= ReadablePart(rs)
  {
    hide EncodeAll, SegmentRecords, Accepted, ReadablePart;
    HeldRecordsRead(file.data, rs, image, |rs| - unsynced);
  }

  lemma WholeSegmentReads(file: bytes, rs: seq<Record>)
    requires Holds(file, rs)
    ensures SegmentRecords(file) == ReadablePart(rs)
  {
    hide EncodeAll, SegmentRecords, Accepted, ReadablePart;
    assert rs[..|rs|] == rs;
    if file != [] {
      assert HEADER_SIZE + |EncodeAll(rs)| == |file|;
    }
    HeldRecordsRead(file, rs, file, |rs|);
  }

  /** A crash while a segment is being started leaves part of a header, which reads as nothing, and
      which recovery cuts to nothing unless the header is whole. */
  lemma TornHeaderReadsNothing(image: bytes)
    requires image <= HEADER
    ensures SegmentRecords(image) == []
    ensures GoodBytes(image) == if |image| < HEADER_SIZE then 0 else HEADER_SIZE
  {
    hide First;
    if |image| == HEADER_SIZE {
      assert image[HEADER_SIZE..] == [];
      NothingFirst();
      NothingRead([]);
    }
  }

  /** A crash in the middle of a roll: every segment is whole, since the old one was made safe
      first, and the next has part of a header. Nothing of the log is lost. */
  lemma TornRollReadsLog(v: View, images: seq<bytes>, torn: bytes)
    requires Consistent(v) && Synced(v) && v.unsynced == 0 && CrashImage(v.files, images) && torn <= HEADER
    requires forall i :: 0 <= i < |v.contents| ==> AllReadable(v.contents[i])
    ensures Recovered(images + [torn]) == Log(v)
  {
    hide SegmentRecords, AllReadable, Consistent, Synced, CrashImage;
    CrashKeepsSafeRecords(v, images);
    assert |v.contents| > 0 by {
      SyncedShape(v);
    }
    SafeBound(v);
    TornHeaderReadsNothing(torn);
    var read := seq(|images|, i requires 0 <= i < |images| => SegmentRecords(images[i]));
    var more := images + [torn];
    assert seq(|more|, i requires 0 <= i < |more| => SegmentRecords(more[i])) == read + [[]];
    FlattenSnoc(read, []);
  }

  lemma SyncedShape(v: View)
    requires Synced(v)
    ensures |v.contents| == |v.files| > 0 && v.unsynced <= |v.contents[|v.contents| - 1]|
  {
  }

  // ----- the operations on the value -----

  function MarkDurable(files: seq<SegmentFile>): seq<SegmentFile>
    requires |files| > 0
  {
    var n := |files| - 1;
    files[n := files[n].(durable := |files[n].data|)]
  }

  function AppendData(files: seq<SegmentFile>, data: bytes): seq<SegmentFile>
    requires |files| > 0
  {
    var n := |files| - 1;
    files[n := files[n].(data := files[n].data + data)]
  }

  function AddSegment(files: seq<SegmentFile>, id: nat): seq<SegmentFile> {
    files + [SegmentFile(id, HEADER, HEADER_SIZE)]
  }

  ghost function AppendToLast(contents: seq<seq<Record>>, r: Record): seq<seq<Record>>
    requires |contents| > 0
  {
    var n := |contents| - 1;
    contents[n := contents[n] + [r]]
  }

  /** The active segment, the last file, and its size. */
  ghost predicate Active(files: seq<SegmentFile>, id: nat, size: nat) {
    |files| > 0 && files[|files| - 1].id == id && |files[|files| - 1].data| == size
  }

  ghost function WithSync(v: View): View
    requires |v.files| > 0
  {
    v.(files := MarkDurable(v.files), unsynced := 0)
  }

  ghost function WithSegment(v: View, id: nat): View {
    v.(files := AddSegment(v.files, id), contents := v.contents + [[]])
  }

  ghost function WithRecord(v: View, r: Record): View
    requires |v.files| > 0 && |v.contents| > 0 && Accepted(r)
  {
    View(AppendData(v.files, Encode(r)), AppendToLast(v.contents, r),
         v.maxima[v.files[|v.files| - 1].id := r.seqno], r.seqno, v.unsynced + 1)
  }

  lemma FileOperations(files: seq<SegmentFile>, id: nat, size: nat, data: bytes)
    requires Active(files, id, size)
    ensures |files| > 0 && files[|files| - 1].id == id
    ensures Active(MarkDurable(files), id, size)
    ensures Active(AppendData(files, data), id, size + |data|)
    ensures forall newId :: Active(AddSegment(files, newId), newId, HEADER_SIZE)
  {
  }

  lemma RolledFiles(v: View, id: nat)
    requires |v.files| > 0
    ensures var files := WithSegment(WithSync(v), id).files;
            |files| == |v.files| + 1 && forall i :: 0 <= i < |v.files| ==> files[i].data == v.files[i].data
  {
  }

  lemma SyncKeepsConsistent(v: View)
    requires Consistent(v) && Synced(v)
    ensures Consistent(WithSync(v)) && Synced(WithSync(v))
    ensures Safe(WithSync(v)) == Log(v)
  {
    hide EncodeAll, Accepted, Holds, MaxSeqno;
    var n := |v.files| - 1;
    var w := WithSync(v);
    assert SegmentOk(v.files[n], v.contents[n], v.maxima, v.lastSeqno);
    forall i | 0 <= i < |w.files| ensures SegmentOk(w.files[i], w.contents[i], w.maxima, w.lastSeqno) {
      assert SegmentOk(v.files[i], v.contents[i], v.maxima, v.lastSeqno);
    }
    var rs := v.contents[n];
    assert rs[..|rs|] == rs;
    WholeFile(v.files[n].data, rs);
  }

  lemma ActiveIsLast(v: View, id: nat, size: nat)
    requires Consistent(v) && Active(v.files, id, size)
    ensures |v.files| == |v.contents|
    ensures forall i :: 0 <= i < |v.files| ==> SegmentOk(v.files[i], v.contents[i], v.maxima, v.lastSeqno)
    ensures forall i :: 0 <= i < |v.files| - 1 ==> v.files[i].id != id
  {
    hide SegmentOk;
  }

  lemma WholeFile(file: bytes, rs: seq<Record>)
    requires Holds(file, rs) && file != []
    ensures |file| == HEADER_SIZE + |EncodeAll(rs)|
  {
  }

  lemma SegmentKeepsConsistent(v: View, id: nat)
    requires Consistent(v) && v.unsynced == 0
    requires |v.files| > 0 ==> v.files[|v.files| - 1].id < id
    requires forall i :: 0 <= i < |v.files| ==> v.files[i].durable == |v.files[i].data|
    ensures Consistent(WithSegment(v, id)) && Synced(WithSegment(v, id))
    ensures Log(WithSegment(v, id)) == Log(v)
  {
    hide EncodeAll, Accepted, Holds, MaxSeqno, SyncedFile, Flatten, SegmentOk;
    var w := WithSegment(v, id);
    FlattenSnoc(v.contents, []);
    FreshSegment(id, w.maxima, w.lastSeqno);
    forall i | 0 <= i < |w.files| ensures SegmentOk(w.files[i], w.contents[i], w.maxima, w.lastSeqno) {
      if i < |v.files| {
        assert SegmentOk(v.files[i], v.contents[i], v.maxima, v.lastSeqno);
      }
    }
  }

  lemma RollKeepsConsistent(v: View)
    requires Consistent(v) && Synced(v)
    ensures var w := WithSegment(WithSync(v), v.files[|v.files| - 1].id + 1);
            Consistent(w) && Synced(w) && Log(w) == Log(v)
  {
    hide SegmentOk, SyncedFile, Log, Safe;
    SyncKeepsConsistent(v);
    SegmentKeepsConsistent(WithSync(v), v.files[|v.files| - 1].id + 1);
    SameContents(WithSync(v), v);
  }

  lemma SameContents(v: View, w: View)
    requires v.contents == w.contents
    ensures Log(v) == Log(w)
  {
  }

  lemma FreshSegment(id: nat, maxima: map<nat, nat>, lastSeqno: nat)
    requires id !in maxima
    ensures SegmentOk(SegmentFile(id, HEADER, HEADER_SIZE), [], maxima, lastSeqno)
    ensures SyncedFile(SegmentFile(id, HEADER, HEADER_SIZE), [], 0)
  {
    assert HEADER[HEADER_SIZE..] == [];
  }

  lemma RecordKeepsConsistent(v: View, r: Record)
    requires Consistent(v) && Synced(v) && Accepted(r) && r.seqno > v.lastSeqno
    ensures |v.files| > 0 && |v.contents| > 0
    ensures Consistent(WithRecord(v, r)) && Synced(WithRecord(v, r))
    ensures Log(WithRecord(v, r)) == Log(v) + [r] && Safe(WithRecord(v, r)) == Safe(v)
  {
    hide Encode, EncodeAll, Accepted, Holds, AllAccepted, MaxSeqno, SyncedFile;
    var n := |v.files| - 1;
    var w := WithRecord(v, r);
    assert SegmentOk(v.files[n], v.contents[n], v.maxima, v.lastSeqno);
    RecordExtends(v.files[n], v.contents[n], v.unsynced, r, v.lastSeqno);
    forall i | 0 <= i < |w.files| ensures SegmentOk(w.files[i], w.contents[i], w.maxima, w.lastSeqno) {
      assert SegmentOk(v.files[i], v.contents[i], v.maxima, v.lastSeqno);
    }
    assert w.contents[..n] == v.contents[..n];
  }

  lemma RecordExtends(file: SegmentFile, rs: seq<Record>, unsynced: nat, r: Record, lastSeqno: nat)
    requires Holds(file.data, rs) && SyncedFile(file, rs, unsynced) && Accepted(r)
    requires MaxSeqno(rs) <= lastSeqno < r.seqno
    ensures Holds(file.data + Encode(r), rs + [r]) && MaxSeqno(rs + [r]) == r.seqno
    ensures SyncedFile(file.(data := file.data + Encode(r)), rs + [r], unsynced + 1)
    ensures unsynced <= |rs| && (rs + [r])[..|rs + [r]| - (unsynced + 1)] == rs[..|rs| - unsynced]
  {
    hide Encode, EncodeAll, Accepted;
    EncodeAllOne(rs, r);
    assert (file.data + Encode(r))[HEADER_SIZE..] == file.data[HEADER_SIZE..] + Encode(r);
    assert (file.data + Encode(r))[..4] == file.data[..4];
    assert (rs + [r])[..|rs|] == rs;
    assert (rs + [r])[..|rs| - unsynced] == rs[..|rs| - unsynced];
  }

  // ----- watermark cleanup -----

  /** The segment may be deleted: it is closed, its maximum is known, and the tables cover it. */
  predicate Covered(file: SegmentFile, maxima: map<nat, nat>, activeId: nat, watermark: nat) {
    file.id != activeId && file.id in maxima && maxima[file.id] <= watermark
  }

  function KeptFiles(files: seq<SegmentFile>, maxima: map<nat, nat>, activeId: nat, watermark: nat): seq<SegmentFile> {
    if files == [] then []
    else
      var last := files[|files| - 1];
      KeptFiles(files[..|files| - 1], maxima, activeId, watermark)
      + if Covered(last, maxima, activeId, watermark) then [] else [last]
  }

  /** What stays: the active segment, those whose maximum is not known, and those with a record above
      the watermark. */
  lemma {:induction false} KeptIs(files: seq<SegmentFile>, maxima: map<nat, nat>, activeId: nat, watermark: nat)
    ensures forall f :: f in KeptFiles(files, maxima, activeId, watermark)
              <==> f in files && (f.id == activeId || f.id !in maxima || maxima[f.id] > watermark)
    decreases |files|
  {
    if files != [] {
      var n := |files| - 1;
      KeptIs(files[..n], maxima, activeId, watermark);
      assert files == files[..n] + [files[n]];
    }
  }

  ghost function KeptContents(files: seq<SegmentFile>, contents: seq<seq<Record>>, maxima: map<nat, nat>,
                              activeId: nat, watermark: nat): (kept: seq<seq<Record>>)
    requires |files| == |contents|
    ensures |kept| == |KeptFiles(files, maxima, activeId, watermark)|
  {
    if files == [] then []
    else
      var n := |files| - 1;
      KeptContents(files[..n], contents[..n], maxima, activeId, watermark)
      + if Covered(files[n], maxima, activeId, watermark) then [] else [contents[n]]
  }

  ghost function WithoutSegment(v: View, k: nat): View
    requires k < |v.files| == |v.contents|
  {
    v.(files := v.files[..k] + v.files[k + 1..], contents := v.contents[..k] + v.contents[k + 1..],
       maxima := v.maxima - {v.files[k].id})
  }

  lemma RemovalKeepsConsistent(v: View, k: nat)
    requires Consistent(v) && Synced(v) && k < |v.files| - 1
    ensures Consistent(WithoutSegment(v, k)) && Synced(WithoutSegment(v, k))
    ensures |WithoutSegment(v, k).files| > 0
    ensures WithoutSegment(v, k).files[|WithoutSegment(v, k).files| - 1] == v.files[|v.files| - 1]
  {
    hide SegmentOk, SyncedFile;
    var w := WithoutSegment(v, k);
    forall i | 0 <= i < |w.files| ensures SegmentOk(w.files[i], w.contents[i], w.maxima, w.lastSeqno) {
      var j := if i < k then i else i + 1;
      assert w.files[i] == v.files[j] && w.contents[i] == v.contents[j];
      assert v.files[j].id != v.files[k].id;
      KnowsLess(v.files[j], v.contents[j], v.maxima, v.files[k].id, v.lastSeqno);
    }
    assert w.files[|w.files| - 1] == v.files[|v.files| - 1];
  }

  lemma KnowsLess(file: SegmentFile, rs: seq<Record>, maxima: map<nat, nat>, id: nat, lastSeqno: nat)
    requires SegmentOk(file, rs, maxima, lastSeqno) && file.id != id
    ensures SegmentOk(file, rs, maxima - {id}, lastSeqno)
  {
  }

  ghost function DroppedIds(files: seq<SegmentFile>, maxima: map<nat, nat>, activeId: nat, watermark: nat): set<nat> {
    if files == [] then {}
    else
      var last := files[|files| - 1];
      DroppedIds(files[..|files| - 1], maxima, activeId, watermark)
      + if Covered(last, maxima, activeId, watermark) then {last.id} else {}
  }

  lemma NothingDropped(maxima: map<nat, nat>, activeId: nat, watermark: nat)
    ensures DroppedIds([], maxima, activeId, watermark) == {}
  {
  }

  /** Cleanup has considered the first n files. */
  ghost function Cleaned(v: View, n: nat, activeId: nat, watermark: nat): View
    requires n <= |v.files| == |v.contents|
  {
    View(KeptFiles(v.files[..n], v.maxima, activeId, watermark) + v.files[n..],
         KeptContents(v.files[..n], v.contents[..n], v.maxima, activeId, watermark) + v.contents[n..],
         v.maxima - DroppedIds(v.files[..n], v.maxima, activeId, watermark), v.lastSeqno, v.unsynced)
  }

  lemma {:induction false} DroppedIdsAreEarlier(files: seq<SegmentFile>, maxima: map<nat, nat>, activeId: nat,
                                                watermark: nat)
    ensures forall id :: id in DroppedIds(files, maxima, activeId, watermark) ==>
              exists i :: 0 <= i < |files| && files[i].id == id
    decreases |files|
  {
    if files != [] {
      var n := |files| - 1;
      DroppedIdsAreEarlier(files[..n], maxima, activeId, watermark);
      assert forall i :: 0 <= i < n ==> files[..n][i] == files[i];
    }
  }

  lemma DropMiddle<T>(front: seq<T>, back: seq<T>)
    requires back != []
    ensures var all := front + back;
            all[|front|] == back[0] && all[..|front|] + all[|front| + 1..] == front + back[1..]
    ensures front + [back[0]] + back[1..] == front + back && front + [] == front
  {
    var all := front + back;
    assert all[..|front|] == front && all[|front| + 1..] == back[1..];
  }

  lemma KeptOneMore(v: View, n: nat, activeId: nat, watermark: nat)
    requires n < |v.files| == |v.contents|
    ensures var covered := Covered(v.files[n], v.maxima, activeId, watermark);
            && KeptFiles(v.files[..n + 1], v.maxima, activeId, watermark)
               == KeptFiles(v.files[..n], v.maxima, activeId, watermark) + (if covered then [] else [v.files[n]])
            && KeptContents(v.files[..n + 1], v.contents[..n + 1], v.maxima, activeId, watermark)
               == KeptContents(v.files[..n], v.contents[..n], v.maxima, activeId, watermark)
                  + (if covered then [] else [v.contents[n]])
            && DroppedIds(v.files[..n + 1], v.maxima, activeId, watermark)
               == DroppedIds(v.files[..n], v.maxima, activeId, watermark) + (if covered then {v.files[n].id} else {})
  {
    assert v.files[..n + 1][..n] == v.files[..n] && v.contents[..n + 1][..n] == v.contents[..n];
  }

  lemma CleanPosition(v: View, n: nat, activeId: nat, watermark: nat)
    requires Consistent(v) && n < |v.files|
    ensures var w := Cleaned(v, n, activeId, watermark);
            var k := |KeptFiles(v.files[..n], v.maxima, activeId, watermark)|;
            && k < |w.files| == |w.contents| && w.files[k] == v.files[n]
            && (Covered(v.files[n], v.maxima, activeId, watermark)
                == Covered(v.files[n], w.maxima, activeId, watermark))
            && w.files[|w.files| - 1] == v.files[|v.files| - 1]
            && (k == |w.files| - 1 <==> n == |v.files| - 1)
  {
    hide SegmentOk, KeptFiles, KeptContents, DroppedIds;
    var f := v.files[..n];
    DroppedIdsAreEarlier(f, v.maxima, activeId, watermark);
    assert v.files[n].id !in DroppedIds(f, v.maxima, activeId, watermark);
    assert v.files[n..][0] == v.files[n];
  }

  lemma CleanOneMore(v: View, n: nat, activeId: nat, watermark: nat)
    requires n < |v.files| == |v.contents|
    ensures var w := Cleaned(v, n, activeId, watermark);
            var k := |KeptFiles(v.files[..n], v.maxima, activeId, watermark)|;
            && k < |w.files| == |w.contents|
            && if Covered(v.files[n], v.maxima, activeId, watermark)
               then w.files[k] == v.files[n] && Cleaned(v, n + 1, activeId, watermark) == WithoutSegment(w, k)
                    && |KeptFiles(v.files[..n + 1], v.maxima, activeId, watermark)| == k
               else Cleaned(v, n + 1, activeId, watermark) == w
                    && |KeptFiles(v.files[..n + 1], v.maxima, activeId, watermark)| == k + 1
  {
    hide KeptFiles, KeptContents, DroppedIds, Covered;
    KeptOneMore(v, n, activeId, watermark);
    var f := v.files[..n];
    DropMiddle(KeptFiles(f, v.maxima, activeId, watermark), v.files[n..]);
    DropMiddle(KeptContents(f, v.contents[..n], v.maxima, activeId, watermark), v.contents[n..]);
    assert v.files[n..][1..] == v.files[n + 1..] && v.contents[n..][1..] == v.contents[n + 1..];
    var dropped := DroppedIds(f, v.maxima, activeId, watermark);
    assert v.maxima - dropped - {v.files[n].id} == v.maxima - (dropped + {v.files[n].id});
    assert dropped + {} == dropped;
  }

  lemma NothingCleaned(v: View, activeId: nat, watermark: nat)
    requires Consistent(v)
    ensures |v.files| == |v.contents| && Cleaned(v, 0, activeId, watermark) == v
    ensures KeptFiles(v.files[..0], v.maxima, activeId, watermark) == []
  {
    hide SegmentOk;
    assert v.files[..0] == [] && v.contents[..0] == [];
    assert v.files[0..] == v.files && v.contents[0..] == v.contents;
    assert v.maxima - {} == v.maxima;
  }

  lemma AllCleaned(v: View, activeId: nat, watermark: nat)
    requires |v.files| == |v.contents|
    ensures Cleaned(v, |v.files|, activeId, watermark).files == KeptFiles(v.files, v.maxima, activeId, watermark)
    ensures Cleaned(v, |v.files|, activeId, watermark).contents
            == KeptContents(v.files, v.contents, v.maxima, activeId, watermark)
  {
    assert v.files[..|v.files|] == v.files && v.contents[..|v.files|] == v.contents;
  }

  lemma SameLengths(v: View)
    requires Consistent(v)
    ensures |v.files| == |v.contents|
  {
  }

  lemma DeletionKeepsReady(v: View, n: nat, activeId: nat, size: nat, watermark: nat)
    requires Consistent(v) && n < |v.files| && Active(v.files, activeId, size)
    requires Covered(v.files[n], v.maxima, activeId, watermark)
    requires Consistent(Cleaned(v, n, activeId, watermark)) && Synced(Cleaned(v, n, activeId, watermark))
    requires Active(Cleaned(v, n, activeId, watermark).files, activeId, size)
    ensures var w := Cleaned(v, n, activeId, watermark);
            var k := |KeptFiles(v.files[..n], v.maxima, activeId, watermark)|;
            && k < |w.files| == |w.contents| && w.files[k] == v.files[n]
            && Consistent(WithoutSegment(w, k)) && Synced(WithoutSegment(w, k))
            && Active(WithoutSegment(w, k).files, activeId, size)
            && Cleaned(v, n + 1, activeId, watermark) == WithoutSegment(w, k)
            && |KeptFiles(v.files[..n + 1], v.maxima, activeId, watermark)| == k
  {
    hide Consistent, Synced, KeptFiles, KeptContents, DroppedIds, Cleaned, WithoutSegment;
    SameLengths(v);
    CleanPosition(v, n, activeId, watermark);
    CleanOneMore(v, n, activeId, watermark);
    var w := Cleaned(v, n, activeId, watermark);
    var k := |KeptFiles(v.files[..n], v.maxima, activeId, watermark)|;
    assert n < |v.files| - 1 by {
      assert v.files[n].id != activeId;
    }
    RemovalKeepsConsistent(w, k);
  }

  /** The sequence numbers of a log rise from record to record. */
  ghost predicate Rising(rs: seq<Record>) {
    forall i, j :: 0 <= i < j < |rs| ==> rs[i].seqno < rs[j].seqno
  }

  lemma {:induction false} MaxSeqnoBounds(rs: seq<Record>)
    ensures forall i :: 0 <= i < |rs| ==> rs[i].seqno <= MaxSeqno(rs)
    ensures rs != [] && Rising(rs) ==> MaxSeqno(rs) == rs[|rs| - 1].seqno
    decreases |rs|
  {
    if rs != [] {
      var front := rs[..|rs| - 1];
      MaxSeqnoBounds(front);
      assert forall i :: 0 <= i < |front| ==> rs[i] == front[i];
      assert Rising(rs) ==> Rising(front);
    }
  }

  predicate Above(rs: seq<Record>, watermark: nat) {
    exists i :: 0 <= i < |rs| && rs[i].seqno > watermark
  }

  lemma RisingAcross(front: seq<Record>, last: seq<Record>, i: nat)
    requires Rising(front + last) && i < |front| && last != []
    ensures front[i].seqno < last[0].seqno
  {
    assert (front + last)[i] == front[i] && (front + last)[|front|] == last[0];
  }

  lemma NothingCoveredAfter(front: seq<Record>, last: seq<Record>, watermark: nat)
    requires Rising(front + last) && Above(front, watermark) && MaxSeqno(last) <= watermark
    ensures last == []
  {
    hide Rising;
    if last != [] {
      var i :| 0 <= i < |front| && front[i].seqno > watermark;
      RisingAcross(front, last, i);
      MaxSeqnoBounds(last);
    }
  }

  lemma RisingParts(front: seq<Record>, last: seq<Record>)
    requires Rising(front + last)
    ensures Rising(front) && Rising(last)
  {
    assert forall i :: 0 <= i < |front| ==> (front + last)[i] == front[i];
    assert forall i :: 0 <= i < |last| ==> (front + last)[|front| + i] == last[i];
  }

  lemma AboveAppend(front: seq<Record>, last: seq<Record>, watermark: nat)
    requires Above(front, watermark) || Above(last, watermark)
    ensures Above(front + last, watermark)
  {
    if Above(front, watermark) {
      var i :| 0 <= i < |front| && front[i].seqno > watermark;
      assert (front + last)[i].seqno > watermark;
    } else {
      var i :| 0 <= i < |last| && last[i].seqno > watermark;
      assert (front + last)[|front| + i].seqno > watermark;
    }
  }

  /** Cleanup deletes a prefix of the log, all of it at or below the watermark. */
  lemma {:induction false} CleanupKeepsSuffix(files: seq<SegmentFile>, contents: seq<seq<Record>>,
                                              maxima: map<nat, nat>,
                                              lastSeqno: nat, activeId: nat, watermark: nat)
      returns (dropped: seq<Record>)
    requires |files| == |contents| && Rising(Flatten(contents))
    requires forall i :: 0 <= i < |files| ==> SegmentOk(files[i], contents[i], maxima, lastSeqno)
    requires forall i :: 0 <= i < |files| - 1 ==> files[i].id != activeId
    ensures Flatten(contents) == dropped + Flatten(KeptContents(files, contents, maxima, activeId, watermark))
    ensures MaxSeqno(dropped) <= watermark
    ensures Above(Flatten(contents), watermark)
            || (|files| > 0 && files[|files| - 1].id == activeId)
            || Flatten(KeptContents(files, contents, maxima, activeId, watermark)) == []
    decreases |files|
  {
    hide Holds, Rising, Above, MaxSeqno, SegmentOk, Covered, KeptContents, KeptFiles;
    KeptUnfold(files, contents, maxima, activeId, watermark);
    if files == [] {
      dropped := [];
      NoRecordsNoMaximum();
    } else {
      var n := |files| - 1;
      var front, last := contents[..n], contents[n];
      RisingParts(Flatten(front), last);
      dropped := CleanupKeepsSuffix(files[..n], front, maxima, lastSeqno, activeId, watermark);
      var kept := KeptContents(files[..n], front, maxima, activeId, watermark);
      var after := KeptContents(files, contents, maxima, activeId, watermark);
      CoveredMeaning(files[n], last, maxima, lastSeqno, activeId, watermark);
      if Covered(files[n], maxima, activeId, watermark) {
        assert kept + [] == kept;
        if Flatten(kept) != [] {
          NothingCoveredAfter(Flatten(front), last, watermark);
          assert Flatten(front) + [] == Flatten(front);
        } else {
          MaxSeqnoAppend(dropped, last);
          dropped := dropped + last;
        }
        if Above(Flatten(front), watermark) {
          AboveAppend(Flatten(front), last, watermark);
        }
      } else {
        FlattenSnoc(kept, last);
        if last != [] && files[n].id != activeId {
          LargestIsAbove(last, watermark);
          AboveAppend(Flatten(front), last, watermark);
        } else if Above(Flatten(front), watermark) {
          AboveAppend(Flatten(front), last, watermark);
        }
      }
    }
  }

  lemma CoveredMeaning(file: SegmentFile, rs: seq<Record>, maxima: map<nat, nat>, lastSeqno: nat,
                       activeId: nat, watermark: nat)
    requires SegmentOk(file, rs, maxima, lastSeqno)
    ensures Covered(file, maxima, activeId, watermark) ==> MaxSeqno(rs) <= watermark && file.id != activeId
    ensures !Covered(file, maxima, activeId, watermark) && file.id != activeId && rs != [] ==> MaxSeqno(rs) > watermark
  {
    hide Holds;
  }

  lemma KeptUnfold(files: seq<SegmentFile>, contents: seq<seq<Record>>, maxima: map<nat, nat>,
                   activeId: nat, watermark: nat)
    requires |files| == |contents|
    ensures files == [] ==> KeptContents(files, contents, maxima, activeId, watermark) == []
    ensures files != [] ==> var n := |files| - 1;
              KeptContents(files, contents, maxima, activeId, watermark)
              == KeptContents(files[..n], contents[..n], maxima, activeId, watermark)
                 + if Covered(files[n], maxima, activeId, watermark) then [] else [contents[n]]
  {
  }

  lemma NoRecordsNoMaximum()
    ensures MaxSeqno([]) == 0
  {
  }

  lemma LargestIsAbove(rs: seq<Record>, watermark: nat)
    requires rs != [] && Rising(rs) && MaxSeqno(rs) > watermark
    ensures Above(rs, watermark)
  {
    MaxSeqnoBounds(rs);
    assert rs[|rs| - 1].seqno > watermark;
  }

  // ----- recovery -----

  /** A scanned segment, cut at its last good byte; what survived to be read counts as safe. */
  function Repaired(file: SegmentFile): SegmentFile {
    TruncationKeepsRecords(file.data);
    var good := file.data[..GoodBytes(file.data)];
    SegmentFile(file.id, good, |good|)
  }

  function RepairedAll(files: seq<SegmentFile>): (r: seq<SegmentFile>)
    ensures |r| == |files|
    ensures forall i :: 0 <= i < |files| ==> r[i] == Repaired(files[i])
  {
    seq(|files|, i requires 0 <= i < |files| => Repaired(files[i]))
  }

  ghost function ReadContents(files: seq<SegmentFile>): (r: seq<seq<Record>>)
    ensures |r| == |files|
    ensures forall i :: 0 <= i < |files| ==> r[i] == SegmentRecords(files[i].data)
  {
    seq(|files|, i requires 0 <= i < |files| => SegmentRecords(files[i].data))
  }

  /** How many segments a scan has to cut. */
  ghost function Unclean(files: seq<SegmentFile>): nat {
    if files == [] then 0
    else
      var last := files[|files| - 1].data;
      Unclean(files[..|files| - 1]) + if HeaderOk(last) && GoodBytes(last) == |last| then 0 else 1
  }

  lemma UncleanOneMore(files: seq<SegmentFile>, i: nat, scan: SegmentScan)
    requires i < |files| && (scan.clean <==> HeaderOk(files[i].data) && GoodBytes(files[i].data) == |files[i].data|)
    ensures Unclean(files[..i + 1]) == Unclean(files[..i]) + if scan.clean then 0 else 1
  {
    hide HeaderOk, GoodBytes;
    assert files[..i + 1][..i] == files[..i];
  }

  ghost predicate Increasing(files: seq<SegmentFile>) {
    forall i, j :: 0 <= i < j < |files| ==> files[i].id < files[j].id
  }

  /** A new scan reads each segment up to its first oversized record; after a torn tail was cut off
      and more was appended it reads the whole log exactly when no record is oversized. */
  lemma RescanReadsLog(v: View)
    requires Consistent(v)
    ensures Increasing(v.files) && ReadContents(v.files) == ReadableParts(v.contents)
    ensures Flatten(ReadContents(v.files)) == Log(v) <==> forall i :: 0 <= i < |v.contents| ==>
            AllReadable(v.contents[i])
  {
    hide AllReadable, Holds, SegmentRecords, MaxSeqno, ReadablePart;
    forall i | 0 <= i < |v.files| ensures SegmentRecords(v.files[i].data) == ReadablePart(v.contents[i]) {
      assert SegmentOk(v.files[i], v.contents[i], v.maxima, v.lastSeqno);
      WholeSegmentReads(v.files[i].data, v.contents[i]);
    }
    assert ReadContents(v.files) == ReadableParts(v.contents);
    forall i | 0 <= i < |v.contents|
      ensures ReadablePart(v.contents[i]) <= v.contents[i]
      ensures ReadablePart(v.contents[i]) == v.contents[i] <==> AllReadable(v.contents[i])
    {
      ReadablePartIs(v.contents[i]);
    }
    ShorterParts(ReadableParts(v.contents), v.contents);
    if forall i :: 0 <= i < |v.contents| ==> AllReadable(v.contents[i]) {
      AllReadableParts(v.contents);
    }
  }

  /** Fronts of segments add up to as much as the segments only if they are the segments. */
  lemma {:induction false} ShorterParts<T>(parts: seq<seq<T>>, whole: seq<seq<T>>)
    requires |parts| == |whole| && forall i :: 0 <= i < |parts| ==> parts[i] <= whole[i]
    ensures |Flatten(parts)| <= |Flatten(whole)|
    ensures |Flatten(parts)| == |Flatten(whole)| ==> forall i :: 0 <= i < |parts| ==> parts[i] == whole[i]
    decreases |parts|
  {
    if parts != [] {
      var n := |parts| - 1;
      ShorterParts(parts[..n], whole[..n]);
      if |Flatten(parts)| == |Flatten(whole)| {
        forall i | 0 <= i < |parts| ensures parts[i] == whole[i] {
          assert i < n ==> parts[..n][i] == whole[..n][i];
        }
      }
    }
  }

  lemma NextFile(files: seq<SegmentFile>, i: nat)
    requires Increasing(files) && i < |files|
    ensures files[..i + 1] == files[..i] + [files[i]]
    ensures forall f :: f in files[..i] ==> f.id < files[i].id
  {
  }

  /** The state after scanning `files`: repaired on disk, every maximum known, all of it safe. */
  ghost predicate ScannedAll(v: View, files: seq<SegmentFile>) {
    && v.files == RepairedAll(files)
    && v.contents == ReadContents(files)
    && v.unsynced == 0
    && v.lastSeqno == MaxSeqno(Log(v))
  }

  lemma OneMoreFile(files: seq<SegmentFile>, file: SegmentFile)
    ensures RepairedAll(files + [file]) == RepairedAll(files) + [Repaired(file)]
    ensures ReadContents(files + [file]) == ReadContents(files) + [SegmentRecords(file.data)]
  {
    hide SegmentRecords, Repaired;
  }

  ghost function NextScan(v: View, file: SegmentFile): View {
    var rs := SegmentRecords(file.data);
    View(v.files + [Repaired(file)], v.contents + [rs], v.maxima[file.id := MaxSeqno(rs)],
         if v.lastSeqno < MaxSeqno(rs) then MaxSeqno(rs) else v.lastSeqno, 0)
  }

  lemma ScanOneMore(v: View, files: seq<SegmentFile>, file: SegmentFile)
    requires Consistent(v) && ScannedAll(v, files)
    requires forall f :: f in files ==> f.id < file.id
    ensures Consistent(NextScan(v, file)) && ScannedAll(NextScan(v, file), files + [file])
    ensures Log(NextScan(v, file)) == Log(v) + SegmentRecords(file.data)
  {
    hide SegmentRecords, MaxSeqno, Repaired, SegmentOk, GoodBytes, RepairedAll, ReadContents, Flatten;
    OneMoreFile(files, file);
    var rs := SegmentRecords(file.data);
    var w := NextScan(v, file);
    FlattenSnoc(v.contents, rs);
    MaxSeqnoAppend(Log(v), rs);
    RepairedSegmentOk(file, w.maxima, w.lastSeqno);
    forall i | 0 <= i < |v.files| ensures v.files[i].id < file.id {
      assert files[i] in files;
      RepairedId(files[i]);
    }
    RepairedId(file);
    forall i | 0 <= i < |w.files| ensures SegmentOk(w.files[i], w.contents[i], w.maxima, w.lastSeqno) {
      if i < |v.files| {
        assert SegmentOk(v.files[i], v.contents[i], v.maxima, v.lastSeqno);
        KnowsMore(v.files[i], v.contents[i], v.maxima, v.lastSeqno, file.id, MaxSeqno(rs), w.lastSeqno);
      }
    }
  }

  lemma NothingScanned()
    ensures var v := View([], [], map[], 0, 0);
            Consistent(v) && ScannedAll(v, []) && Log(v) == [] && Unclean([]) == 0
  {
  }

  lemma RepairedByScan(v: View, file: SegmentFile, scan: SegmentScan)
    requires scan.goodBytes == GoodBytes(file.data) <= |file.data|
    requires scan.records == SegmentRecords(file.data) && scan.maxSeqno == MaxSeqno(scan.records)
    ensures var w := NextScan(v, file);
            && w.files == v.files + [SegmentFile(file.id, file.data[..scan.goodBytes], scan.goodBytes)]
            && w.maxima == v.maxima[file.id := scan.maxSeqno]
            && w.lastSeqno == if v.lastSeqno < scan.maxSeqno then scan.maxSeqno else v.lastSeqno
  {
    hide SegmentRecords, MaxSeqno;
  }

  lemma RepairedId(file: SegmentFile)
    ensures Repaired(file).id == file.id && Repaired(file).durable == |Repaired(file).data|
  {
  }

  lemma KnowsMore(file: SegmentFile, rs: seq<Record>, maxima: map<nat, nat>, lastSeqno: nat, id: nat, m: nat,
                  later: nat)
    requires SegmentOk(file, rs, maxima, lastSeqno) && file.id != id && lastSeqno <= later
    ensures SegmentOk(file, rs, maxima[id := m], later)
  {
  }

  lemma RepairedSegmentOk(file: SegmentFile, maxima: map<nat, nat>, lastSeqno: nat)
    requires file.id in maxima && maxima[file.id] == MaxSeqno(SegmentRecords(file.data)) <= lastSeqno
    ensures SegmentOk(Repaired(file), SegmentRecords(file.data), maxima, lastSeqno)
  {
    hide SegmentRecords;
    TruncationKeepsRecords(file.data);
  }

  /** The newest segment, once it has a header, can be appended to. */
  lemma ReadyAfterScan(v: View)
    requires Consistent(v) && v.unsynced == 0 && |v.files| > 0 && v.files[|v.files| - 1].data != []
    requires forall i :: 0 <= i < |v.files| ==> v.files[i].durable == |v.files[i].data|
    ensures Synced(v)
  {
    hide EncodeAll, Accepted;
    var n := |v.files| - 1;
    assert SegmentOk(v.files[n], v.contents[n], v.maxima, v.lastSeqno);
    var rs := v.contents[n];
    assert rs[..|rs|] == rs;
    WholeFile(v.files[n].data, rs);
  }

  /** A newest segment too short for a header, which is then empty, gets its header back. */
  function WithHeader(files: seq<SegmentFile>): seq<SegmentFile>
    requires |files| > 0
  {
    var n := |files| - 1;
    if |files[n].data| < HEADER_SIZE
    then files[n := SegmentFile(files[n].id, files[n].data + HEADER, |files[n].data + HEADER|)]
    else files
  }

  lemma HeaderKeepsCount(files: seq<SegmentFile>)
    requires |files| > 0
    ensures |WithHeader(files)| == |files|
  {
  }

  lemma HeaderRestored(v: View)
    requires Consistent(v) && |v.files| > 0
    ensures Consistent(v.(files := WithHeader(v.files)))
    ensures WithHeader(v.files)[|v.files| - 1].data != []
  {
    hide EncodeAll;
    var n := |v.files| - 1;
    var w := v.(files := WithHeader(v.files));
    assert SegmentOk(v.files[n], v.contents[n], v.maxima, v.lastSeqno);
    if |v.files[n].data| < HEADER_SIZE {
      assert [] + HEADER == HEADER;
      FreshSegment(v.files[n].id, v.maxima - {v.files[n].id}, v.lastSeqno);
      forall i | 0 <= i < |w.files| ensures SegmentOk(w.files[i], w.contents[i], w.maxima, w.lastSeqno) {
        assert SegmentOk(v.files[i], v.contents[i], v.maxima, v.lastSeqno);
      }
    }
  }

  lemma AllSafeAfterScan(v: View, files: seq<SegmentFile>)
    requires Consistent(v) && ScannedAll(v, files)
    ensures |v.files| == |files| && v.unsynced == 0
    ensures forall i :: 0 <= i < |v.files| ==> v.files[i].durable == |v.files[i].data|
    ensures v.lastSeqno == MaxSeqno(Log(v)) && Log(v) == Flatten(ReadContents(files))
  {
    hide Repaired, SegmentOk;
    forall i | 0 <= i < |v.files| ensures v.files[i].durable == |v.files[i].data| {
      RepairedId(files[i]);
    }
  }

  lemma ScanResult(v: View, files: seq<SegmentFile>)
    requires Consistent(v) && ScannedAll(v, files)
    ensures Log(v) == Flatten(ReadContents(files))
    ensures v.unsynced == 0 && v.lastSeqno == MaxSeqno(Log(v))
  {
  }

  lemma StartsWith(v: View, files: seq<SegmentFile>)
    requires ScannedAll(v, files)
    ensures v.files == RepairedAll(files) && |v.files| == |files|
    ensures files == [] ==> AddSegment(v.files, 1) == [SegmentFile(1, HEADER, 8)]
    ensures files != [] ==> v.files[|v.files| - 1].id == files[|files| - 1].id
  {
    hide Repaired;
    if files != [] {
      RepairedId(files[|files| - 1]);
    }
  }

  /** The newest segment is reopened for appending. */
  lemma ReopenLast(v: View, files: seq<SegmentFile>)
    requires Consistent(v) && ScannedAll(v, files) && |files| > 0
    ensures |v.files| > 0
    ensures var w := v.(files := WithHeader(v.files));
            && Consistent(w) && Synced(w) && Log(w) == Log(v)
            && Active(w.files, v.files[|v.files| - 1].id, |w.files[|w.files| - 1].data|)
  {
    hide SegmentOk, ReadContents, MaxSeqno, ScannedAll, Log;
    AllSafeAfterScan(v, files);
    HeaderRestored(v);
    var w := v.(files := WithHeader(v.files));
    ReadyAfterScan(w);
    SameContents(v, w);
  }

  /** An empty directory gets segment 1. */
  lemma StartFirst(v: View)
    requires Consistent(v) && ScannedAll(v, [])
    ensures var w := WithSegment(v, 1);
            && Consistent(w) && Synced(w) && Log(w) == Log(v) && Active(w.files, 1, HEADER_SIZE)
  {
    hide SegmentOk, MaxSeqno, ScannedAll;
    AllSafeAfterScan(v, []);
    SegmentKeepsConsistent(v, 1);
  }

  lemma BumpKeepsConsistent(v: View, later: nat)
    requires Consistent(v) && v.lastSeqno <= later
    ensures Consistent(v.(lastSeqno := later))
    ensures |v.files| > 0 && Synced(v) ==> Synced(v.(lastSeqno := later))
  {
    hide Holds, SyncedFile;
    forall i | 0 <= i < |v.files| ensures SegmentOk(v.files[i], v.contents[i], v.maxima, later) {
      assert SegmentOk(v.files[i], v.contents[i], v.maxima, v.lastSeqno);
    }
  }

  // ----- where an append goes -----

  lemma AcceptedIf(r: Record)
    requires |r.key| <= 0x4000_0000 && |r.value| <= 0x4000_0000 && r.seqno < U64_LIMIT
    requires r.tombstone ==> r.value == []
    ensures Accepted(r) && PayloadSize(r) == 17 + |r.key| + |r.value|
  {
  }

  /** Where the log stands in its active segment. */
  datatype Place = Place(id: nat, size: nat, pending: nat)

  /** A record of this size goes into a new segment exactly when it would take a segment that has
      records past the limit, and to disk exactly when it is the last of a batch. */
  function After(p: Place, size: nat, rollBytes: nat, every: nat): Place {
    var q := if p.size > HEADER_SIZE && p.size + size > rollBytes then Place(p.id + 1, HEADER_SIZE, 0) else p;
    Place(q.id, q.size + size, if q.pending + 1 >= every then 0 else q.pending + 1)
  }

  /** A segment outgrows its limit only by holding one record too large for it, and neither rolls nor
      syncs come early or late. */
  lemma AfterKeepsLimits(p: Place, size: nat, rollBytes: nat, every: nat)
    requires p.size >= 8
    ensures var q := After(p, size, rollBytes, every);
            && (q.size <= rollBytes || q == Place(q.id, 8 + size, q.pending))
            && (q.id == p.id <==> p.size == 8 || p.size + size <= rollBytes)
            && p.id <= q.id <= p.id + 1 && q.size == (if q.id == p.id then p.size else 8) + size
            && (every > 0 ==> q.pending < every)
            && (q.id == p.id && p.pending + 1 < every ==> q.pending == p.pending + 1)
  {
  }

  // ----- the log object -----

  class Wal {
    const fsyncEveryN: nat
    const rollBytes: nat
    var segments: seq<SegmentFile>
    var isOpen: bool
    var activeId: nat
    var activeBytes: nat
    var lastSeqno: nat
    var appendsSinceSync: nat
    var segmentMaxSeqno: map<nat, nat>
    ghost var contents: seq<seq<Record>>

    function At(): Place
      reads this
    {
      Place(activeId, activeBytes, appendsSinceSync)
    }

    ghost function V(): View
      reads this
    {
      View(segments, contents, segmentMaxSeqno, lastSeqno, appendsSinceSync)
    }

    /** The active segment is open: it is the last file, and the counters describe it. */
    ghost predicate Ready()
      reads this
    {
      Consistent(V()) && Synced(V()) && Active(segments, activeId, activeBytes)
    }

    ghost predicate Valid()
      reads this
    {
      && Consistent(V())
      && fsyncEveryN > 0
      && (isOpen ==> Ready() && appendsSinceSync < fsyncEveryN)
    }

    constructor (fsyncEveryN: nat, rollBytes: nat, directory: seq<SegmentFile>)
      ensures this.fsyncEveryN == if fsyncEveryN == 0 then 1 else fsyncEveryN
      ensures this.rollBytes == rollBytes
      ensures segments == directory && !isOpen && segmentMaxSeqno == map[] && lastSeqno == 0 && appendsSinceSync == 0
    {
      this.fsyncEveryN := if fsyncEveryN == 0 then 1 else fsyncEveryN;
      this.rollBytes := rollBytes;
      segments := directory;
      isOpen := false;
      activeId, activeBytes, lastSeqno, appendsSinceSync := 0, 0, 0, 0;
      segmentMaxSeqno := map[];
      contents := [];
    }

    method FsyncActive()
      requires Ready()
      modifies this
      ensures Ready() && V() == WithSync(old(V())) && Log(V()) == old(Log(V())) && Safe(V()) == Log(V())
      ensures activeId == old(activeId) && isOpen == old(isOpen) && activeBytes == old(activeBytes)
      ensures appendsSinceSync == 0 && lastSeqno == old(lastSeqno)
    {
      ghost var v := V();
      SyncKeepsConsistent(v);
      SameContents(WithSync(v), v);
      FileOperations(segments, activeId, activeBytes, []);
      hide Consistent, Synced, Log, Safe, Active, MarkDurable, AppendData, AddSegment, AppendToLast;
      segments := MarkDurable(segments);
      appendsSinceSync := 0;
    }

    /** Make the active segment safe, close it, and start the next one. */
    method RollSegment()
      requires Ready()
      modifies this
      ensures Ready() && V() == WithSegment(WithSync(old(V())), old(activeId) + 1) && activeBytes == HEADER_SIZE
      ensures Log(V()) == old(Log(V())) && activeId == old(activeId) + 1
      ensures isOpen == old(isOpen) && appendsSinceSync == 0 && lastSeqno == old(lastSeqno)
    {
      hide Consistent, Synced, Log, Safe, Active, MarkDurable, AppendData, AddSegment, AppendToLast;
      ghost var v := V();
      FileOperations(segments, activeId, activeBytes, []);
      RollKeepsConsistent(v);
      FsyncActive();
      FileOperations(segments, activeId, activeBytes, []);
      activeId := activeId + 1;
      segments := AddSegment(segments, activeId);
      contents := contents + [[]];
      activeBytes := HEADER_SIZE;
    }

    method WriteRecord(record: Record)
      requires Ready() && Accepted(record) && record.seqno > lastSeqno
      modifies this
      ensures Ready() && V() == WithRecord(old(V()), record) && Log(V()) == old(Log(V())) + [record]
      ensures activeId == old(activeId) && isOpen == old(isOpen)
      ensures activeBytes == old(activeBytes) + FRAME_OVERHEAD + PayloadSize(record)
      ensures appendsSinceSync == old(appendsSinceSync) + 1 && lastSeqno == record.seqno
    {
      hide Consistent, Synced, Log, Safe, Active, AppendData, AppendToLast, Encode, Accepted;
      ghost var v := V();
      var rec := Encode(record);
      FileOperations(segments, activeId, activeBytes, rec);
      RecordKeepsConsistent(v, record);
      segments := AppendData(segments, rec);
      contents := AppendToLast(contents, record);
      activeBytes := activeBytes + |rec|;
      appendsSinceSync := appendsSinceSync + 1;
      lastSeqno := record.seqno;
      segmentMaxSeqno := segmentMaxSeqno[activeId := record.seqno];
    }

    lemma HasHeader()
      requires Valid() && isOpen
      ensures activeBytes >= HEADER_SIZE
    {
      hide EncodeAll, MaxSeqno;
      assert SegmentOk(segments[|segments| - 1], contents[|segments| - 1], segmentMaxSeqno, lastSeqno);
    }

    /** Roll if the record would take the segment past its limit; write; fsync when it is time. */
    method WriteAndSync(record: Record)
      requires Valid() && isOpen && Accepted(record) && record.seqno > lastSeqno
      modifies this
      ensures Valid() && isOpen && lastSeqno == record.seqno && appendsSinceSync <= old(appendsSinceSync) + 1
      ensures Log(V()) == old(Log(V())) + [record]
      ensures At() == After(old(At()), FRAME_OVERHEAD + PayloadSize(record), rollBytes, fsyncEveryN)
    {
      hide Encode, Accepted, Consistent, Synced, Log, Safe, Active, MarkDurable, AppendData, AddSegment, AppendToLast,
        WithRecord, WithSync, WithSegment;
      var rec := Encode(record);
      if activeBytes > HEADER_SIZE && activeBytes + |rec| > rollBytes {
        RollSegment();
      }
      WriteRecord(record);
      if appendsSinceSync >= fsyncEveryN {
        FsyncActive();
      }
    }

    /** Append one mutation; every fsyncEveryN appends the active segment is made safe. */
    method Append(tombstone: bool, key: bytes, value: bytes) returns (r: Result<nat>)
      requires Valid() && lastSeqno + 1 < U64_LIMIT
      requires tombstone ==> value == []
      modifies this
      ensures Valid() && isOpen == old(isOpen)
      ensures r == if !old(isOpen) then Err(StoreClosed)
                   else if key == [] || |key| > 0x4000_0000 || |value| > 0x4000_0000 then Err(InvalidArgument)
                   else Ok(old(lastSeqno) + 1)
      ensures r.Err? ==> unchanged(this)
      ensures r.Ok? ==> lastSeqno == r.value && appendsSinceSync <= old(appendsSinceSync) + 1
      ensures r.Ok? ==> Log(V()) == old(Log(V())) + [Record(tombstone, key, value, r.value)]
      ensures r.Ok? ==> At() == After(old(At()), 25 + |key| + |value|, rollBytes, fsyncEveryN)
      ensures r.Ok? ==> activeBytes <= rollBytes || activeBytes == 33 + |key| + |value|
    {
      hide Valid, Accepted, Log, After, PayloadSize;
      if !isOpen {
        return Err(StoreClosed);
      }
      if key == [] || |key| > MAX_PAYLOAD || |value| > MAX_PAYLOAD {
        return Err(InvalidArgument);
      }
      var seqno := lastSeqno + 1;
      var record := Record(tombstone, key, value, seqno);
      AcceptedIf(record);
      HasHeader();
      AfterKeepsLimits(At(), 25 + |key| + |value|, rollBytes, fsyncEveryN);
      WriteAndSync(record);
      r := Ok(seqno);
    }
  
    method Roll() returns (r: Result<nat>)
      requires Valid()
      modifies this
      ensures Valid() && isOpen == old(isOpen) && Log(V()) == old(Log(V())) && lastSeqno == old(lastSeqno)
      ensures r == if old(isOpen) then Ok(old(activeId) + 1) else Err(StoreClosed)
      ensures r.Err? ==> unchanged(this)
      ensures r.Ok? ==> At() == Place(r.value, 8, 0)
      ensures r.Ok? ==> |segments| == |old(segments)| + 1
                        && forall i :: 0 <= i < |old(segments)| ==> segments[i].data == old(segments)[i].data
    {
      hide Consistent, Synced, Log, Safe, Active, MarkDurable, AppendData, AddSegment, AppendToLast;
      if !isOpen {
        return Err(StoreClosed);
      }
      FileOperations(segments, activeId, activeBytes, []);
      RolledFiles(V(), activeId + 1);
      RollSegment();
      r := Ok(activeId);
    }

    method Close()
      requires Valid()
      modifies this
      ensures Valid() && !isOpen && Log(V()) == old(Log(V()))
      ensures old(isOpen) ==> Synced(V()) && appendsSinceSync == 0
    {
      hide Consistent, Synced, Log, Safe, Active, MarkDurable, AppendData, AddSegment, AppendToLast;
      if isOpen {
        FsyncActive();
        isOpen := false;
      }
    }

    method BumpSeqno(floor: nat)
      requires Valid()
      modifies this
      ensures Valid() && V() == old(V()).(lastSeqno := if old(lastSeqno) < floor then floor else old(lastSeqno))
      ensures isOpen == old(isOpen)
    {
      BumpKeepsConsistent(V(), if lastSeqno < floor then floor else lastSeqno);
      hide Consistent, Synced, Log, Safe, Active, MarkDurable, AppendData, AddSegment, AppendToLast;
      lastSeqno := if lastSeqno < floor then floor else lastSeqno;
    }
  
    /** Scan every segment, oldest first; cut each at its last good byte. */
    method ScanAll(found: seq<SegmentFile>) returns (report: RecoveryReport, replayed: seq<Record>, ghost v: View)
      requires segmentMaxSeqno == map[] && Increasing(found)
      modifies this`segments, this`segmentMaxSeqno
      ensures Consistent(v) && ScannedAll(v, found)
      ensures segments == v.files && segmentMaxSeqno == v.maxima
      ensures replayed == Log(v) && report.lastSeqno == v.lastSeqno
      ensures report.segments == |found| && report.records == |replayed| && report.truncated == Unclean(found)
    {
      hide SegmentRecords, GoodBytes, MaxSeqno, SegmentOk, Consistent, ScannedAll, Log, Repaired, HeaderOk, NextScan,
        Increasing, Unclean;
      var truncated, last, repaired := 0, 0, [];
      replayed := [];
      v := View([], [], map[], 0, 0);
      var i := 0;
      NothingScanned();
      assert found[..0] == [];
      while i < |found|
        invariant 0 <= i <= |found|
        invariant repaired == v.files && segmentMaxSeqno == v.maxima && v.lastSeqno == last
        invariant Consistent(v) && ScannedAll(v, found[..i])
        invariant replayed == Log(v) && truncated == Unclean(found[..i])
      {
        var scan := ScanSegment(found[i].data);
        NextFile(found, i);
        UncleanOneMore(found, i, scan);
        ScanOneMore(v, found[..i], found[i]);
        RepairedByScan(v, found[i], scan);
        v := NextScan(v, found[i]);
        truncated := if scan.clean then truncated else truncated + 1;
        last := if last < scan.maxSeqno then scan.maxSeqno else last;
        repaired := repaired + [SegmentFile(found[i].id, found[i].data[..scan.goodBytes], scan.goodBytes)];
        segmentMaxSeqno := segmentMaxSeqno[found[i].id := scan.maxSeqno];
        replayed := replayed + scan.records;
        i := i + 1;
      }
      segments := repaired;
      assert found[..i] == found;
      report := RecoveryReport(|found|, |replayed|, truncated, last);
    }

    /** Recovery: scan the segments, then open the newest, or a first one, for appending. */
    method Open() returns (report: RecoveryReport, replayed: seq<Record>)
      requires !isOpen && segmentMaxSeqno == map[] && fsyncEveryN > 0
      requires Increasing(segments)
      modifies this
      ensures Valid() && isOpen && appendsSinceSync == 0
      ensures replayed == Flatten(ReadContents(old(segments))) == Log(V())
      ensures lastSeqno == report.lastSeqno == MaxSeqno(replayed)
      ensures report.segments == |old(segments)| && report.records == |replayed|
      ensures report.truncated == Unclean(old(segments))
      ensures old(segments) == [] ==> segments == [SegmentFile(1, HEADER, 8)] && activeId == 1
      ensures old(segments) != [] ==>
                segments == WithHeader(RepairedAll(old(segments))) && activeId == old(segments)[|old(segments)| - 1].id
    {
      var found := segments;
      ghost var v: View;
      report, replayed, v := ScanAll(found);
      hide Consistent, Synced, Log, Active, ScannedAll, MaxSeqno, ReadContents, WithHeader, AddSegment;
      lastSeqno := report.lastSeqno;
      appendsSinceSync := 0;
      contents := v.contents;
      isOpen := true;
      ScanResult(v, found);
      StartsWith(v, found);
      if found == [] {
        CreateFirst(v);
      } else {
        ReopenNewest(v, found);
      }
    }

    method CreateFirst(ghost v: View)
      requires Consistent(v) && ScannedAll(v, []) && V() == v
      modifies this
      ensures Ready() && Log(V()) == Log(v) && lastSeqno == v.lastSeqno && appendsSinceSync == v.unsynced
      ensures isOpen == old(isOpen) && segments == AddSegment(v.files, 1) && activeId == 1
    {
      hide Consistent, Synced, Log, Active, ScannedAll, AddSegment;
      StartFirst(v);
      activeId := 1;
      segments := AddSegment(segments, activeId);
      contents := contents + [[]];
      activeBytes := HEADER_SIZE;
    }

    method ReopenNewest(ghost v: View, ghost found: seq<SegmentFile>)
      requires Consistent(v) && ScannedAll(v, found) && V() == v && |found| > 0
      modifies this
      ensures Ready() && Log(V()) == Log(v) && lastSeqno == v.lastSeqno && appendsSinceSync == v.unsynced
      ensures isOpen == old(isOpen) && segments == WithHeader(v.files) && activeId == v.files[|v.files| - 1].id
    {
      hide Consistent, Synced, Log, Active, ScannedAll, WithHeader;
      ReopenLast(v, found);
      HeaderKeepsCount(segments);
      activeId := segments[|segments| - 1].id;
      segments := WithHeader(segments);
      activeBytes := |segments[|segments| - 1].data|;
    }
  
    /** Delete every closed segment whose records all lie at or below the watermark. */
    method RemoveSegmentsCovered(watermark: nat) returns (deleted: seq<nat>)
      requires Valid() && isOpen
      modifies this
      ensures Valid() && isOpen && activeId == old(activeId) && lastSeqno == old(lastSeqno)
      ensures segments == KeptFiles(old(segments), old(segmentMaxSeqno), activeId, watermark)
      ensures forall f :: f in segments
                <==> f in old(segments)
                     && (f.id == activeId || f.id !in old(segmentMaxSeqno) || old(segmentMaxSeqno)[f.id] > watermark)
      ensures forall id :: id in deleted <==> id in DroppedIds(old(segments), old(segmentMaxSeqno), activeId, watermark)
      ensures activeBytes == old(activeBytes)
      ensures |old(segments)| == |old(contents)|
           && contents == KeptContents(old(segments), old(contents), old(segmentMaxSeqno), activeId, watermark)
      ensures appendsSinceSync == old(appendsSinceSync)
    {
      hide Consistent, Synced, Active, Covered, KeptFiles, KeptContents, DroppedIds, Cleaned;
      ghost var v := V();
      var listing := segments;
      var kept, i := 0, 0;
      deleted := [];
      NothingCleaned(v, activeId, watermark);
      NothingDropped(v.maxima, activeId, watermark);
      assert v.files[..0] == [];
      while i < |listing|
        invariant 0 <= i <= |listing| && listing == v.files && |v.files| == |v.contents|
        invariant activeId == old(activeId) && activeBytes == old(activeBytes) && isOpen
        invariant V() == Cleaned(v, i, activeId, watermark)
        invariant Ready() && V().unsynced == v.unsynced && V().lastSeqno == v.lastSeqno
        invariant kept == |KeptFiles(v.files[..i], v.maxima, activeId, watermark)|
        invariant forall id :: id in deleted <==> id in DroppedIds(v.files[..i], v.maxima, activeId, watermark)
      {
        var file := listing[i];
        CleanPosition(v, i, activeId, watermark);
        CleanOneMore(v, i, activeId, watermark);
        KeptOneMore(v, i, activeId, watermark);
        if Covered(file, segmentMaxSeqno, activeId, watermark) {
          DeletionKeepsReady(v, i, activeId, activeBytes, watermark);
          segments := segments[..kept] + segments[kept + 1..];
          contents := contents[..kept] + contents[kept + 1..];
          segmentMaxSeqno := segmentMaxSeqno - {file.id};
          deleted := deleted + [file.id];
        } else {
          kept := kept + 1;
        }
        i := i + 1;
      }
      AllCleaned(v, activeId, watermark);
      KeptIs(v.files, v.maxima, activeId, watermark);
      assert v.files[..|v.files|] == v.files;
    }
  }
}
