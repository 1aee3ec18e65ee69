/** The framing of one WAL record and of a WAL segment, with the reading that recovery gives to
    an arbitrary string of bytes. */
module WalFormat {
  import opened Bytes
  import opened Crc32
  import opened Memtables

  const MAGIC: bytes := [0x4C, 0x53, 0x4D, 0x57]
  const VERSION: byte := 1
  const HEADER_SIZE: nat := 8
  const TYPE_PUT: byte := 1
  const TYPE_DEL: byte := 2
  const MIN_PAYLOAD: nat := 17
  const MAX_PAYLOAD: nat := 0x4000_0000
  const FRAME_OVERHEAD: nat := 8

  /** What `append` lets through. */
  predicate Accepted(r: Record) {
    && |r.key| <= MAX_PAYLOAD && |r.value| <= MAX_PAYLOAD
    && r.seqno < U64_LIMIT
    && (r.tombstone ==> r.value == [])
  }

  function PayloadSize(r: Record): nat {
    MIN_PAYLOAD + |r.key| + |r.value|
  }

  /** What the scanner is willing to read back. */
  predicate Readable(r: Record) {
    Accepted(r) && PayloadSize(r) <= MAX_PAYLOAD
  }

  function Payload(r: Record): (p: bytes)
    requires Accepted(r)
    ensures |p| == PayloadSize(r)
  {
    [if r.tombstone then TYPE_DEL else TYPE_PUT] + PutU64(r.seqno)
    + PutU32(|r.key|) + PutU32(|r.value|) + r.key + r.value
  }

  function Encode(r: Record): (b: bytes)
    requires Accepted(r)
    ensures |b| == FRAME_OVERHEAD + PayloadSize(r)
  {
    PutU32(PayloadSize(r)) + Payload(r) + CrcField(Payload(r))
  }

  ghost predicate AllAccepted(rs: seq<Record>) {
    forall i :: 0 <= i < |rs| ==> Accepted(rs[i])
  }

  ghost predicate AllReadable(rs: seq<Record>) {
    forall i :: 0 <= i < |rs| ==> Readable(rs[i])
  }

  function EncodeAll(rs: seq<Record>): bytes
    requires AllAccepted(rs)
  {
    if rs == [] then [] else Encode(rs[0]) + EncodeAll(rs[1..])
  }

  const HEADER: bytes := MAGIC + [VERSION, 0, 0, 0]

  predicate HeaderOk(file: bytes) {
    |file| >= HEADER_SIZE && file[..4] == MAGIC && file[4] == VERSION
  }

  // ----- the bytes on disk -----

  /** One frame, byte by byte: the payload's length, type 1 or 2, number, key and value lengths, key,
      value, and the checksum of the payload; every number lowest byte first. */
  lemma RecordLayout(r: Record, b: bytes)
    requires Accepted(r) && b == Encode(r)
    ensures |b| == 25 + |r.key| + |r.value|
    ensures Value(b[0..4]) == 17 + |r.key| + |r.value| && b[4] == (if r.tombstone then 2 else 1)
    ensures Value(b[5..13]) == r.seqno && Value(b[13..17]) == |r.key| && Value(b[17..21]) == |r.value|
    ensures b[21..21 + |r.key|] == r.key && b[21 + |r.key|..21 + |r.key| + |r.value|] == r.value
    ensures b[|b| - 4..] == CrcField(b[4..|b| - 4])
  {
    hide PutU32, PutU64, CrcField, Value, GetU32, GetU64;
    var p := Payload(r);
    assert b == PutU32(|p|) + p + CrcField(p);
    assert b[0..4] == PutU32(|p|) && b[4..|b| - 4] == p && b[|b| - 4..] == CrcField(p);
    assert b[5..13] == p[1..9] == PutU64(r.seqno);
    assert b[13..17] == p[9..13] == PutU32(|r.key|) && b[17..21] == p[13..17] == PutU32(|r.value|);
    U32IsLittleEndian(|p|, b[0..4]);
    U64IsLittleEndian(r.seqno, b[5..13]);
    U32IsLittleEndian(|r.key|, b[13..17]);
    U32IsLittleEndian(|r.value|, b[17..21]);
  }

  /** A segment starts with "LSMW", version 1 and three reserved bytes, which readers ignore. */
  lemma HeaderLayout(file: bytes)
    ensures HEADER == [0x4C, 0x53, 0x4D, 0x57, 1, 0, 0, 0]
    ensures HeaderOk(file) <==> |file| >= 8 && file[..5] == [0x4C, 0x53, 0x4D, 0x57, 1]
  {
    if |file| >= 8 {
      assert file[..5] == file[..4] + [file[4]];
      assert file[..5][..4] == file[..4] && file[..5][4] == file[4];
    }
  }

  // ----- reading -----

  /** The record a checked payload describes, if its own lengths and type add up. */
  function ParsePayload(p: bytes): Option<Record>
    requires |p| >= MIN_PAYLOAD
  {
    var kind := p[0];
    var keyLen := GetU32(p[9..13]);
    var valLen := GetU32(p[13..17]);
    if (kind != TYPE_PUT && kind != TYPE_DEL)
       || MIN_PAYLOAD + keyLen + valLen != |p|
       || (kind == TYPE_DEL && valLen != 0) then None
    else Some(Record(kind == TYPE_DEL, p[17..17 + keyLen], p[17 + keyLen..], GetU64(p[1..9])))
  }

  /** The record at the front of a byte string, if a whole valid one is there. */
  function First(b: bytes): Option<Record> {
    if |b| < 4 then None
    else
      var len := GetU32(b[..4]);
      if len < MIN_PAYLOAD || len > MAX_PAYLOAD || |b| < 4 + len + 4 then None
      else if CrcField(b[4..4 + len]) != b[4 + len..8 + len] then None
      else ParsePayload(b[4..4 + len])
  }

  lemma ParseSound(p: bytes, r: Record)
    requires MIN_PAYLOAD <= |p| <= MAX_PAYLOAD && ParsePayload(p) == Some(r)
    ensures Readable(r) && Payload(r) == p
  {
    hide PutU32, GetU32, PutU64, GetU64;
    U64Injective(p[1..9]);
    U32Injective(p[9..13]);
    U32Injective(p[13..17]);
    var keyLen := GetU32(p[9..13]);
    assert p == [p[0]] + p[1..9] + p[9..13] + p[13..17] + p[17..17 + keyLen] + p[17 + keyLen..];
  }

  lemma ParseComplete(r: Record)
    requires Accepted(r)
    ensures ParsePayload(Payload(r)) == Some(r)
  {
    hide PutU32, GetU32, PutU64, GetU64;
    var p := Payload(r);
    U64RoundTrip(r.seqno);
    U32RoundTrip(|r.key|);
    U32RoundTrip(|r.value|);
    assert p[1..9] == PutU64(r.seqno);
    assert p[9..13] == PutU32(|r.key|);
    assert p[13..17] == PutU32(|r.value|);
    assert p[17..17 + |r.key|] == r.key;
    assert p[17 + |r.key|..] == r.value;
  }

  /** A record is read from the front of a byte string exactly when its encoding stands there. */
  lemma FirstIffEncoded(b: bytes, r: Record)
    ensures First(b) == Some(r) <==> Readable(r) && Encode(r) <= b
  {
    hide PutU32, GetU32, CrcField, ParsePayload, Payload;
    if First(b) == Some(r) {
      var len := GetU32(b[..4]);
      ParseSound(b[4..4 + len], r);
      U32Injective(b[..4]);
      assert b[..8 + len] == b[..4] + b[4..4 + len] + b[4 + len..8 + len];
    }
    if Readable(r) && Encode(r) <= b {
      var len := PayloadSize(r);
      U32RoundTrip(len);
      assert b[..8 + len] == Encode(r);
      assert b[..4] == Encode(r)[..4] == PutU32(len);
      assert b[4..4 + len] == Encode(r)[4..4 + len] == Payload(r);
      assert b[4 + len..8 + len] == Encode(r)[4 + len..8 + len] == CrcField(Payload(r));
      ParseComplete(r);
    }
  }

  /** Every record recovery reads from the front of a byte string, in order. */
  function Records(b: bytes): (rs: seq<Record>)
    ensures AllReadable(rs)
    decreases |b|
  {
    hide First, Encode;
    match First(b)
    case None => []
    case Some(r) =>
      FirstIffEncoded(b, r);
      [r] + Records(b[|Encode(r)|..])
  }

  /** What recovery reads from a whole segment file. */
  function SegmentRecords(file: bytes): (rs: seq<Record>)
    ensures AllReadable(rs)
  {
    if HeaderOk(file) then Records(file[HEADER_SIZE..]) else []
  }

  lemma {:induction false} MaxSeqnoAppend(x: seq<Record>, y: seq<Record>)
    ensures MaxSeqno(x + y) == if MaxSeqno(x) < MaxSeqno(y) then MaxSeqno(y) else MaxSeqno(x)
    decreases |y|
  {
    if y == [] {
      assert x + y == x;
    } else {
      assert (x + y)[..|x + y| - 1] == x + y[..|y| - 1];
      MaxSeqnoAppend(x, y[..|y| - 1]);
    }
  }

  // ----- torn tails -----

  /** Nothing is read from a strict prefix of a record. */
  lemma TornRecordUnread(r: Record, torn: bytes)
    requires Accepted(r) && torn <= Encode(r) && |torn| < |Encode(r)|
    ensures First(torn) == None
  {
    hide PutU32, GetU32, CrcField, ParsePayload, Payload;
    if |torn| >= 4 {
      assert torn[..4] == Encode(r)[..4] == PutU32(PayloadSize(r));
      U32RoundTrip(PayloadSize(r));
    }
  }

  lemma {:induction false} RecordsAppend(rs: seq<Record>, tail: bytes)
    requires AllReadable(rs)
    ensures Records(EncodeAll(rs) + tail) == rs + Records(tail)
    decreases |rs|
  {
    hide First, Encode;
    var b := EncodeAll(rs) + tail;
    if rs == [] {
      assert b == tail;
    } else {
      assert b == Encode(rs[0]) + (EncodeAll(rs[1..]) + tail);
      FirstIffEncoded(b, rs[0]);
      assert b[|Encode(rs[0])|..] == EncodeAll(rs[1..]) + tail;
      RecordsAppend(rs[1..], tail);
    }
  }

  /** Whole records followed by a torn one read back as exactly the whole ones. */
  lemma TornTail(rs: seq<Record>, r: Record, torn: bytes)
    requires AllReadable(rs) && Accepted(r)
    requires torn <= Encode(r) && |torn| < |Encode(r)|
    ensures Records(EncodeAll(rs) + torn) == rs
  {
    TornRecordUnread(r, torn);
    RecordsAppend(rs, torn);
  }

  /** Whatever the bytes, what is read stands encoded at their front, and cutting the rest off
      changes nothing that is read. */
  lemma {:induction false} RecordsSound(b: bytes)
    ensures EncodeAll(Records(b)) <= b
    ensures Records(EncodeAll(Records(b))) == Records(b)
    decreases |b|
  {
    hide First, Encode;
    match First(b)
    case None =>
      assert Records([]) == [] by { assert First([]) == None by { NothingFirst(); } }
    case Some(r) =>
      FirstIffEncoded(b, r);
      var rest := b[|Encode(r)|..];
      RecordsSound(rest);
      var rs := Records(b);
      assert rs[1..] == Records(rest);
      assert b == Encode(r) + rest;
      RecordsAppend(rs, []);
      assert EncodeAll(rs) + [] == EncodeAll(rs);
      assert Records([]) == [] by { NothingFirst(); }
  }

  lemma NothingFirst()
    ensures First([]) == None
  {
  }

  lemma NothingRead(b: bytes)
    requires First(b) == None
    ensures Records(b) == []
  {
    hide First;
  }

  /** A segment holds exactly these records: no bytes at all, or a header and their encodings. */
  ghost predicate Holds(file: bytes, rs: seq<Record>) {
    && AllAccepted(rs)
    && if file == [] then rs == [] else HeaderOk(file) && file[HEADER_SIZE..] == EncodeAll(rs)
  }

  // ----- records too large to be read back -----

  /** The records before the first that the scanner refuses. */
  function ReadablePart(rs: seq<Record>): seq<Record> {
    if rs == [] || !Readable(rs[0]) then [] else [rs[0]] + ReadablePart(rs[1..])
  }

  lemma {:induction false} ReadablePartIs(rs: seq<Record>)
    ensures ReadablePart(rs) <= rs && AllReadable(ReadablePart(rs))
    ensures |ReadablePart(rs)| < |rs| ==> !Readable(rs[|ReadablePart(rs)|])
    ensures ReadablePart(rs) == rs <==> AllReadable(rs)
    decreases |rs|
  {
    hide Readable;
    if rs != [] && Readable(rs[0]) {
      ReadablePartIs(rs[1..]);
      assert rs == [rs[0]] + rs[1..];
    }
  }

  lemma {:induction false} ReadablePartOfFront(rs: seq<Record>, k: nat)
    requires k <= |rs|
    ensures ReadablePart(rs[..k]) <= ReadablePart(rs)
    decreases k
  {
    hide Readable;
    if k > 0 && Readable(rs[0]) {
      assert rs[..k][1..] == rs[1..][..k - 1];
      ReadablePartOfFront(rs[1..], k - 1);
    }
  }

  function GoodBytes(file: bytes): nat {
    if HeaderOk(file) then HEADER_SIZE + |EncodeAll(SegmentRecords(file))| else 0
  }

  /** Cutting a segment at the last good byte loses nothing that was read, and what is left reads
      back whole, so recovery is idempotent. */
  lemma TruncationKeepsRecords(file: bytes)
    ensures GoodBytes(file) <= |file|
    ensures var cut := file[..GoodBytes(file)];
            Holds(cut, SegmentRecords(file)) && SegmentRecords(cut) == SegmentRecords(file)
            && GoodBytes(cut) == |cut|
  {
    hide First, Encode, EncodeAll, Records, Accepted;
    if HeaderOk(file) {
      var body := file[HEADER_SIZE..];
      RecordsSound(body);
      var cut := file[..GoodBytes(file)];
      assert cut[HEADER_SIZE..] == EncodeAll(Records(body));
      assert cut[..4] == file[..4];
    }
  }

  /** A cut of a segment that spares its first records whole reads as a front of its readable part,
      with at least what of those is readable; uncut, as all of that part. */
  lemma HeldRecordsRead(file: bytes, rs: seq<Record>, image: bytes, kept: nat)
    requires Holds(file, rs) && image <= file && kept <= |rs|
    requires file != [] ==> HEADER_SIZE + |EncodeAll(rs[..kept])| <= |image|
    ensures ReadablePart(rs[..kept]) <= SegmentRecords(image) <= ReadablePart(rs)
    ensures image == file ==> SegmentRecords(image) == ReadablePart(rs)
  {
    hide First, Encode, EncodeAll, Records, Accepted, ReadablePart;
    ReadablePartIs([]);
    if file != [] {
      assert image[..4] == file[..4];
      var body, cut := file[HEADER_SIZE..], image[HEADER_SIZE..];
      assert cut <= body by {
        assert cut == body[..|cut|];
      }
      CutReadsPrefix(rs, cut, kept);
      if image == file {
        RecoversReadablePart(rs);
      }
    } else {
      assert rs[..kept] == [];
    }
  }

  lemma {:induction false} EncodeAllAppend(x: seq<Record>, y: seq<Record>)
    requires AllAccepted(x) && AllAccepted(y)
    ensures EncodeAll(x + y) == EncodeAll(x) + EncodeAll(y)
    decreases |x|
  {
    hide Encode;
    if x == [] {
      assert x + y == y;
    } else {
      assert (x + y)[1..] == x[1..] + y;
      EncodeAllAppend(x[1..], y);
    }
  }

  /** However a crash cuts a log short, recovery reads a front of its readable part, with every
      readable record that was whole within what survived. */
  lemma {:induction false} CutReadsPrefix(rs: seq<Record>, cut: bytes, kept: nat)
    requires AllAccepted(rs) && cut <= EncodeAll(rs)
    requires kept <= |rs| && |EncodeAll(rs[..kept])| <= |cut|
    ensures ReadablePart(rs[..kept]) <= Records(cut) <= ReadablePart(rs)
    decreases |rs|
  {
    hide First, Encode, Accepted, Readable;
    if rs == [] {
      NothingFirst();
      return;
    }
    FrontOrMore(rs, cut);
    if !Readable(rs[0]) {
      OversizedUnread(rs[0], cut);
    } else if |cut| < |Encode(rs[0])| {
      TornRecordUnread(rs[0], cut);
    } else {
      FirstIffEncoded(cut, rs[0]);
      var rest := cut[|Encode(rs[0])|..];
      if kept > 0 {
        assert rs[..kept][1..] == rs[1..][..kept - 1];
        CutReadsPrefix(rs[1..], rest, kept - 1);
      } else {
        assert EncodeAll(rs[1..][..0]) == [];
        CutReadsPrefix(rs[1..], rest, 0);
      }
    }
  }

  /** A cut ends inside the first record, or goes on with a cut of the others. */
  lemma FrontOrMore(rs: seq<Record>, cut: bytes)
    requires AllAccepted(rs) && rs != [] && cut <= EncodeAll(rs)
    ensures |cut| < |Encode(rs[0])| ==> cut <= Encode(rs[0])
    ensures |cut| >= |Encode(rs[0])| ==> Encode(rs[0]) <= cut && cut[|Encode(rs[0])|..] <= EncodeAll(rs[1..])
  {
    hide Encode;
    var all := EncodeAll(rs);
    assert all[..|cut|] == cut;
    assert EncodeAll(rs[1..]) == all[|Encode(rs[0])|..];
  }

  lemma EncodeAllOne(rs: seq<Record>, r: Record)
    requires AllAccepted(rs) && Accepted(r)
    ensures EncodeAll(rs + [r]) == EncodeAll(rs) + Encode(r)
  {
    hide Encode;
    EncodeAllAppend(rs, [r]);
    assert [r][1..] == [] && EncodeAll([r]) == Encode(r) + [];
  }

  /** Nothing is read where an oversized record stands, whole or cut. */
  lemma OversizedUnread(r: Record, b: bytes)
    requires Accepted(r) && !Readable(r) && (b <= Encode(r) || Encode(r) <= b)
    ensures First(b) == None
  {
    hide PutU32, GetU32, CrcField, ParsePayload, Payload;
    U32RoundTrip(PayloadSize(r));
    if |b| >= 4 {
      assert b[..4] == Encode(r)[..4] == PutU32(PayloadSize(r));
    }
  }

  lemma RecoversReadablePart(rs: seq<Record>)
    requires AllAccepted(rs)
    ensures Records(EncodeAll(rs)) == ReadablePart(rs)
  {
    hide EncodeAll, Records, ReadablePart;
    assert rs[..|rs|] == rs;
    CutReadsPrefix(rs, EncodeAll(rs), |rs|);
  }

  /** Appending accepts records that recovery cannot read. Recovery of any log stops at the first
      record whose whole payload exceeds the cap that `append` applies to key and value separately,
      and loses everything after it; the log is read back whole exactly when there is none. */
  lemma RecoveredIffWithinCap(rs: seq<Record>, k: nat)
    requires AllAccepted(rs) && k <= |rs|
    requires forall i :: 0 <= i < k ==> 17 + |rs[i].key| + |rs[i].value| <= 0x4000_0000
    requires k < |rs| ==> 17 + |rs[k].key| + |rs[k].value| > 0x4000_0000
    ensures Records(EncodeAll(rs)) == rs[..k]
    ensures Records(EncodeAll(rs)) == rs
            <==> forall i :: 0 <= i < |rs| ==> 17 + |rs[i].key| + |rs[i].value| <= 0x4000_0000
  {
    hide EncodeAll, Records, ReadablePart;
    RecoversReadablePart(rs);
    ReadablePartIs(rs);
    var n := |ReadablePart(rs)|;
    assert n < |rs| ==> !Readable(rs[n]);
    assert forall i :: 0 <= i < n ==> Readable(ReadablePart(rs)[i]) && ReadablePart(rs)[i] == rs[i];
  }

  /** A key of one byte with a value of 2^30 bytes is accepted; it and every later record of its
      segment are lost at the next recovery. */
  lemma OversizedRecordIsLost(value: bytes, later: seq<Record>)
    requires |value| == 0x4000_0000 && AllAccepted(later)
    ensures var r := Record(false, [0x6B], value, 1);
            AllAccepted([r] + later) && Records(EncodeAll([r] + later)) == []
  {
    hide EncodeAll, Records;
    var r := Record(false, [0x6B], value, 1);
    assert Accepted(r) && PayloadSize(r) > MAX_PAYLOAD;
    RecoveredIffWithinCap([r] + later, 0);
  }
}
