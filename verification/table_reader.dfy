/** Point lookup in a table file: range check, filter, index, restart points and a short walk. */
module TableReaders {
  import opened Bytes
  import opened Crc32
  import opened Memtables
  import opened Seqs
  import opened TableFormat
  import opened TableLayout
  import opened BloomFilters
  import opened BlockCaches

  datatype ReadResult<+T> = Good(value: T) | Corrupt

  method ReadRange(file: bytes, offset: nat, size: nat) returns (r: ReadResult<bytes>)
    ensures r == if offset + size <= |file| then Good(file[offset..offset + size]) else Corrupt
  {
    if offset + size > |file| {
      return Corrupt;
    }
    r := Good(file[offset..offset + size]);
  }

  method CheckCrc(block: bytes) returns (ok: bool)
    requires |block| >= 4
    ensures ok == CrcOk(block)
  {
    hide Checksum, Field;
    var crc := Compute(block[..|block| - 4]);
    ok := Field(crc) == block[|block| - 4..];
  }

  // ----- searching one block -----

  /** The rows before i all differ from the key, and so do those from `high` on. */
  ghost predicate Narrowed(rows: seq<Row>, at: seq<nat>, key: bytes, lo: nat, hi: nat) {
    && lo < hi <= |at|
    && (forall m :: 0 <= m < |at| ==> at[m] < |rows|)
    && (lo > 0 ==> AtMost(rows[at[lo]].key, key))
    && (hi < |at| ==> Less(key, rows[at[hi]].key))
  }

  /** Every row before i sorts below the key. */
  ghost predicate Passed(rows: seq<Row>, key: bytes, i: nat) {
    i <= |rows| && forall j :: 0 <= j < i ==> Less(rows[j].key, key)
  }

  lemma RestartPassed(rows: seq<Row>, key: bytes, i: nat)
    requires Ordered(rows) && i < |rows| && (i > 0 ==> AtMost(rows[i].key, key))
    ensures Passed(rows, key, i)
  {
    hide Less;
    forall j | 0 <= j < i ensures Less(rows[j].key, key) {
      if rows[i].key != key {
        LessTransitive(rows[j].key, rows[i].key, key);
      }
    }
  }

  lemma FoundHere(rows: seq<Row>, key: bytes, i: nat)
    requires Ordered(rows) && i < |rows| && Passed(rows, key, i)
    ensures rows[i].key == key ==> Find(rows, key) == Some(rows[i].entry)
    ensures Less(key, rows[i].key) ==> Find(rows, key) == None
    ensures rows[i].key != key && !Less(key, rows[i].key) ==> Passed(rows, key, i + 1)
  {
    hide Less, Find;
    LessIrreflexive(key);
    if rows[i].key == key {
      FindAt(rows, i);
    } else if Less(key, rows[i].key) {
      RowsFrom(rows, i, key);
      FindAbsent(rows, key);
    } else {
      LessTotal(key, rows[i].key);
    }
  }

  lemma NotFound(rows: seq<Row>, key: bytes)
    requires Passed(rows, key, |rows|)
    ensures Find(rows, key) == None
  {
    hide Less, Find;
    FindAbsent(rows, key);
  }

  /** The key of the row a restart point names. */
  method KeyAt(block: bytes, off: nat, ghost rows: seq<Row>, ghost i: nat) returns (key: bytes)
    requires Body(rows) <= block && i < |rows| && RowFits(rows[i]) && off == Offset(rows, i)
    ensures key == rows[i].key
  {
    hide Body, GetU32, GetU64, Offset;
    BlockRowReads(rows, block, i);
    var klen := GetU32(block[off..off + 4]);
    key := block[off + ENTRY_HEADER..off + ENTRY_HEADER + klen];
  }

  lemma RowsFit(rows: seq<Row>, interval: positive)
    requires ChunkFits(rows, interval)
    ensures forall i :: 0 <= i < |rows| ==> RowFits(rows[i])
  {
    hide ChunkFits, RowFits;
    forall i | 0 <= i < |rows| ensures RowFits(rows[i]) {
      RowFitsAt(rows, interval, i);
    }
  }

  lemma RowFitsAt(rows: seq<Row>, interval: positive, i: nat)
    requires ChunkFits(rows, interval) && i < |rows|
    ensures RowFits(rows[i])
  {
    hide Body, EncodeRow, Restarts, Offset;
    RowStands(rows, i);
    RowLength(rows[i]);
  }

  lemma RowLength(r: Row)
    ensures |EncodeRow(r)| == ENTRY_HEADER + |r.key| + |r.entry.value|
  {
  }

  /** The offset of the greatest restart point whose key is at most the key sought, or of the first. */
  ghost predicate GreatestRestart(rows: seq<Row>, interval: positive, key: bytes, pos: nat) {
    var at := RestartRows(|rows|, interval);
    exists m :: 0 <= m < |at| && Narrowed(rows, at, key, m, m + 1) && pos == Offset(rows, at[m])
  }

  /** A scan from there misses nothing: every row before it sorts below the key. */
  lemma RestartIsFirst(rows: seq<Row>, interval: positive, key: bytes, pos: nat) returns (first: nat)
    requires Ordered(rows) && GreatestRestart(rows, interval, key, pos) && rows != []
    ensures first < |rows| && pos == Offset(rows, first) && Passed(rows, key, first)
  {
    hide Offset, Less, Ordered, Restarts, Passed;
    var at := RestartRows(|rows|, interval);
    var m :| 0 <= m < |at| && Narrowed(rows, at, key, m, m + 1) && pos == Offset(rows, at[m]);
    first := at[m];
    RestartTargets(rows, interval);
    RestartPassed(rows, key, first);
  }

  /** Binary search over the restart points. */
  method SearchRestarts(block: bytes, key: bytes, ghost rows: seq<Row>, ghost interval: positive) returns (pos: nat)
    requires ChunkFits(rows, interval) && Ordered(rows) && block == Block(rows, interval)
    ensures GreatestRestart(rows, interval, key, pos)
  {
    hide Body, GetU32, Offset, CrcField, Less, Ordered, Restarts, RestartRows, RowFits, CrcOk;
    BlockReads(rows, interval);
    RowsFit(rows, interval);
    ghost var at := RestartRows(|rows|, interval);
    var restartCount := GetU32(block[|block| - 8..|block| - 4]);
    var restartsOff := |block| - 8 - 4 * restartCount;
    RestartTargets(rows, interval);
    var lo, hi := 0, restartCount;
    while hi - lo > 1
      invariant lo < hi <= restartCount && Narrowed(rows, at, key, lo, hi)
      decreases hi - lo
    {
      var mid := lo + (hi - lo) / 2;
      RestartReads(rows, interval, mid, block, restartsOff + 4 * mid);
      var off := GetU32(block[restartsOff + 4 * mid..restartsOff + 4 * mid + 4]);
      var midKey := KeyAt(block, off, rows, at[mid]);
      if AtMost(midKey, key) {
        lo := mid;
      } else {
        LessTotal(key, midKey);
        hi := mid;
      }
    }
    RestartReads(rows, interval, lo, block, restartsOff + 4 * lo);
    pos := GetU32(block[restartsOff + 4 * lo..restartsOff + 4 * lo + 4]);
    assert Narrowed(rows, at, key, lo, lo + 1);
  }

  lemma RestartTargets(rows: seq<Row>, interval: positive)
    requires rows != []
    ensures var at := RestartRows(|rows|, interval);
            && |Restarts(rows, interval)| == |at| > 0 && at[0] == 0
            && (forall m :: 0 <= m < |at| ==> at[m] < |rows| && RestartTarget(rows, interval, m) == Offset(rows, at[m]))
  {
  }

  /** The walk from a restart point to the key, or past it. */
  method SearchBlock(block: bytes, key: bytes, ghost rows: seq<Row>, ghost interval: positive)
      returns (r: ReadResult<Option<Entry>>)
    requires ChunkFits(rows, interval) && Ordered(rows) && block == Block(rows, interval)
    ensures r == Good(Find(rows, key))
  {
    hide Body, GetU32, GetU64, Offset, CrcField, Less, Ordered, Restarts, Passed, Find, Block;
    var restartCount := GetU32(block[|block| - 8..|block| - 4]);
    BlockTrailer(rows, interval);
    if restartCount == 0 || 8 + 4 * restartCount > |block| {
      return Corrupt;
    }
    var entriesEnd := |block| - 8 - 4 * restartCount;
    var pos := SearchRestarts(block, key, rows, interval);
    ghost var i := RestartIsFirst(rows, interval, key, pos);
    RowsFit(rows, interval);
    while pos < entriesEnd
      invariant i <= |rows| && pos == Offset(rows, i) && Passed(rows, key, i)
      decreases |rows| - i
    {
      OffsetEnd(rows, i);
      BlockRowReads(rows, block, i);
      if pos + ENTRY_HEADER > entriesEnd {
        return Corrupt;
      }
      var klen := GetU32(block[pos..pos + 4]);
      var vlen := GetU32(block[pos + 4..pos + 8]);
      var seqno := GetU64(block[pos + 8..pos + 16]);
      var flags := block[pos + 16];
      if pos + ENTRY_HEADER + klen + vlen > entriesEnd {
        return Corrupt;
      }
      var entryKey := block[pos + ENTRY_HEADER..pos + ENTRY_HEADER + klen];
      FoundHere(rows, key, i);
      if entryKey == key {
        var value := block[pos + ENTRY_HEADER + klen..pos + ENTRY_HEADER + klen + vlen];
        return Good(Some(Entry(value, seqno, flags % 2 == 1)));
      }
      if Less(key, entryKey) {
        return Good(None);
      }
      pos := pos + ENTRY_HEADER + klen + vlen;
      i := i + 1;
    }
    OffsetEnd(rows, i);
    NotFound(rows, key);
    r := Good(None);
  }

  lemma BlockTrailer(rows: seq<Row>, interval: positive)
    requires ChunkFits(rows, interval)
    ensures var b := Block(rows, interval);
            && |b| >= 12 && Body(rows) <= b && CrcOk(b)
            && GetU32(b[|b| - 8..|b| - 4]) > 0
            && |b| == |Body(rows)| + 4 * GetU32(b[|b| - 8..|b| - 4]) + 8
  {
    hide Body, CrcField, GetU32, OffsetBytes, Put32, CrcOk;
    BlockReads(rows, interval);
    RestartTargets(rows, interval);
    var b := Block(rows, interval);
    assert b[..|Body(rows)|] == Body(rows);
  }

  /** Offsets reach the end of the rows exactly at the last one. */
  lemma OffsetEnd(rows: seq<Row>, i: nat)
    requires i <= |rows|
    ensures Offset(rows, i) < |Body(rows)| <==> i < |rows|
  {
    hide Body, EncodeRow;
    if i < |rows| {
      RowStands(rows, i);
      RowLength(rows[i]);
    } else {
      assert rows[..i] == rows;
    }
  }

  /** The footer's range check; the sum wraps at 64 bits. */
  predicate RangeInside(offset: nat, size: nat, fileSize: nat) {
    (offset + size) % U64_LIMIT <= fileSize
  }

  /** The check lets a range past the end of the file through exactly when the sum wraps far enough;
      the read that follows then fails. */
  lemma InsideUnlessWrapped(offset: nat, size: nat, fileSize: nat)
    requires offset < U64_LIMIT && size < U64_LIMIT && fileSize < U64_LIMIT
    ensures RangeInside(offset, size, fileSize)
            <==> offset + size <= fileSize
                 || 0x1_0000_0000_0000_0000 <= offset + size <= 0x1_0000_0000_0000_0000 + fileSize
  {
    if offset + size >= U64_LIMIT {
      assert (offset + size) % U64_LIMIT == offset + size - U64_LIMIT;
    }
  }

  /** What a reader accepts as a footer, over the last 40 bytes of any file. */
  ghost predicate FooterOk(file: bytes, checkVersion: bool, minFilter: nat) {
    && |file| >= 40
    && var f := file[|file| - 40..];
       && f[36..] == [0x54, 0x53, 0x53, 0x4C] && (checkVersion ==> f[32..36] == [1, 0, 0, 0])
       && RangeInside(Value(f[0..8]), Value(f[8..16]), |file|)
       && RangeInside(Value(f[16..24]), Value(f[24..32]), |file|)
       && Value(f[8..16]) >= 4 && Value(f[24..32]) >= minFilter
  }

  lemma MagicBytes(b: bytes)
    requires |b| == 4
    ensures GetU32(b) == MAGIC <==> b == [0x54, 0x53, 0x53, 0x4C]
    ensures GetU32(b) == VERSION <==> b == [1, 0, 0, 0]
  {
    U32Injective(b);
    FooterEnd();
  }

  /** Read and check the footer of any file. */
  method ReadFooter(file: bytes, checkVersion: bool, minFilter: nat) returns (r: ReadResult<(nat, nat, nat, nat)>)
    ensures r.Good? <==> FooterOk(file, checkVersion, minFilter)
    ensures r.Good? <==>
            && |file| >= 40
            && var f := file[|file| - 40..];
               && f[36..] == [0x54, 0x53, 0x53, 0x4C] && (checkVersion ==> f[32..36] == [1, 0, 0, 0])
               && (Value(f[0..8]) + Value(f[8..16])) % 0x1_0000_0000_0000_0000 <= |file|
               && (Value(f[16..24]) + Value(f[24..32])) % 0x1_0000_0000_0000_0000 <= |file|
               && Value(f[8..16]) >= 4 && Value(f[24..32]) >= minFilter
    ensures r.Good? ==>
              var f := file[|file| - 40..];
              r.value == (Value(f[0..8]), Value(f[8..16]), Value(f[16..24]), Value(f[24..32]))
  {
    hide GetU32, GetU64, Value;
    var size := |file|;
    if size < FOOTER_SIZE {
      return Corrupt;
    }
    var footer := file[size - FOOTER_SIZE..];
    MagicBytes(footer[36..40]);
    MagicBytes(footer[32..36]);
    if GetU32(footer[36..40]) != MAGIC {
      return Corrupt;
    }
    if checkVersion && GetU32(footer[32..36]) != VERSION {
      return Corrupt;
    }
    var indexOff, indexSize := GetU64(footer[0..8]), GetU64(footer[8..16]);
    var filterOff, filterSize := GetU64(footer[16..24]), GetU64(footer[24..32]);
    U64IsLittleEndian(0, footer[0..8]);
    U64IsLittleEndian(0, footer[8..16]);
    U64IsLittleEndian(0, footer[16..24]);
    U64IsLittleEndian(0, footer[24..32]);
    if !RangeInside(indexOff, indexSize, size) || !RangeInside(filterOff, filterSize, size)
       || indexSize < 4 || filterSize < minFilter {
      return Corrupt;
    }
    r := Good((indexOff, indexSize, filterOff, filterSize));
  }

  /** The footer the writer wrote is accepted, and says where its sections are. */
  lemma WrittenFooter(file: bytes, checkVersion: bool, minFilter: nat, d: nat, i: nat, f: nat)
    requires FOOTER_SIZE <= |file| < U64_LIMIT && d + i + f < |file| && i >= 4 && f >= minFilter
    requires file[|file| - FOOTER_SIZE..] == Footer(d, i, d + i, f)
    ensures FooterOk(file, checkVersion, minFilter)
    ensures var b := file[|file| - 40..];
            Value(b[0..8]) == d && Value(b[8..16]) == i && Value(b[16..24]) == d + i && Value(b[24..32]) == f
  {
    hide Footer, Value, RangeInside;
    var b := file[|file| - FOOTER_SIZE..];
    FooterLayout(d, i, d + i, f, b);
    assert b[36..] == b[32..][4..] && b[32..36] == b[32..][..4];
    InsideUnlessWrapped(d, i, |file|);
    InsideUnlessWrapped(d + i, f, |file|);
  }

  /** A change to the magic number is always noticed, and one to the version by whoever checks it. */
  lemma DamagedFooterRejected(file: bytes, at: nat, x: byte, checkVersion: bool, minFilter: nat)
    requires FooterOk(file, checkVersion, minFilter) && at < |file| && x != file[at]
    requires at + 4 >= |file| || (checkVersion && at + 8 >= |file|)
    ensures !FooterOk(file[at := x], checkVersion, minFilter)
  {
    hide Value, RangeInside;
    var n := |file| - 40;
    var changed := file[at := x];
    if at + 4 >= |file| {
      assert changed[n..][36..][at - n - 36] == x && file[n..][36..][at - n - 36] == file[at];
    } else {
      assert changed[n..][32..36][at - n - 32] == x && file[n..][32..36][at - n - 32] == file[at];
    }
  }

  // ----- the sparse index -----

  ghost predicate IndexFits(index: seq<IndexEntry>) {
    forall i :: 0 <= i < |index| ==> IndexEntryFits(index[i])
  }

  /** Entries in front of what the rest spells out. */
  function Before(entries: seq<IndexEntry>, rest: Option<seq<IndexEntry>>): Option<seq<IndexEntry>> {
    if rest.None? then None else Some(entries + rest.value)
  }

  function Parsed<T>(parsed: Option<T>): ReadResult<T> {
    if parsed.None? then Corrupt else Good(parsed.value)
  }

  /** The loop's step over the rest of an index. */
  lemma NextEntry(b: bytes, pos: nat, entries: seq<IndexEntry>)
    requires pos < |b|
    ensures |b| - pos < 4 ==> IndexOf(b[pos..]) == None
    ensures |b| - pos >= 4 ==>
              var n := GetU32(b[pos..pos + 4]);
              if pos + 16 + n > |b| then IndexOf(b[pos..]) == None
              else
                var e := IndexEntry(b[pos + 4..pos + 4 + n], GetU64(b[pos + 4 + n..pos + 12 + n]),
                                    GetU32(b[pos + 12 + n..pos + 16 + n]));
                Before(entries, IndexOf(b[pos..])) == Before(entries + [e], IndexOf(b[pos + 16 + n..]))
  {
    hide GetU32, GetU64;
    var c := b[pos..];
    if |c| >= 4 {
      assert c[..4] == b[pos..pos + 4];
      var n := GetU32(c[..4]);
      if 16 + n <= |c| {
        assert c[4..4 + n] == b[pos + 4..pos + 4 + n] && c[4 + n..12 + n] == b[pos + 4 + n..pos + 12 + n];
        assert c[12 + n..16 + n] == b[pos + 12 + n..pos + 16 + n] && c[16 + n..] == b[pos + 16 + n..];
        var e := IndexEntry(c[4..4 + n], GetU64(c[4 + n..12 + n]), GetU32(c[12 + n..16 + n]));
        var rest := IndexOf(c[16 + n..]);
        assert rest.Some? ==> entries + ([e] + rest.value) == (entries + [e]) + rest.value;
      }
    }
  }

  lemma EmptyIndex()
    ensures IndexOf([]) == Some([])
  {
  }

  /** Check and parse any index block. */
  method ParseIndex(block: bytes) returns (r: ReadResult<seq<IndexEntry>>)
    requires |block| >= 4
    ensures r == if CrcOk(block) then Parsed(IndexOf(block[..|block| - 4])) else Corrupt
  {
    hide GetU32, GetU64, CrcField, CrcOk, IndexOf;
    var ok := CheckCrc(block);
    if !ok {
      return Corrupt;
    }
    var end := |block| - 4;
    ghost var body := block[..end];
    var pos, entries := 0, [];
    EmptyIndex();
    assert body[0..] == body;
    assert IndexOf(body).Some? ==> [] + IndexOf(body).value == IndexOf(body).value;
    while pos < end
      invariant pos <= end
      invariant IndexOf(body) == Before(entries, IndexOf(body[pos..]))
    {
      NextEntry(body, pos, entries);
      if pos + 4 > end {
        return Corrupt;
      }
      var keyLen := GetU32(block[pos..pos + 4]);
      assert block[pos..pos + 4] == body[pos..pos + 4];
      if pos + 4 + keyLen + 12 > end {
        return Corrupt;
      }
      SameParts(block, body, pos, keyLen);
      var firstKey := block[pos + 4..pos + 4 + keyLen];
      var offset := GetU64(block[pos + 4 + keyLen..pos + 12 + keyLen]);
      var size := GetU32(block[pos + 12 + keyLen..pos + 16 + keyLen]);
      entries := entries + [IndexEntry(firstKey, offset, size)];
      pos := pos + 16 + keyLen;
    }
    assert body[pos..] == [] && entries + [] == entries;
    r := Good(entries);
  }

  lemma SameParts(block: bytes, body: bytes, pos: nat, n: nat)
    requires body <= block && pos + 16 + n <= |body|
    ensures block[pos + 4..pos + 4 + n] == body[pos + 4..pos + 4 + n]
    ensures block[pos + 4 + n..pos + 12 + n] == body[pos + 4 + n..pos + 12 + n]
    ensures block[pos + 12 + n..pos + 16 + n] == body[pos + 12 + n..pos + 16 + n]
  {
  }

  /** The index the writer encoded is read back from its block. */
  lemma WrittenIndex(index: seq<IndexEntry>)
    requires IndexFits(index)
    ensures var b := IndexBlock(index);
            |b| >= 4 && CrcOk(b) && IndexOf(b[..|b| - 4]) == Some(index)
  {
    hide CrcField, IndexBody, IndexOf, CrcOk;
    var b := IndexBlock(index);
    WithCrcOk(IndexBody(index));
    assert b[..|b| - 4] == IndexBody(index);
    IndexOfBody(index);
  }

  ghost predicate KeysRise(index: seq<IndexEntry>) {
    forall i, j :: 0 <= i < j < |index| ==> Less(index[i].firstKey, index[j].firstKey)
  }

  /** The number of entries whose first key is at most the key. */
  method UpperBound(index: seq<IndexEntry>, key: bytes) returns (n: nat)
    requires KeysRise(index)
    ensures n <= |index|
    ensures n > 0 ==> AtMost(index[n - 1].firstKey, key)
    ensures n < |index| ==> Less(key, index[n].firstKey)
  {
    hide Less;
    var lo, hi := 0, |index|;
    while lo < hi
      invariant 0 <= lo <= hi <= |index|
      invariant lo > 0 ==> AtMost(index[lo - 1].firstKey, key)
      invariant hi < |index| ==> Less(key, index[hi].firstKey)
    {
      var mid := lo + (hi - lo) / 2;
      if Less(key, index[mid].firstKey) {
        hi := mid;
      } else {
        LessTotal(key, index[mid].firstKey);
        lo := mid + 1;
      }
    }
    n := lo;
  }

  // ----- the reader -----

  /** The block a lookup would read: the last whose first key is at most the key. */
  ghost predicate Target(chunks: seq<seq<Row>>, key: bytes, j: nat) {
    && j < |chunks| && AtMost(FirstKey(chunks[j]), key)
    && (j + 1 < |chunks| ==> Less(key, FirstKey(chunks[j + 1])))
  }

  ghost predicate OnlyTarget(chunks: seq<seq<Row>>, key: bytes, j: nat) {
    Target(chunks, key, j) && forall i :: Target(chunks, key, i) ==> i == j
  }

  ghost predicate BlockDamaged(file: bytes, s: Spec, j: nat)
    requires j < |s.chunks|
  {
    var e := TheIndex(s)[j];
    e.offset + e.size <= |file| && file[e.offset..e.offset + e.size] != Block(s.chunks[j], s.interval)
  }

  /** Cached blocks of this table are the blocks that were written. */
  ghost predicate CacheAgrees(index: map<CacheKey, Node>, id: nat, s: Spec) {
    |TheIndex(s)| == |s.chunks| &&
    forall j :: 0 <= j < |s.chunks| ==>
      var k := CacheKey(id, TheIndex(s)[j].offset);
      k in index ==> index[k].block == Block(s.chunks[j], s.interval)
  }

  // ----- what the reader may rely on -----

  lemma ChunksFull(s: Spec)
    requires Genuine(s)
    ensures AllChunksFull(s.chunks) && s.chunks != []
    ensures Flatten(s.chunks) != [] && Flatten(s.chunks)[0].key == FirstKey(s.chunks[0])
  {
    hide Block, Flatten, File, ProbesSet, Sized, Ordered;
    forall j | 0 <= j < |s.chunks| ensures s.chunks[j] != [] {
      assert ChunkFits(s.chunks[j], s.interval);
    }
    FirstRow(s.chunks);
  }

  lemma IndexKeysRise(s: Spec)
    requires Genuine(s)
    ensures |TheIndex(s)| == |s.chunks| && KeysRise(TheIndex(s))
  {
    hide Block, Flatten, File, ProbesSet, Sized, Ordered, Index, Blocks, Less, ChunkFits;
    ChunksFull(s);
    var index := TheIndex(s);
    forall i, j | 0 <= i < j < |index| ensures Less(index[i].firstKey, index[j].firstKey) {
      IndexAt(s.chunks, s.interval, i);
      IndexAt(s.chunks, s.interval, j);
      FirstKeysRise(s.chunks, i, j);
    }
  }

  ghost function IndexBytes(s: Spec): bytes
  {
    IndexBlock(TheIndex(s))
  }

  ghost function FilterBytes(s: Spec): bytes {
    FilterBlock(s.bloom, s.numKeys)
  }

  lemma SectionSizes(s: Spec)
    requires Genuine(s)
    ensures |Image(s)| == |Data(s)| + |IndexBytes(s)| + |FilterBytes(s)| + FOOTER_SIZE < U64_LIMIT
    ensures |IndexBytes(s)| >= 4 && |FilterBytes(s)| == 24 + |s.bloom.bits|
  {
    hide Blocks, Index, IndexBody, FilterBlock, Footer, ProbesSet, Ordered, ChunkFits, Sized, CrcField;
    Sections(s, Data(s), IndexBytes(s), FilterBytes(s), Image(s));
  }

  ghost function Slice(file: bytes, from: nat, size: nat): (r: bytes)
    ensures from + size <= |file| ==> |r| == size
  {
    if from + size <= |file| then file[from..from + size] else []
  }

  /** What stands in a file where the index and the filter belong. */
  ghost function IndexSlice(file: bytes, s: Spec): bytes {
    Slice(file, |Data(s)|, |IndexBytes(s)|)
  }

  ghost function FilterSlice(file: bytes, s: Spec): bytes {
    Slice(file, |Data(s)| + |IndexBytes(s)|, |FilterBytes(s)|)
  }

  ghost predicate IndexIntact(file: bytes, s: Spec) {
    IndexSlice(file, s) == IndexBytes(s)
  }

  ghost predicate FilterIntact(file: bytes, s: Spec) {
    FilterSlice(file, s) == FilterBytes(s)
  }

  /** The sections have the sizes the footer records, and check exactly when they are intact. */
  ghost predicate SectionsChecked(file: bytes, s: Spec) {
    && |file| == |Data(s)| + |IndexBytes(s)| + |FilterBytes(s)| + FOOTER_SIZE < U64_LIMIT
    && |IndexBytes(s)| == |IndexSlice(file, s)| >= 4
    && |FilterBytes(s)| == |FilterSlice(file, s)| == 24 + |s.bloom.bits|
    && (CrcOk(IndexSlice(file, s)) <==> IndexIntact(file, s))
    && (CrcOk(FilterSlice(file, s)) <==> FilterIntact(file, s))
    && file[|file| - FOOTER_SIZE..] == Footer(|Data(s)|, |IndexBytes(s)|, |Data(s)| + |IndexBytes(s)|, |FilterBytes(s)|)
  }

  /** In a copy the footer is intact, and the index and the filter check exactly when they are. */
  lemma SectionsOfCopy(file: bytes, s: Spec, damage: nat)
    requires Genuine(s) && DamagedCopy(file, s, damage)
    ensures SectionsChecked(file, s)
  {
    hide Data, IndexBytes, FilterBytes, Footer, Image, Genuine, CrcOk;
    SectionSizes(s);
    SectionsOf(s);
    SectionsCheck(s);
    var d, i, f := |Data(s)|, |IndexBytes(s)|, |FilterBytes(s)|;
    var image := Image(s);
    DamagedSection(file, image, damage, d, i);
    DamagedSection(file, image, damage, d + i, f);
    DamagedRange(file, image, damage, d + i + f, FOOTER_SIZE);
    assert file[d + i + f..d + i + f + FOOTER_SIZE] == file[|file| - FOOTER_SIZE..];
    assert image[d + i + f..d + i + f + FOOTER_SIZE] == image[|image| - FOOTER_SIZE..];
  }

  lemma SectionsCheck(s: Spec)
    ensures CrcOk(IndexBytes(s)) && CrcOk(FilterBytes(s))
  {
    hide CrcOk, IndexBody, CrcField, Put32, Put64, TheIndex;
    WithCrcOk(IndexBody(TheIndex(s)));
    FilterCrcOk(s.bloom, s.numKeys);
  }

  /** A checked stretch of a copy still checks exactly when nothing in it was changed. */
  lemma DamagedSection(file: bytes, image: bytes, damage: nat, from: nat, size: nat)
    requires SameButFor(file, image, damage) && from + size <= |file| && CrcOk(image[from..from + size])
    ensures CrcOk(file[from..from + size]) <==> file[from..from + size] == image[from..from + size]
  {
    hide CrcOk;
    DamagedRange(file, image, damage, from, size);
    var block := image[from..from + size];
    if from <= damage < from + size && file[damage] != image[damage] {
      ChangedBlockRejected(block, damage - from, file[damage]);
      assert file[from..from + size][damage - from] != block[damage - from];
    } else if from <= damage < from + size {
      assert block[damage - from := file[damage]] == block;
    }
  }

  lemma SectionsOf(s: Spec)
    ensures var d, i, f := |Data(s)|, |IndexBytes(s)|, |FilterBytes(s)|;
            && |Image(s)| == d + i + f + FOOTER_SIZE
            && Image(s)[..d] == Data(s) && Image(s)[d..d + i] == IndexBytes(s)
               && Image(s)[d + i..d + i + f] == FilterBytes(s)
            && Image(s)[|Image(s)| - FOOTER_SIZE..] == Footer(d, i, d + i, f)
  {
    hide Blocks, Index, IndexBlock, FilterBlock, Footer, File;
    Sections(s, Data(s), IndexBytes(s), FilterBytes(s), Image(s));
  }

  lemma BlockInImage(s: Spec, j: nat, e: IndexEntry)
    requires Genuine(s) && j < |TheIndex(s)| == |s.chunks| && e == TheIndex(s)[j]
    ensures e.offset + e.size <= |Data(s)| <= |Image(s)| && e.size == |Block(s.chunks[j], s.interval)|
    ensures Image(s)[e.offset..e.offset + e.size] == Block(s.chunks[j], s.interval)
  {
    hide Block, Blocks, Index, Footer, Flatten, Ordered, ProbesSet, Sized, File, ChunkFits, IndexBlock, FilterBlock;
    BlockStands(s.chunks, s.interval, j, e);
    SectionsOf(s);
    assert Image(s)[..|Data(s)|][e.offset..e.offset + e.size] == Image(s)[e.offset..e.offset + e.size];
  }

  lemma GenuineChunk(s: Spec, j: nat)
    requires Genuine(s) && j < |s.chunks|
    ensures ChunkFits(s.chunks[j], s.interval) && Ordered(s.chunks[j])
    ensures CrcOk(Block(s.chunks[j], s.interval)) && |Block(s.chunks[j], s.interval)| >= 12
  {
    hide Block, Flatten, Ordered, ProbesSet, Sized, File, ChunkFits;
    ChunkOrdered(s.chunks, j);
    BlockTrailer(s.chunks[j], s.interval);
  }

  lemma EntryFits(s: Spec, j: nat, e: IndexEntry)
    requires Genuine(s) && j < |TheIndex(s)| == |s.chunks| && e == TheIndex(s)[j]
    ensures IndexEntryFits(e)
  {
    hide Genuine, TheIndex, Block, Data, Image, Ordered, CrcOk, ChunkFits, FirstKey;
    SectionSizes(s);
    BlockInImage(s, j, e);
    GenuineChunk(s, j);
    FirstKeyFits(s.chunks[j], s.interval);
    FirstKeyAt(s, j);
  }

  lemma FirstKeyFits(rows: seq<Row>, interval: positive)
    requires ChunkFits(rows, interval)
    ensures |FirstKey(rows)| < U32_LIMIT && |Block(rows, interval)| < U32_LIMIT
  {
    hide Block;
    RowsFit(rows, interval);
    assert RowFits(rows[0]);
  }

  lemma IndexEntriesFit(s: Spec)
    requires Genuine(s)
    ensures IndexFits(TheIndex(s))
  {
    hide Genuine, TheIndex, IndexEntryFits, KeysRise;
    IndexKeysRise(s);
    forall j | 0 <= j < |TheIndex(s)| ensures IndexEntryFits(TheIndex(s)[j]) {
      EntryFits(s, j, TheIndex(s)[j]);
    }
  }

  lemma FirstKeyAt(s: Spec, j: nat)
    requires j < |s.chunks|
    ensures TheIndex(s)[j].firstKey == FirstKey(s.chunks[j])
  {
    hide Block, Blocks, Index;
    IndexAt(s.chunks, s.interval, j);
  }

  /** A block read from a copy is the written block, or one whose checksum fails. */
  lemma BlockFromCopy(file: bytes, s: Spec, damage: nat, j: nat, e: IndexEntry, raw: bytes)
    requires Genuine(s) && DamagedCopy(file, s, damage) && j < |TheIndex(s)| == |s.chunks| && e == TheIndex(s)[j]
    requires e.offset + e.size <= |file| ==> raw == file[e.offset..e.offset + e.size]
    ensures e.offset + e.size <= |file| && |raw| == e.size >= 12
    ensures CrcOk(raw) <==> raw == Block(s.chunks[j], s.interval)
  {
    hide Genuine, Block, TheIndex, Data, CrcOk, Image;
    BlockInImage(s, j, e);
    GenuineChunk(s, j);
    var image := Image(s);
    DamagedRange(file, image, damage, e.offset, e.size);
    var block := Block(s.chunks[j], s.interval);
    if raw != block && CrcOk(raw) {
      assert raw == block[damage - e.offset := file[damage]];
      ChangedBlockRejected(block, damage - e.offset, file[damage]);
    }
  }

  class TableReader {
    const file: bytes
    const id: nat
    const minKey: bytes
    const maxKey: bytes
    const cacheIndexBlocks: bool
    var footerLoaded: bool
    var indexOff: nat
    var indexSize: nat
    var filterOff: nat
    var filterSize: nat
    var index: seq<IndexEntry>
    var indexPinned: bool
    var bloomBits: bytes
    var bloomNumBits: nat
    var bloomNumHashes: nat
    ghost const spec: Spec
    ghost const damage: nat

    /** The file is the written table, with at most one byte before the footer changed. */
    ghost predicate Sound() {
      && Genuine(spec) && DamagedCopy(file, spec, damage)
      && Flatten(spec.chunks) != []
      && minKey == Flatten(spec.chunks)[0].key && maxKey == Flatten(spec.chunks)[|Flatten(spec.chunks)| - 1].key
    }

    /** Whatever has been loaded so far is what the file holds. */
    ghost predicate Valid()
      reads this
    {
      && Sound()
      && (footerLoaded ==> indexOff == |Data(spec)| && indexSize == |IndexBytes(spec)|
                           && filterOff == indexOff + indexSize && filterSize == |FilterBytes(spec)|)
      && (indexPinned ==> index == TheIndex(spec))
      && (bloomBits != [] ==> Bloom(bloomNumBits, bloomNumHashes, bloomBits) == spec.bloom)
    }

    constructor (file: bytes, id: nat, minKey: bytes, maxKey: bytes, cacheIndexBlocks: bool,
                 ghost spec: Spec, ghost damage: nat)
      requires Genuine(spec) && DamagedCopy(file, spec, damage) && Flatten(spec.chunks) != []
      requires minKey == Flatten(spec.chunks)[0].key && maxKey == Flatten(spec.chunks)[|Flatten(spec.chunks)| - 1].key
      ensures Valid() && this.file == file && this.id == id && this.spec == spec && this.damage == damage
      ensures this.cacheIndexBlocks == cacheIndexBlocks && !footerLoaded && !indexPinned && bloomBits == []
    {
      hide Genuine, DamagedCopy, Flatten;
      this.file, this.id, this.minKey, this.maxKey := file, id, minKey, maxKey;
      this.cacheIndexBlocks := cacheIndexBlocks;
      this.spec, this.damage := spec, damage;
      footerLoaded, indexPinned := false, false;
      indexOff, indexSize, filterOff, filterSize := 0, 0, 0, 0;
      index, bloomBits, bloomNumBits, bloomNumHashes := [], [], 0, 0;
    }

    lemma SoundFacts()
      requires Sound()
      ensures Genuine(spec) && DamagedCopy(file, spec, damage)
    {
    }

    method LoadFooter() returns (r: ReadResult<()>)
      requires Valid()
      modifies this
      ensures Valid() && r == Good(()) && footerLoaded
      ensures indexPinned == old(indexPinned) && bloomBits == old(bloomBits)
    {
      hide Sound, Genuine, DamagedCopy, Data, IndexBytes, FilterBytes, TheIndex, Footer, CrcOk, IndexSlice, FilterSlice,
        IndexIntact, FilterIntact;
      SoundFacts();
      SectionsOfCopy(file, spec, damage);
      WrittenFooter(file, true, 24, |Data(spec)|, |IndexBytes(spec)|, |FilterBytes(spec)|);
      var sections := ReadFooter(file, true, 24);
      match sections {
        case Corrupt =>
          r := Corrupt;
        case Good(s) =>
          indexOff, indexSize, filterOff, filterSize := s.0, s.1, s.2, s.3;
          footerLoaded := true;
          r := Good(());
      }
    }

    /** A damaged index block is rejected. */
    method LoadIndex() returns (r: ReadResult<seq<IndexEntry>>)
      requires Valid() && footerLoaded
      ensures r == if IndexIntact(file, spec) then Good(TheIndex(spec)) else Corrupt
    {
      hide Sound, Genuine, DamagedCopy, Data, FilterBytes, TheIndex, CrcOk, Footer, FilterSlice, IndexBlock;
      SoundFacts();
      SectionsOfCopy(file, spec, damage);
      IndexEntriesFit(spec);
      var block := ReadRange(file, indexOff, indexSize);
      match block {
        case Corrupt =>
          r := Corrupt;
        case Good(b) =>
          WrittenIndex(TheIndex(spec));
          r := ParseIndex(b);
      }
    }

    /** A damaged filter block is rejected, and nothing is loaded from it. */
    method LoadBloom() returns (r: ReadResult<()>)
      requires Valid() && footerLoaded
      modifies this
      ensures Valid() && footerLoaded && indexPinned == old(indexPinned)
      ensures r == if FilterIntact(file, spec) then Good(()) else Corrupt
      ensures r.Good? ==> Bloom(bloomNumBits, bloomNumHashes, bloomBits) == spec.bloom
    {
      hide Sound, Genuine, DamagedCopy, Data, IndexBytes, TheIndex, FilterBlock, GetU64, GetU32, CrcOk, Footer,
        IndexSlice;
      SoundFacts();
      SectionsOfCopy(file, spec, damage);
      var read := ReadRange(file, filterOff, filterSize);
      if read.Corrupt? {
        return Corrupt;
      }
      var block := read.value;
      BloomFacts(spec);
      var ok := CheckCrc(block);
      if !ok {
        return Corrupt;
      }
      FilterReads(spec.bloom, spec.numKeys, block);
      var numBits, numHashes := GetU64(block[0..8]), GetU32(block[8..12]);
      var bitBytes := (numBits + 7) / 8;
      if numBits == 0 || numHashes == 0 || 20 + bitBytes + 4 != filterSize {
        return Corrupt;
      }
      bloomNumBits, bloomNumHashes, bloomBits := numBits, numHashes, block[20..20 + bitBytes];
      r := Good(());
    }

    /** The block at an index entry: from the cache, or from disk and then into the cache. */
    method FetchBlock(e: IndexEntry, ghost j: nat, cache: BlockCache) returns (r: ReadResult<bytes>)
      requires Valid() && j < |TheIndex(spec)| == |spec.chunks| && e == TheIndex(spec)[j]
      requires cache.Valid() && CacheAgrees(cache.index, id, spec)
      modifies cache
      ensures Valid() && cache.Valid() && CacheAgrees(cache.index, id, spec)
      ensures r == Good(Block(spec.chunks[j], spec.interval)) || (r == Corrupt && BlockDamaged(file, spec, j))
      ensures var node := Node(CacheKey(id, e.offset), Block(spec.chunks[j], spec.interval));
              if node.key in old(cache.index) then r.Good? && cache.lru == [node] + WithoutNode(old(cache.lru), node)
              else r.Good? ==> LongestFit(cache.lru, [node] + old(cache.lru), cache.capacity)
      ensures BlockDamaged(file, spec, j) && CacheKey(id, e.offset) !in old(cache.index) ==> r == Corrupt
      ensures forall k :: k in cache.index && k.table != id ==>
              k in old(cache.index) && cache.index[k] == old(cache.index)[k]
    {
      hide Sound, Genuine, DamagedCopy, Data, IndexBytes, FilterBytes, Block, TheIndex, CrcOk;
      SoundFacts();
      var key := CacheKey(id, e.offset);
      var cached := cache.Find(key);
      if cached.Some? {
        CachedBlock(cache.index, id, spec, j, e);
        return Good(cached.value);
      }
      var read := ReadRange(file, e.offset, e.size);
      BlockFromCopy(file, spec, damage, j, e, if read.Good? then read.value else []);
      if read.Corrupt? {
        return Corrupt;
      }
      var raw := read.value;
      if e.size < 12 {
        return Corrupt;
      }
      var ok := CheckCrc(raw);
      if !ok {
        return Corrupt;
      }
      ghost var before := cache.index;
      cache.Insert(key, raw);
      CacheStillAgrees(before, cache.index, id, spec, j, e);
      r := Good(raw);
    }

    /** Range check and filter: true when the key is certainly not in the table. */
    method Excludes(key: bytes) returns (r: ReadResult<bool>)
      requires Valid()
      modifies this
      ensures Valid() && (r.Corrupt? ==> !FilterIntact(file, spec))
      ensures r.Good? && r.value ==> Find(Flatten(spec.chunks), key) == None
      ensures r.Good? && !r.value ==> footerLoaded
      ensures r.Good? ==>
                (r.value <==> Less(key, minKey) || Less(maxKey, key)
                              || (Sized(spec.bloom.bits, spec.bloom.numBits)
                                  && !ProbesSet(spec.bloom.bits, spec.bloom.numBits, key, spec.bloom.numHashes)))
      ensures indexPinned == old(indexPinned)
    {
      hide Sound, Genuine, Less, Find, TheIndex, Flatten, Data, IndexBytes, FilterBytes, DamagedCopy, FilterIntact;
      RangeFacts(key);
      if Less(key, minKey) || Less(maxKey, key) {
        return Good(true);
      }
      if !footerLoaded {
        var loaded := LoadFooter();
        if loaded.Corrupt? {
          return Corrupt;
        }
      }
      if bloomBits == [] {
        var loaded := LoadBloom();
        if loaded.Corrupt? {
          return Corrupt;
        }
      }
      FilterFacts(key);
      var may := MayContain(bloomBits, bloomNumBits, bloomNumHashes, key);
      r := Good(!may);
    }

    /** The parsed index, pinned after the first use if so configured. */
    method Entries() returns (r: ReadResult<seq<IndexEntry>>)
      requires Valid() && footerLoaded
      modifies this
      ensures Valid() && (r == Good(TheIndex(spec)) || (r == Corrupt && !IndexIntact(file, spec)))
      ensures indexPinned == (old(indexPinned) || (cacheIndexBlocks && r.Good?)) && (old(indexPinned) ==> r.Good?)
    {
      hide Sound, Genuine, TheIndex, Data, IndexBytes, FilterBytes, DamagedCopy, IndexIntact;
      if indexPinned {
        return Good(index);
      }
      r := LoadIndex();
      if r.Good? && cacheIndexBlocks {
        index := r.value;
        indexPinned := true;
      }
    }

    method LookUp(entries: seq<IndexEntry>, key: bytes, cache: BlockCache) returns (r: ReadResult<Option<Entry>>)
      requires Valid() && entries == TheIndex(spec)
      requires cache.Valid() && CacheAgrees(cache.index, id, spec)
      modifies cache
      ensures Valid() && cache.Valid() && CacheAgrees(cache.index, id, spec)
      ensures Answered(r, key, old(cache.index))
      ensures forall k :: k in cache.index && k.table != id ==>
              k in old(cache.index) && cache.index[k] == old(cache.index)[k]
    {
      hide Sound, Genuine, DamagedCopy, Less, Find, Block, TheIndex, Flatten, CacheAgrees, BlockDamaged, OnlyTarget,
        Data, IndexBytes, FilterBytes, Answered, ChunkFits, Ordered;
      SoundFacts();
      IndexKeysRise(spec);
      var n := UpperBound(entries, key);
      TargetFacts(spec, key, n);
      ghost var cached := cache.index;
      if n == 0 {
        NoTarget(key, cached);
        return Good(None);
      }
      var block := FetchBlock(entries[n - 1], n - 1, cache);
      if block.Corrupt? {
        DamagedTarget(key, cached, n - 1);
        return Corrupt;
      }
      r := SearchTarget(block.value, key, n - 1, cached);
    }

    method SearchTarget(block: bytes, key: bytes, ghost j: nat, ghost cached: map<CacheKey, Node>)
        returns (r: ReadResult<Option<Entry>>)
      requires Valid() && j < |spec.chunks| == |TheIndex(spec)| && OnlyTarget(spec.chunks, key, j)
      requires Find(Flatten(spec.chunks), key) == Find(spec.chunks[j], key)
      requires block == Block(spec.chunks[j], spec.interval)
      requires BlockDamaged(file, spec, j) ==> CacheKey(id, TheIndex(spec)[j].offset) in cached
      ensures Answered(r, key, cached)
    {
      hide Genuine, DamagedCopy, Find, Block, TheIndex, Flatten, BlockDamaged, OnlyTarget, Answered, ChunkFits, Ordered,
        CrcOk;
      SoundFacts();
      GenuineChunk(spec, j);
      r := SearchBlock(block, key, spec.chunks[j], spec.interval);
      SoundTarget(key, cached, j, r);
    }

    /** What the memtable answered, unless something that has to be read is damaged. */
    ghost predicate Answered(r: ReadResult<Option<Entry>>, key: bytes, cached: map<CacheKey, Node>) {
      && (r == Good(Find(Flatten(spec.chunks), key))
          || (r == Corrupt && (ReadsDamage(file, spec, key) || !IndexIntact(file, spec) || !FilterIntact(file, spec))))
      && (ReadsDamage(file, spec, key) && NotCached(cached, id, spec, key) ==> r == Corrupt || r == Good(None))
    }

    lemma DamagedSections(key: bytes, cached: map<CacheKey, Node>)
      requires !IndexIntact(file, spec) || !FilterIntact(file, spec)
      ensures Answered(Corrupt, key, cached)
    {
      hide ReadsDamage, IndexIntact, FilterIntact, NotCached;
    }

    lemma NoTarget(key: bytes, cached: map<CacheKey, Node>)
      requires Find(Flatten(spec.chunks), key) == None
      ensures Answered(Good(None), key, cached)
    {
    }

    lemma DamagedTarget(key: bytes, cached: map<CacheKey, Node>, j: nat)
      requires j < |spec.chunks| == |TheIndex(spec)| && OnlyTarget(spec.chunks, key, j) && BlockDamaged(file, spec, j)
      ensures Answered(Corrupt, key, cached)
    {
      hide Target, BlockDamaged, TheIndex, Find, Flatten, NotCached;
    }

    lemma SoundTarget(key: bytes, cached: map<CacheKey, Node>, j: nat, r: ReadResult<Option<Entry>>)
      requires j < |spec.chunks| == |TheIndex(spec)| && OnlyTarget(spec.chunks, key, j)
      requires r == Good(Find(Flatten(spec.chunks), key))
      requires BlockDamaged(file, spec, j) ==> CacheKey(id, TheIndex(spec)[j].offset) in cached
      ensures Answered(r, key, cached)
    {
      hide Target, BlockDamaged, TheIndex, Find, Flatten;
    }

    /** Point lookup. It answers what the memtable answered, unless it had to read something damaged. */
    method Get(key: bytes, cache: BlockCache) returns (r: ReadResult<Option<Entry>>)
      requires Valid() && cache.Valid() && CacheAgrees(cache.index, id, spec)
      modifies this, cache
      ensures Valid() && cache.Valid() && CacheAgrees(cache.index, id, spec)
      ensures Answered(r, key, old(cache.index))
      ensures forall k :: k in cache.index && k.table != id ==>
              k in old(cache.index) && cache.index[k] == old(cache.index)[k]
    {
      hide Sound, Genuine, Find, TheIndex, Flatten, CacheAgrees, Answered, DamagedCopy, Data, IndexBytes, FilterBytes,
        IndexIntact, FilterIntact;
      var excluded := Excludes(key);
      if excluded.Corrupt? {
        DamagedSections(key, cache.index);
        return Corrupt;
      }
      if excluded.value {
        NoTarget(key, cache.index);
        return Good(None);
      }
      var entries := Entries();
      if entries.Corrupt? {
        DamagedSections(key, cache.index);
        return Corrupt;
      }
      r := LookUp(entries.value, key, cache);
    }

    lemma RangeFacts(key: bytes)
      requires Sound()
      ensures Less(key, minKey) || Less(maxKey, key) ==> Find(Flatten(spec.chunks), key) == None
    {
      hide Genuine, Less, Find, Flatten;
      ChunksFull(spec);
      OrderedRows(spec);
      FindOutside(Flatten(spec.chunks), key);
    }

    lemma FilterFacts(key: bytes)
      requires Sound() && Bloom(bloomNumBits, bloomNumHashes, bloomBits) == spec.bloom
      ensures Sized(bloomBits, bloomNumBits)
      ensures !ProbesSet(bloomBits, bloomNumBits, key, bloomNumHashes) ==> Find(Flatten(spec.chunks), key) == None
    {
      hide Genuine, Less, Find, Flatten, ProbesSet;
      BloomFacts(spec);
      FilterExcludes(Flatten(spec.chunks), spec.bloom, key);
    }
  }

  /** The block the key belongs to has been changed on disk. */
  ghost predicate ReadsDamage(file: bytes, s: Spec, key: bytes) {
    exists j :: 0 <= j < |s.chunks| && Target(s.chunks, key, j) && |TheIndex(s)| == |s.chunks|
                && BlockDamaged(file, s, j)
  }

  ghost predicate NotCached(index: map<CacheKey, Node>, id: nat, s: Spec, key: bytes) {
    |TheIndex(s)| == |s.chunks| &&
    forall j :: 0 <= j < |s.chunks| && Target(s.chunks, key, j) ==> CacheKey(id, TheIndex(s)[j].offset) !in index
  }

  lemma OrderedRows(s: Spec)
    requires Genuine(s)
    ensures Ordered(Flatten(s.chunks))
  {
  }

  lemma FilterExcludes(rows: seq<Row>, bloom: Bloom, key: bytes)
    requires Sized(bloom.bits, bloom.numBits)
    requires forall i :: 0 <= i < |rows| ==> ProbesSet(bloom.bits, bloom.numBits, rows[i].key, bloom.numHashes)
    ensures !ProbesSet(bloom.bits, bloom.numBits, key, bloom.numHashes) ==> Find(rows, key) == None
  {
    hide ProbesSet, Find;
    if !ProbesSet(bloom.bits, bloom.numBits, key, bloom.numHashes) {
      FindNone(rows, key);
    }
  }

  /** The index search finds the one block that can hold the key. */
  lemma TargetFacts(s: Spec, key: bytes, n: nat)
    requires Genuine(s) && n <= |TheIndex(s)| == |s.chunks|
    requires n > 0 ==> AtMost(TheIndex(s)[n - 1].firstKey, key)
    requires n < |s.chunks| ==> Less(key, TheIndex(s)[n].firstKey)
    ensures n == 0 ==> Find(Flatten(s.chunks), key) == None
    ensures n > 0 ==> OnlyTarget(s.chunks, key, n - 1) && Find(Flatten(s.chunks), key) == Find(s.chunks[n - 1], key)
  {
    hide Genuine, Less, Find, Flatten, TheIndex;
    ChunksFull(s);
    OrderedRows(s);
    if n > 0 {
      FirstKeyAt(s, n - 1);
    }
    if n < |s.chunks| {
      FirstKeyAt(s, n);
    }
    if n == 0 {
      FindOutside(Flatten(s.chunks), key);
    } else {
      FindInChunk(s.chunks, key, n - 1);
    }
    forall j | Target(s.chunks, key, j) ensures j == n - 1 {
      TargetUnique(s.chunks, key, j, n);
    }
  }

  lemma AtMostLess(a: bytes, b: bytes, c: bytes)
    requires AtMost(a, b) && Less(b, c)
    ensures Less(a, c)
  {
    if a != b {
      LessTransitive(a, b, c);
    }
  }

  lemma TargetUnique(chunks: seq<seq<Row>>, key: bytes, j: nat, n: nat)
    requires Ordered(Flatten(chunks)) && AllChunksFull(chunks) && Target(chunks, key, j) && n <= |chunks|
    requires n > 0 ==> AtMost(FirstKey(chunks[n - 1]), key)
    requires n < |chunks| ==> Less(key, FirstKey(chunks[n]))
    ensures j == n - 1
  {
    hide Less, Flatten, Ordered;
    if j >= n {
      AtMostLess(FirstKey(chunks[j]), key, FirstKey(chunks[n]));
      if j > n {
        FirstKeysRise(chunks, n, j);
        LessTransitive(FirstKey(chunks[j]), FirstKey(chunks[n]), FirstKey(chunks[j]));
      }
      LessIrreflexive(FirstKey(chunks[j]));
    } else if j < n - 1 {
      AtMostLess(FirstKey(chunks[n - 1]), key, FirstKey(chunks[j + 1]));
      if j + 1 < n - 1 {
        FirstKeysRise(chunks, j + 1, n - 1);
        LessTransitive(FirstKey(chunks[n - 1]), FirstKey(chunks[j + 1]), FirstKey(chunks[n - 1]));
      }
      LessIrreflexive(FirstKey(chunks[n - 1]));
    }
  }

  lemma CachedBlock(index: map<CacheKey, Node>, id: nat, s: Spec, j: nat, e: IndexEntry)
    requires CacheAgrees(index, id, s) && j < |TheIndex(s)| == |s.chunks| && e == TheIndex(s)[j]
    ensures CacheKey(id, e.offset) in index ==> index[CacheKey(id, e.offset)].block == Block(s.chunks[j], s.interval)
  {
    hide Block, TheIndex;
  }

  lemma {:induction false} OffsetsRise(s: Spec, i: nat, j: nat)
    requires i < j < |TheIndex(s)| == |s.chunks|
    ensures TheIndex(s)[i].offset < TheIndex(s)[j].offset
  {
    hide Block, Blocks, Index;
    IndexAt(s.chunks, s.interval, i);
    IndexAt(s.chunks, s.interval, j);
    BlocksGrow(s.chunks, s.interval, i, j);
  }

  lemma {:induction false} BlocksGrow(chunks: seq<seq<Row>>, interval: positive, i: nat, j: nat)
    requires i < j <= |chunks|
    ensures |Blocks(chunks[..i], interval)| < |Blocks(chunks[..j], interval)|
    decreases j
  {
    assert chunks[..j][..j - 1] == chunks[..j - 1];
    if i < j - 1 {
      BlocksGrow(chunks, interval, i, j - 1);
    }
  }

  lemma CacheStillAgrees(before: map<CacheKey, Node>, after: map<CacheKey, Node>, id: nat, s: Spec, j: nat,
                         e: IndexEntry)
    requires CacheAgrees(before, id, s) && j < |TheIndex(s)| == |s.chunks| && e == TheIndex(s)[j]
    requires forall k :: k in after ==>
               after[k] == Node(CacheKey(id, e.offset), Block(s.chunks[j], s.interval))
                 || (k in before && after[k] == before[k])
    requires forall k :: k in after ==> after[k].key == k
    ensures CacheAgrees(after, id, s)
  {
    hide Block, TheIndex;
    forall i | 0 <= i < |s.chunks|
      ensures CacheKey(id, TheIndex(s)[i].offset) in after ==>
                after[CacheKey(id, TheIndex(s)[i].offset)].block == Block(s.chunks[i], s.interval)
    {
      if i < j {
        OffsetsRise(s, i, j);
      } else if j < i {
        OffsetsRise(s, j, i);
      }
    }
  }

  lemma BloomFacts(s: Spec)
    requires Genuine(s)
    ensures 0 < s.bloom.numBits < U64_LIMIT && 0 < s.bloom.numHashes < U32_LIMIT
    ensures |s.bloom.bits| == (s.bloom.numBits + 7) / 8 && |FilterBytes(s)| == 24 + |s.bloom.bits|
    ensures forall i :: 0 <= i < |Flatten(s.chunks)| ==>
              ProbesSet(s.bloom.bits, s.bloom.numBits, Flatten(s.chunks)[i].key, s.bloom.numHashes)
  {
    hide Flatten, File, ProbesSet, ChunkFits, Ordered, FilterBlock;
    SectionSizes(s);
  }
}
