/** Where each part of a table stands in its file, and which block can hold a key. */
module TableLayout {
  import opened Bytes
  import opened Crc32
  import opened Memtables
  import opened Seqs
  import opened TableFormat
  import opened BloomFilters

  /** What a writer put into a file. */
  datatype Spec = Spec(chunks: seq<seq<Row>>, interval: positive, bloom: Bloom, numKeys: nat)

  /** The table's parts fit their length fields, and the filter knows every key. */
  ghost predicate Genuine(s: Spec) {
    && s.chunks != []
    && Ordered(Flatten(s.chunks))
    && (forall j :: 0 <= j < |s.chunks| ==> ChunkFits(s.chunks[j], s.interval))
    && |File(s.chunks, s.interval, s.bloom, s.numKeys)| < U64_LIMIT
    && 0 < s.bloom.numBits < U64_LIMIT && 0 < s.bloom.numHashes < U32_LIMIT
    && Sized(s.bloom.bits, s.bloom.numBits)
    && (forall i :: 0 <= i < |Flatten(s.chunks)| ==>
          ProbesSet(s.bloom.bits, s.bloom.numBits, Flatten(s.chunks)[i].key, s.bloom.numHashes))
  }

  ghost predicate ChunkFits(rows: seq<Row>, interval: positive) {
    && rows != [] && |Block(rows, interval)| < U32_LIMIT
    && forall i :: 0 <= i < |rows| ==> rows[i].entry.seqno < U64_LIMIT
  }

  ghost function Data(s: Spec): bytes
  {
    Blocks(s.chunks, s.interval)
  }

  ghost function TheIndex(s: Spec): seq<IndexEntry>
  {
    Index(s.chunks, s.interval)
  }

  ghost function Image(s: Spec): bytes
  {
    File(s.chunks, s.interval, s.bloom, s.numKeys)
  }

  // ----- blocks in the file -----

  lemma NoBlocks(interval: positive)
    ensures Blocks([], interval) == []
  {
  }

  lemma BlocksLast(chunks: seq<seq<Row>>, interval: positive)
    requires chunks != []
    ensures Blocks(chunks, interval) == Blocks(chunks[..|chunks| - 1], interval) + Block(chunks[|chunks| - 1], interval)
  {
    hide Block;
  }

  lemma {:induction false} BlocksAppend(x: seq<seq<Row>>, y: seq<seq<Row>>, interval: positive)
    ensures Blocks(x + y, interval) == Blocks(x, interval) + Blocks(y, interval)
    decreases |y|
  {
    hide Block, Blocks;
    NoBlocks(interval);
    if y == [] {
      assert x + y == x;
    } else {
      BlocksLast(x + y, interval);
      BlocksLast(y, interval);
      assert (x + y)[..|x + y| - 1] == x + y[..|y| - 1];
      BlocksAppend(x, y[..|y| - 1], interval);
    }
  }

  lemma {:induction false} IndexAt(chunks: seq<seq<Row>>, interval: positive, j: nat)
    requires j < |chunks|
    ensures Index(chunks, interval)[j]
            == IndexEntry(FirstKey(chunks[j]), |Blocks(chunks[..j], interval)|, |Block(chunks[j], interval)|)
    decreases |chunks|
  {
    hide Block, Blocks;
    if j < |chunks| - 1 {
      assert chunks[..|chunks| - 1][..j] == chunks[..j];
      IndexAt(chunks[..|chunks| - 1], interval, j);
    }
  }

  /** Block j stands in the data where index entry j says. */
  lemma BlockStands(chunks: seq<seq<Row>>, interval: positive, j: nat, e: IndexEntry)
    requires j < |chunks| && e == Index(chunks, interval)[j]
    ensures e.firstKey == FirstKey(chunks[j]) && e.size == |Block(chunks[j], interval)|
    ensures e.offset + e.size <= |Blocks(chunks, interval)|
    ensures Blocks(chunks, interval)[e.offset..e.offset + e.size] == Block(chunks[j], interval)
  {
    hide Block, Blocks, Index;
    IndexAt(chunks, interval, j);
    var x, y := chunks[..j], chunks[j + 1..];
    assert chunks == (x + [chunks[j]]) + y;
    BlocksAppend(x + [chunks[j]], y, interval);
    BlocksAppend(x, [chunks[j]], interval);
    OneBlock(chunks[j], interval);
  }

  lemma OneBlock(rows: seq<Row>, interval: positive)
    ensures Blocks([rows], interval) == Block(rows, interval)
  {
    hide Block;
    assert [rows][..0] == [];
  }

  // ----- which block can hold a key -----

  lemma {:induction false} FindAppend(x: seq<Row>, y: seq<Row>, key: bytes)
    ensures Find(x + y, key) == if Find(x, key).Some? then Find(x, key) else Find(y, key)
    decreases |x|
  {
    if x == [] {
      assert x + y == y;
    } else {
      assert (x + y)[1..] == x[1..] + y;
      FindAppend(x[1..], y, key);
    }
  }

  lemma OrderedParts(x: seq<Row>, y: seq<Row>)
    requires Ordered(x + y)
    ensures Ordered(x) && Ordered(y)
    ensures forall i, j :: 0 <= i < |x| && 0 <= j < |y| ==> Less(x[i].key, y[j].key)
  {
    var all := x + y;
    assert forall i :: 0 <= i < |x| ==> all[i] == x[i];
    assert forall j :: 0 <= j < |y| ==> all[|x| + j] == y[j];
  }

  lemma SplitAt(chunks: seq<seq<Row>>, j: nat)
    requires j < |chunks|
    ensures Flatten(chunks) == Flatten(chunks[..j]) + chunks[j] + Flatten(chunks[j + 1..])
    ensures Flatten(chunks[j..]) == chunks[j] + Flatten(chunks[j + 1..])
    ensures Flatten(chunks) == Flatten(chunks[..j]) + Flatten(chunks[j..])
  {
    hide Flatten;
    FlattenAt(chunks, j);
    FlattenFrom(chunks, j);
    FlattenSplit(chunks, j);
  }

  ghost predicate AllChunksFull(chunks: seq<seq<Row>>) {
    forall j :: 0 <= j < |chunks| ==> chunks[j] != []
  }

  lemma FirstKeysRise(chunks: seq<seq<Row>>, i: nat, j: nat)
    requires Ordered(Flatten(chunks)) && AllChunksFull(chunks) && i < j < |chunks|
    ensures Less(FirstKey(chunks[i]), FirstKey(chunks[j])) && Ordered(chunks[i]) && Ordered(chunks[j])
  {
    hide Flatten, Less;
    SplitAt(chunks, j);
    OrderedParts(Flatten(chunks[..j]), Flatten(chunks[j..]));
    OrderedParts(chunks[j], Flatten(chunks[j + 1..]));
    SplitAt(chunks[..j], i);
    assert chunks[..j][i] == chunks[i];
    var before := Flatten(chunks[..j]);
    var p := |Flatten(chunks[..j][..i])|;
    assert before[p] == chunks[i][0];
    assert Flatten(chunks[j..])[0] == chunks[j][0];
    OrderedParts(Flatten(chunks[..j][..i]) + chunks[i], Flatten(chunks[..j][i + 1..]));
    OrderedParts(Flatten(chunks[..j][..i]), chunks[i]);
  }

  lemma ChunkOrdered(chunks: seq<seq<Row>>, j: nat)
    requires Ordered(Flatten(chunks)) && j < |chunks|
    ensures Ordered(chunks[j])
  {
    hide Flatten, Less;
    SplitAt(chunks, j);
    OrderedParts(Flatten(chunks[..j]), Flatten(chunks[j..]));
    OrderedParts(chunks[j], Flatten(chunks[j + 1..]));
  }

  lemma FindAbsent(rows: seq<Row>, key: bytes)
    requires forall i :: 0 <= i < |rows| ==> Less(rows[i].key, key) || Less(key, rows[i].key)
    ensures Find(rows, key) == None
  {
    forall i | 0 <= i < |rows| ensures rows[i].key != key {
      LessIrreflexive(key);
    }
    FindNone(rows, key);
  }

  lemma RowsFrom(rows: seq<Row>, i: nat, key: bytes)
    requires Ordered(rows) && i < |rows| && Less(key, rows[i].key)
    ensures forall j :: i <= j < |rows| ==> Less(key, rows[j].key)
  {
    forall j | i <= j < |rows| ensures Less(key, rows[j].key) {
      if i < j {
        LessTransitive(key, rows[i].key, rows[j].key);
      }
    }
  }

  /** Only the last block whose first key is at most the key can hold it. */
  lemma FindInChunk(chunks: seq<seq<Row>>, key: bytes, j: nat)
    requires Ordered(Flatten(chunks)) && AllChunksFull(chunks) && j < |chunks|
    requires AtMost(FirstKey(chunks[j]), key)
    requires j + 1 < |chunks| ==> Less(key, FirstKey(chunks[j + 1]))
    ensures Find(Flatten(chunks), key) == Find(chunks[j], key)
  {
    hide Flatten, Less;
    SplitAt(chunks, j);
    var before, after := Flatten(chunks[..j]), Flatten(chunks[j + 1..]);
    OrderedParts(before, Flatten(chunks[j..]));
    OrderedParts(chunks[j], after);
    assert Flatten(chunks[j..])[0] == chunks[j][0];
    forall i | 0 <= i < |before| ensures Less(before[i].key, key) {
      if FirstKey(chunks[j]) != key {
        LessTransitive(before[i].key, FirstKey(chunks[j]), key);
      }
    }
    FindAbsent(before, key);
    if j + 1 < |chunks| {
      SplitAt(chunks, j + 1);
      assert after[0] == chunks[j + 1][0];
      RowsFrom(after, 0, key);
    } else {
      assert chunks[j + 1..] == [];
      NoChunks();
    }
    FindAbsent(after, key);
    FindAppend(before + chunks[j], after, key);
    FindAppend(before, chunks[j], key);
  }

  lemma NoChunks()
    ensures Flatten<Row>([]) == []
  {
  }

  lemma FirstRow(chunks: seq<seq<Row>>)
    requires AllChunksFull(chunks) && chunks != []
    ensures Flatten(chunks) != [] && Flatten(chunks)[0].key == FirstKey(chunks[0])
  {
    hide Flatten;
    SplitAt(chunks, 0);
    assert chunks[..0] == [];
    NoChunks();
    assert Flatten(chunks)[0] == chunks[0][0];
  }

  /** A key below the first key or above the last is in no row. */
  lemma FindOutside(rows: seq<Row>, key: bytes)
    requires Ordered(rows) && rows != []
    ensures Less(key, rows[0].key) || Less(rows[|rows| - 1].key, key) ==> Find(rows, key) == None
  {
    hide Less, Find;
    if Less(key, rows[0].key) {
      RowsFrom(rows, 0, key);
      FindAbsent(rows, key);
    }
    var last := rows[|rows| - 1].key;
    if Less(last, key) {
      forall i | 0 <= i < |rows| ensures Less(rows[i].key, key) {
        if i < |rows| - 1 {
          LessTransitive(rows[i].key, last, key);
        }
      }
      FindAbsent(rows, key);
    }
  }

  // ----- sections of the file -----

  lemma FooterReads(a: nat, b: nat, c: nat, d: nat, f: bytes)
    requires a < U64_LIMIT && b < U64_LIMIT && c < U64_LIMIT && d < U64_LIMIT && f == Footer(a, b, c, d)
    ensures GetU64(f[0..8]) == a && GetU64(f[8..16]) == b && GetU64(f[16..24]) == c && GetU64(f[24..32]) == d
    ensures GetU32(f[32..36]) == VERSION && GetU32(f[36..40]) == MAGIC
  {
    hide Put32, Put64, GetU32, GetU64;
    Put64RoundTrip(a);
    Put64RoundTrip(b);
    Put64RoundTrip(c);
    Put64RoundTrip(d);
    Put32RoundTrip(VERSION);
    Put32RoundTrip(MAGIC);
    assert f[0..8] == Put64(a) && f[8..16] == Put64(b) && f[16..24] == Put64(c) && f[24..32] == Put64(d);
    assert f[32..36] == Put32(VERSION) && f[36..40] == Put32(MAGIC);
  }

  /** The footer: four offsets and sizes, version 1, and the magic number, lowest byte first. */
  lemma FooterLayout(a: nat, b: nat, c: nat, d: nat, f: bytes)
    requires a < U64_LIMIT && b < U64_LIMIT && c < U64_LIMIT && d < U64_LIMIT && f == Footer(a, b, c, d)
    ensures |f| == 40
    ensures Value(f[0..8]) == a && Value(f[8..16]) == b && Value(f[16..24]) == c && Value(f[24..32]) == d
    ensures f[32..] == [1, 0, 0, 0, 0x54, 0x53, 0x53, 0x4C]
  {
    hide Put32, Put64, GetU32, GetU64, Value;
    FooterReads(a, b, c, d, f);
    assert f[32..] == Put32(VERSION) + Put32(MAGIC);
    FooterEnd();
    U64IsLittleEndian(a, f[0..8]);
    U64IsLittleEndian(b, f[8..16]);
    U64IsLittleEndian(c, f[16..24]);
    U64IsLittleEndian(d, f[24..32]);
  }

  lemma FooterEnd()
    ensures Put32(VERSION) == [1, 0, 0, 0] && Put32(MAGIC) == [0x54, 0x53, 0x53, 0x4C]
  {
  }

  lemma FilterCrcOk(bloom: Bloom, numKeys: nat)
    ensures CrcOk(FilterBlock(bloom, numKeys))
  {
    hide Put32, Put64, CrcField, CrcOk;
    WithCrcOk(Put64(bloom.numBits) + Put32(bloom.numHashes) + Put64(numKeys) + bloom.bits);
  }

  /** The parameters and the bits, where a filter block keeps them. */
  ghost predicate FilterSays(b: bytes, bloom: Bloom) {
    && |b| == 24 + |bloom.bits|
    && GetU64(b[0..8]) == bloom.numBits && GetU32(b[8..12]) == bloom.numHashes && b[20..20 + |bloom.bits|] == bloom.bits
  }

  lemma FilterReads(bloom: Bloom, numKeys: nat, b: bytes)
    requires b == FilterBlock(bloom, numKeys) && bloom.numBits < U64_LIMIT && bloom.numHashes < U32_LIMIT
    ensures FilterSays(b, bloom)
  {
    hide Put32, Put64, GetU32, GetU64, CrcField;
    Put64RoundTrip(bloom.numBits);
    Put32RoundTrip(bloom.numHashes);
    assert b[0..8] == Put64(bloom.numBits) && b[8..12] == Put32(bloom.numHashes);
  }

  /** The filter block: number of bits, of hashes and of keys, the bits, and their checksum. */
  lemma FilterLayout(bloom: Bloom, numKeys: nat, b: bytes)
    requires b == FilterBlock(bloom, numKeys)
    requires bloom.numBits < U64_LIMIT && bloom.numHashes < U32_LIMIT && numKeys < U64_LIMIT
    ensures Value(b[0..8]) == bloom.numBits && Value(b[8..12]) == bloom.numHashes && Value(b[12..20]) == numKeys
    ensures b[20..|b| - 4] == bloom.bits && b[|b| - 4..] == CrcField(b[..|b| - 4])
  {
    hide Put32, Put64, GetU32, GetU64, CrcField, Value;
    FilterReads(bloom, numKeys, b);
    Put64RoundTrip(numKeys);
    var front := Put64(bloom.numBits) + Put32(bloom.numHashes) + Put64(numKeys) + bloom.bits;
    assert b[..|b| - 4] == front && b[12..20] == Put64(numKeys);
    U64IsLittleEndian(bloom.numBits, b[0..8]);
    U32IsLittleEndian(bloom.numHashes, b[8..12]);
    U64IsLittleEndian(numKeys, b[12..20]);
  }

  lemma Sections(s: Spec, data: bytes, index: bytes, filter: bytes, image: bytes)
    requires data == Data(s) && index == IndexBlock(TheIndex(s))
    requires filter == FilterBlock(s.bloom, s.numKeys) && image == Image(s)
    ensures |image| == |data| + |index| + |filter| + FOOTER_SIZE
    ensures image[..|data|] == data && image[|data|..|data| + |index|] == index
    ensures image[|data| + |index|..|data| + |index| + |filter|] == filter
    ensures image[|image| - FOOTER_SIZE..] == Footer(|data|, |index|, |data| + |index|, |filter|)
  {
    hide Blocks, Index, IndexBlock, FilterBlock, Footer;
    var footer := Footer(|data|, |index|, |data| + |index|, |filter|);
    assert image == data + index + filter + footer;
  }

  // ----- copies with at most one damaged byte -----

  ghost predicate SameButFor(file: bytes, image: bytes, damage: nat) {
    |file| == |image| && forall i :: 0 <= i < |file| && i != damage ==> file[i] == image[i]
  }

  /** The file is the image, except perhaps for one byte before the footer, which has no checksum. */
  ghost predicate DamagedCopy(file: bytes, s: Spec, damage: nat) {
    SameButFor(file, Image(s), damage) && (damage + FOOTER_SIZE < |file| || damage >= |file|)
  }

  lemma DamagedRange(file: bytes, image: bytes, damage: nat, from: nat, size: nat)
    requires SameButFor(file, image, damage) && from + size <= |file|
    ensures damage < from || damage >= from + size ==> file[from..from + size] == image[from..from + size]
    ensures from <= damage < from + size ==>
              file[from..from + size] == image[from..from + size][damage - from := file[damage]]
  {
  }
}
