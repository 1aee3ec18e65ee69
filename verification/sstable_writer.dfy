/** Writing a table: one pass over the memtable's rows in key order. */
module TableWriter {
  import opened Bytes
  import opened Crc32
  import opened Memtables
  import opened TableFormat
  import opened BloomFilters

  datatype BuildResult =
    | Built(file: bytes, minKey: bytes, maxKey: bytes, minSeqno: nat, maxSeqno: nat, entries: nat, bloom: Bloom)
    | EmptyMemtable

  ghost predicate SeqnoRange(rows: seq<Row>, low: nat, high: nat) {
    && (forall i :: 0 <= i < |rows| ==> low <= rows[i].entry.seqno <= high)
    && (exists i :: 0 <= i < |rows| && rows[i].entry.seqno == low)
    && (exists i :: 0 <= i < |rows| && rows[i].entry.seqno == high)
  }

  lemma RestartsSnoc(rows: seq<Row>, row: Row, interval: positive)
    ensures Restarts(rows + [row], interval)
            == Restarts(rows, interval) + if |rows| % interval == 0 then [|Body(rows)|] else []
  {
    hide Body;
    var n := |rows|;
    var all := rows + [row];
    var at := RestartRows(n, interval);
    assert forall m :: 0 <= m < |at| ==> all[..at[m]] == rows[..at[m]];
    assert all[..n] == rows;
  }

  /** The pass stands at row i: `done` blocks are written and rows[start..i] are in the open block. */
  ghost predicate Writing(rows: seq<Row>, blockSize: nat, done: seq<seq<Row>>, start: nat, i: nat) {
    && start <= i <= |rows|
    && Chunks(rows, blockSize) == done + Chunks(rows[start..], blockSize)
    && (start < i ==> |Body(rows[start..i])| < blockSize)
    && (start < i ==> Cut(rows[start..], blockSize, 1) == Cut(rows[start..], blockSize, i - start))
  }

  lemma WritingStarts(rows: seq<Row>, blockSize: nat)
    ensures Writing(rows, blockSize, [], 0, 0)
  {
    assert rows[0..] == rows;
  }

  /** After row i joins the open block, the block is complete exactly when it is large enough. */
  lemma RowJoins(rows: seq<Row>, blockSize: nat, done: seq<seq<Row>>, start: nat, i: nat)
    requires Writing(rows, blockSize, done, start, i) && i < |rows|
    ensures rows[start..i + 1] == rows[start..i] + [rows[i]]
    ensures if |Body(rows[start..i + 1])| < blockSize then Writing(rows, blockSize, done, start, i + 1)
            else Writing(rows, blockSize, done + [rows[start..i + 1]], i + 1, i + 1)
  {
    hide Body, Chunks;
    var rest := rows[start..];
    var n := i + 1 - start;
    assert rest[..n] == rows[start..i + 1];
    if start < i {
      assert rest[..n - 1] == rows[start..i];
    }
    assert Cut(rest, blockSize, 1) == Cut(rest, blockSize, n);
    if |Body(rest[..n])| >= blockSize {
      ChunkEnds(rows, blockSize, done, start, n);
    }
  }

  lemma ChunkEnds(rows: seq<Row>, blockSize: nat, done: seq<seq<Row>>, start: nat, n: nat)
    requires start + n <= |rows| && n > 0
    requires Chunks(rows, blockSize) == done + Chunks(rows[start..], blockSize)
    requires Cut(rows[start..], blockSize, 1) == n
    ensures Chunks(rows, blockSize) == done + [rows[start..start + n]] + Chunks(rows[start + n..], blockSize)
  {
    hide Body, Cut;
    assert rows[start..][..n] == rows[start..start + n];
    assert rows[start..][n..] == rows[start + n..];
  }

  lemma WritingEnds(rows: seq<Row>, blockSize: nat, done: seq<seq<Row>>, start: nat)
    requires Writing(rows, blockSize, done, start, |rows|)
    ensures Chunks(rows, blockSize) == done + if start < |rows| then [rows[start..]] else []
  {
    hide Body;
    if start < |rows| {
      ChunkEnds(rows, blockSize, done, start, |rows| - start);
      assert rows[start..start + (|rows| - start)] == rows[start..];
      assert rows[|rows|..] == [];
    } else {
      assert rows[start..] == [];
    }
  }

  lemma BlocksSnoc(done: seq<seq<Row>>, chunk: seq<Row>, interval: positive)
    ensures Blocks(done + [chunk], interval) == Blocks(done, interval) + Block(chunk, interval)
    ensures Index(done + [chunk], interval)
            == Index(done, interval) + [IndexEntry(FirstKey(chunk), |Blocks(done, interval)|, |Block(chunk, interval)|)]
  {
    hide Block, Blocks, Index;
    var all := done + [chunk];
    assert all[..|all| - 1] == done && all[|all| - 1] == chunk;
    LastBlock(all, interval);
  }

  lemma LastBlock(all: seq<seq<Row>>, interval: positive)
    requires all != []
    ensures var front, last := all[..|all| - 1], all[|all| - 1];
            && Blocks(all, interval) == Blocks(front, interval) + Block(last, interval)
            && Index(all, interval)
               == Index(front, interval) + [IndexEntry(FirstKey(last), |Blocks(front, interval)|,
                 |Block(last, interval)|)]
  {
    hide Block;
  }

  /** Close the open block: restart offsets, their count, and the checksum follow the rows. */
  method FinishBlock(block: bytes, restarts: seq<nat>, ghost rows: seq<Row>, interval: positive) returns (b: bytes)
    requires block == Body(rows) && restarts == Restarts(rows, interval)
    ensures b == Block(rows, interval)
  {
    hide Body, Put32, Checksum, Field;
    b := block;
    var i := 0;
    while i < |restarts|
      invariant 0 <= i <= |restarts|
      invariant b == block + OffsetBytes(restarts[..i])
    {
      assert restarts[..i + 1][..i] == restarts[..i];
      b := b + Put32(restarts[i]);
      i := i + 1;
    }
    assert restarts[..i] == restarts;
    b := b + Put32(|restarts|);
    var crc := Compute(b);
    b := b + Field(crc);
  }

  method EncodeIndex(index: seq<IndexEntry>) returns (b: bytes)
    ensures b == IndexBlock(index)
  {
    hide EncodeIndexEntry, Checksum, Field;
    b := [];
    var i := 0;
    while i < |index|
      invariant 0 <= i <= |index|
      invariant b == IndexBody(index[..i])
    {
      assert index[..i + 1][..i] == index[..i];
      b := b + EncodeIndexEntry(index[i]);
      i := i + 1;
    }
    assert index[..i] == index;
    var crc := Compute(b);
    b := b + Field(crc);
  }

  /** The state of the open block agrees with the rows it holds. */
  ghost predicate OpenBlock(rows: seq<Row>, interval: positive, block: bytes, restarts: seq<nat>, entries: nat,
                            firstKey: bytes) {
    && block == Body(rows) && restarts == Restarts(rows, interval) && entries == |rows|
    && (rows != [] ==> firstKey == FirstKey(rows))
  }

  /** The blocks written so far and their index. */
  ghost predicate Written(done: seq<seq<Row>>, interval: positive, file: bytes, index: seq<IndexEntry>) {
    && file == Blocks(done, interval) && index == Index(done, interval)
  }

  lemma RowAdded(rows: seq<Row>, row: Row, interval: positive, block: bytes, restarts: seq<nat>, entries: nat,
                 firstKey: bytes)
    requires OpenBlock(rows, interval, block, restarts, entries, firstKey)
    ensures (block == []) == (rows == [])
    ensures OpenBlock(rows + [row], interval, block + EncodeRow(row),
                      if entries % interval == 0 then restarts + [|block|] else restarts, entries + 1,
                      if block == [] then row.key else firstKey)
  {
    hide EncodeRow, Restarts;
    RestartsSnoc(rows, row, interval);
    assert (rows + [row])[..|rows|] == rows;
    assert restarts + [] == restarts;
    NoRows(rows);
  }

  lemma NoRows(rows: seq<Row>)
    ensures (Body(rows) == []) == (rows == [])
  {
  }

  lemma NothingOpen(interval: positive, firstKey: bytes)
    ensures OpenBlock([], interval, [], [], 0, firstKey) && Written([], interval, [], [])
  {
  }

  lemma BlockWritten(done: seq<seq<Row>>, chunk: seq<Row>, interval: positive, file: bytes, index: seq<IndexEntry>)
    requires Written(done, interval, file, index)
    ensures Written(done + [chunk], interval, file + Block(chunk, interval),
                    index + [IndexEntry(FirstKey(chunk), |file|, |Block(chunk, interval)|)])
  {
    hide Block;
    BlocksSnoc(done, chunk, interval);
  }

  /** Write the open block out and index it. */
  method CloseBlock(file: bytes, index: seq<IndexEntry>, ghost done: seq<seq<Row>>, interval: positive, block: bytes,
                    restarts: seq<nat>, ghost entries: nat, firstKey: bytes, ghost chunk: seq<Row>)
      returns (longer: bytes, longerIndex: seq<IndexEntry>)
    requires Written(done, interval, file, index) && chunk != []
    requires OpenBlock(chunk, interval, block, restarts, entries, firstKey)
    ensures Written(done + [chunk], interval, longer, longerIndex)
  {
    hide Written, OpenBlock, Block;
    OpenFacts(chunk, interval, block, restarts, entries, firstKey);
    var finished := FinishBlock(block, restarts, chunk, interval);
    BlockWritten(done, chunk, interval, file, index);
    longerIndex := index + [IndexEntry(firstKey, |file|, |finished|)];
    longer := file + finished;
  }

  /** The data blocks and their index, in one pass. */
  method WriteBlocks(rows: seq<Row>, blockSize: nat, interval: positive) returns (file: bytes, index: seq<IndexEntry>)
    ensures file == Blocks(Chunks(rows, blockSize), interval) && index == Index(Chunks(rows, blockSize), interval)
  {
    hide Writing, OpenBlock, Written, EncodeRow, Blocks, Index, Chunks, Block, Restarts, Body;
    var block, blockEntries, firstKey := [], 0, [];
    var restarts: seq<nat> := [];
    file, index := [], [];
    ghost var done, start, chunk := [], 0, [];
    var i := 0;
    WritingStarts(rows, blockSize);
    NothingOpen(interval, []);
    while i < |rows|
      invariant 0 <= start <= i <= |rows| && chunk == rows[start..i]
      invariant Writing(rows, blockSize, done, start, i)
      invariant OpenBlock(chunk, interval, block, restarts, blockEntries, firstKey)
      invariant Written(done, interval, file, index)
    {
      RowJoins(rows, blockSize, done, start, i);
      RowAdded(chunk, rows[i], interval, block, restarts, blockEntries, firstKey);
      if block == [] {
        firstKey := rows[i].key;
      }
      if blockEntries % interval == 0 {
        restarts := restarts + [|block|];
      }
      block := block + EncodeRow(rows[i]);
      blockEntries := blockEntries + 1;
      chunk := chunk + [rows[i]];
      i := i + 1;
      OpenFacts(chunk, interval, block, restarts, blockEntries, firstKey);
      if |block| >= blockSize {
        file, index := CloseBlock(file, index, done, interval, block, restarts, blockEntries, firstKey, chunk);
        done, start, chunk := done + [chunk], i, [];
        block, restarts, blockEntries := [], [], 0;
        NothingOpen(interval, firstKey);
      }
    }
    WritingEnds(rows, blockSize, done, start);
    OpenFacts(chunk, interval, block, restarts, blockEntries, firstKey);
    assert chunk == rows[start..] && done + [] == done;
    if block != [] {
      file, index := CloseBlock(file, index, done, interval, block, restarts, blockEntries, firstKey, chunk);
      done := done + [chunk];
    }
    WrittenFacts(done, interval, file, index);
  }

  lemma OpenFacts(rows: seq<Row>, interval: positive, block: bytes, restarts: seq<nat>, entries: nat, firstKey: bytes)
    requires OpenBlock(rows, interval, block, restarts, entries, firstKey)
    ensures block == Body(rows) && restarts == Restarts(rows, interval)
    ensures (block == []) == (rows == []) && (rows != [] ==> firstKey == FirstKey(rows))
  {
    NoRows(rows);
  }

  lemma WrittenFacts(done: seq<seq<Row>>, interval: positive, file: bytes, index: seq<IndexEntry>)
    requires Written(done, interval, file, index)
    ensures file == Blocks(done, interval)
    ensures index == Index(done, interval)
  {
  }

  /** The smallest and largest sequence number. */
  method SeqnoBounds(rows: seq<Row>) returns (low: nat, high: nat)
    requires rows != [] && forall i :: 0 <= i < |rows| ==> rows[i].entry.seqno < U64_LIMIT
    ensures SeqnoRange(rows, low, high)
  {
    low, high := U64_LIMIT - 1, 0;
    var i := 0;
    while i < |rows|
      invariant 0 <= i <= |rows|
      invariant forall j :: 0 <= j < i ==> low <= rows[j].entry.seqno <= high
      invariant low == U64_LIMIT - 1 || exists j :: 0 <= j < i && rows[j].entry.seqno == low
      invariant high == 0 || exists j :: 0 <= j < i && rows[j].entry.seqno == high
    {
      var seqno := rows[i].entry.seqno;
      low := if seqno < low then seqno else low;
      high := if seqno > high then seqno else high;
      i := i + 1;
    }
    assert low <= rows[0].entry.seqno <= high;
  }

  method EncodeFilter(bloom: Bloom, numKeys: nat) returns (b: bytes)
    ensures b == FilterBlock(bloom, numKeys)
  {
    hide Checksum, Field, Put32, Put64;
    b := Put64(bloom.numBits) + Put32(bloom.numHashes) + Put64(numKeys) + bloom.bits;
    var crc := Compute(b);
    b := b + Field(crc);
  }

  /** One filter bit array over all the keys of the table. */
  function KeysOf(rows: seq<Row>): (keys: seq<bytes>)
    ensures |keys| == |rows| && forall i :: 0 <= i < |rows| ==> keys[i] == rows[i].key
  {
    seq(|rows|, i requires 0 <= i < |rows| => rows[i].key)
  }

  method BuildBloom(rows: seq<Row>, numBits: nat, numHashes: nat) returns (bloom: Bloom)
    requires numBits > 0
    ensures bloom.numBits == numBits && bloom.numHashes == numHashes && Sized(bloom.bits, numBits)
    ensures forall i :: 0 <= i < |rows| ==> ProbesSet(bloom.bits, numBits, rows[i].key, numHashes)
    ensures ExactBits(bloom.bits, KeysOf(rows), numHashes, numBits)
  {
    hide ProbesSet, ExactBits;
    var keys := KeysOf(rows);
    var bits := AddAll(keys, numBits, numHashes);
    bloom := Bloom(numBits, numHashes, bits);
    forall i | 0 <= i < |rows| ensures ProbesSet(bits, numBits, rows[i].key, numHashes) {
      assert keys[i] == rows[i].key;
    }
  }

  /** A built table holds exactly the rows, and its metadata and filter describe them. */
  ghost predicate Describes(r: BuildResult, rows: seq<Row>, blockSize: nat, interval: positive, numBits: nat,
                            numHashes: nat)
    requires r.Built? && rows != []
  {
    && r.file == File(Chunks(rows, blockSize), interval, r.bloom, |rows|)
    && r.minKey == rows[0].key && r.maxKey == rows[|rows| - 1].key && r.entries == |rows|
    && SeqnoRange(rows, r.minSeqno, r.maxSeqno)
    && r.bloom.numBits == numBits && r.bloom.numHashes == numHashes && Sized(r.bloom.bits, numBits)
    && (forall i :: 0 <= i < |rows| ==> ProbesSet(r.bloom.bits, numBits, rows[i].key, numHashes))
    && ExactBits(r.bloom.bits, KeysOf(rows), numHashes, numBits)
  }

  lemma FileParts(rows: seq<Row>, blockSize: nat, interval: positive, bloom: Bloom, data: bytes, index: bytes,
                  filter: bytes)
    requires data == Blocks(Chunks(rows, blockSize), interval)
    requires index == IndexBlock(Index(Chunks(rows, blockSize), interval)) && filter == FilterBlock(bloom, |rows|)
    ensures data + index + filter + Footer(|data|, |index|, |data| + |index|, |filter|)
            == File(Chunks(rows, blockSize), interval, bloom, |rows|)
  {
    hide Blocks, Index, IndexBlock, Chunks, FilterBlock, Footer;
  }

  /** Build a table file from a memtable's rows. */
  method WriteTable(rows: seq<Row>, blockSize: nat, interval: positive, numBits: nat, numHashes: nat)
      returns (r: BuildResult)
    requires numBits > 0
    requires forall i :: 0 <= i < |rows| ==> rows[i].entry.seqno < U64_LIMIT
    ensures rows == [] <==> r.EmptyMemtable?
    ensures rows != [] ==> Describes(r, rows, blockSize, interval, numBits, numHashes)
  {
    hide Blocks, Index, IndexBlock, Chunks, ProbesSet, ExactBits, FilterBlock, Footer, SeqnoRange, Sized, File;
    if rows == [] {
      return EmptyMemtable;
    }
    var bloom := BuildBloom(rows, numBits, numHashes);
    var low, high := SeqnoBounds(rows);
    var data, index := WriteBlocks(rows, blockSize, interval);
    var indexBlock := EncodeIndex(index);
    var filterBlock := EncodeFilter(bloom, |rows|);
    var footer := Footer(|data|, |indexBlock|, |data| + |indexBlock|, |filterBlock|);
    FileParts(rows, blockSize, interval, bloom, data, indexBlock, filterBlock);
    r := Built(data + indexBlock + filterBlock + footer, rows[0].key, rows[|rows| - 1].key, low, high, |rows|, bloom);
  }
}
