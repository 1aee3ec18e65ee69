/** Table files as the engine handles them: written once, scanned whole, probed through the cache. */
module SstStore {
  import opened Bytes
  import opened Memtables
  import opened Seqs
  import opened TableFormat
  import opened TableLayout
  import opened TableWriter
  import opened TableReaders
  import opened TableScan
  import opened BlockCaches
  import opened BloomFilters
  import opened Tables

  /** A table file, with the key range the manifest records for it. */
  datatype SstFile = SstFile(data: bytes, minKey: bytes, maxKey: bytes)

  ghost predicate Stored(f: SstFile, s: Spec) {
    && Genuine(s) && f.data == Image(s) && DamagedCopy(f.data, s, |f.data|) && Flatten(s.chunks) != []
    && f.minKey == Flatten(s.chunks)[0].key && f.maxKey == Flatten(s.chunks)[|Flatten(s.chunks)| - 1].key
  }

  /** The file the writer makes of these rows under these settings. */
  ghost predicate WrittenAs(f: SstFile, rows: seq<Row>, blockSize: nat, interval: positive, numBits: nat,
                            numHashes: nat) {
    exists bloom: Bloom ::
      && bloom.numBits == numBits && bloom.numHashes == numHashes
      && ExactBits(bloom.bits, KeysOf(rows), numHashes, numBits)
      && f.data == File(Chunks(rows, blockSize), interval, bloom, |rows|)
  }

  lemma DescribesWritten(r: BuildResult, f: SstFile, rows: seq<Row>, blockSize: nat, interval: positive, numBits: nat,
                         numHashes: nat)
    requires r.Built? && rows != [] && Describes(r, rows, blockSize, interval, numBits, numHashes) && f.data == r.file
    ensures WrittenAs(f, rows, blockSize, interval, numBits, numHashes)
  {
    hide File, Chunks, ProbesSet, ExactBits, SeqnoRange;
  }

  ghost function RowsOf(s: Spec): seq<Row> {
    Flatten(s.chunks)
  }

  /** What each file says. */
  ghost function Contents(specs: map<nat, Spec>): map<nat, Mem> {
    map id | id in specs :: ToMap(RowsOf(specs[id]))
  }

  lemma ContentsKeys(specs: map<nat, Spec>)
    ensures forall id :: id in specs <==> id in Contents(specs)
  {
    hide ToMap, RowsOf;
  }

  lemma ContentsAdd(specs: map<nat, Spec>, id: nat, s: Spec)
    ensures Contents(specs[id := s]) == Contents(specs)[id := ToMap(RowsOf(s))]
  {
    hide ToMap, RowsOf;
  }

  /** Cached blocks belong to known tables and equal what their files hold. */
  ghost predicate CacheKnows(index: map<CacheKey, Node>, specs: map<nat, Spec>) {
    && (forall k :: k in index ==> k.table in specs)
    && (forall id :: id in specs ==> CacheAgrees(index, id, specs[id]))
  }

  lemma OtherTablesAgree(before: map<CacheKey, Node>, after: map<CacheKey, Node>, id: nat, other: nat, s: Spec)
    requires CacheAgrees(before, other, s) && other != id
    requires forall k :: k in after && k.table != id ==> k in before && after[k] == before[k]
    ensures CacheAgrees(after, other, s)
  {
    hide TheIndex, Block;
  }

  lemma CacheStays(before: map<CacheKey, Node>, after: map<CacheKey, Node>, id: nat, specs: map<nat, Spec>)
    requires CacheKnows(before, specs) && id in specs && CacheAgrees(after, id, specs[id])
    requires forall k :: k in after && k.table != id ==> k in before && after[k] == before[k]
    ensures CacheKnows(after, specs)
  {
    hide CacheAgrees;
    forall other | other in specs ensures CacheAgrees(after, other, specs[other]) {
      if other != id {
        OtherTablesAgree(before, after, id, other, specs[other]);
      }
    }
  }

  /** A number the cache has never seen may be given any contents. */
  lemma CacheLearns(index: map<CacheKey, Node>, specs: map<nat, Spec>, id: nat, s: Spec)
    requires CacheKnows(index, specs) && id !in specs && |TheIndex(s)| == |s.chunks|
    ensures CacheKnows(index, specs[id := s])
  {
    hide TheIndex, Block;
  }

  lemma EmptyCacheKnows(index: map<CacheKey, Node>, specs: map<nat, Spec>)
    requires index == map[]
    ensures CacheKnows(index, specs)
  {
    hide TheIndex, Block;
    forall id | id in specs ensures CacheAgrees(index, id, specs[id]) {
      IndexLength(specs[id]);
    }
  }

  lemma IndexLength(s: Spec)
    ensures |TheIndex(s)| == |s.chunks|
  {
  }

  lemma ImageFits(s: Spec)
    requires Genuine(s)
    ensures |Image(s)| < U64_LIMIT
  {
    hide File, Ordered, ProbesSet, ChunkFits, Sized, Flatten;
  }

  lemma StoredFacts(f: SstFile, s: Spec)
    requires Stored(f, s)
    ensures Ordered(RowsOf(s)) && |f.data| < U64_LIMIT
  {
    hide Genuine, Image, Ordered, DamagedCopy, Flatten;
    ImageFits(s);
    OrderedRows(s);
  }

  /** Point lookup in one file: the answer is the map's, whatever the cache holds. */
  method Probe(f: SstFile, id: nat, key: bytes, cache: BlockCache, pinIndex: bool, ghost specs: map<nat, Spec>)
      returns (r: Option<Entry>)
    requires cache.Valid() && CacheKnows(cache.index, specs) && id in specs && Stored(f, specs[id])
    modifies cache
    ensures cache.Valid() && CacheKnows(cache.index, specs)
    ensures r == if key in Contents(specs)[id] then Some(Contents(specs)[id][key]) else None
  {
    hide Genuine, DamagedCopy, Image, Flatten, TheIndex, Find, ToMap, CacheAgrees;
    ghost var s := specs[id];
    ghost var before := cache.index;
    var reader := new TableReader(f.data, id, f.minKey, f.maxKey, pinIndex, s, |f.data|);
    var found := reader.Get(key, cache);
    UndamagedAnswers(f.data, s, key);
    FindInMap(RowsOf(s), key);
    CacheStays(before, cache.index, id, specs);
    match found
    case Good(e) => r := e;
    case Corrupt => r := None;
  }

  /** Read a whole file in order. */
  method ReadSst(f: SstFile, ghost s: Spec) returns (rows: seq<Row>)
    requires Stored(f, s)
    ensures rows == RowsOf(s) && Ordered(rows)
  {
    hide Genuine, DamagedCopy, Image, Flatten, Ordered;
    StoredFacts(f, s);
    ScanOfCopy(f.data, s, |f.data|);
    var scanned := ScanTable(f.data);
    match scanned
    case Good(all) => rows := all;
    case Corrupt => rows := [];
  }

  lemma WrittenRange(rows: seq<Row>, low: nat, high: nat, t: Table)
    requires Ordered(rows) && rows != [] && SeqnoRange(rows, low, high)
    requires t.data == ToMap(rows) && t.minSeqno == low && t.maxSeqno == high
    ensures TableOk(t)
  {
    hide ToMap, Ordered;
    forall key | key in t.data ensures low <= t.data[key].seqno <= high {
      var i := RowOfKey(rows, key);
    }
    var a :| 0 <= a < |rows| && rows[a].entry.seqno == low;
    var b :| 0 <= b < |rows| && rows[b].entry.seqno == high;
    KeyOfRow(rows, a);
    KeyOfRow(rows, b);
  }

  lemma KeyOfRow(rows: seq<Row>, i: nat)
    requires Ordered(rows) && i < |rows|
    ensures rows[i].key in ToMap(rows) && ToMap(rows)[rows[i].key] == rows[i].entry
  {
    FindAt(rows, i);
    FindInMap(rows, rows[i].key);
  }

  lemma {:induction false} RowOfKey(rows: seq<Row>, key: bytes) returns (i: nat)
    requires key in ToMap(rows)
    ensures i < |rows| && rows[i].key == key && ToMap(rows)[key] == rows[i].entry
    decreases |rows|
  {
    if rows[0].key == key {
      i := 0;
    } else {
      i := RowOfKey(rows[1..], key);
      i := i + 1;
    }
  }

  /** Write a memtable's rows as table `id`, with the metadata the manifest will list. */
  method WriteSst(rows: seq<Row>, id: nat, blockSize: nat, interval: positive, numBits: nat, numHashes: nat)
      returns (f: SstFile, t: Table, ghost s: Spec)
    requires rows != [] && Ordered(rows) && FitsFormat(rows, blockSize, interval, numBits, numHashes)
    ensures Stored(f, s) && RowsOf(s) == rows && TableOk(t)
    ensures t.id == id && t.data == ToMap(rows) && t.size == |f.data|
    ensures WrittenAs(f, rows, blockSize, interval, numBits, numHashes)
  {
    hide Genuine, DamagedCopy, Image, Ordered, Chunks, Flatten, Block, Blocks, Index, File, Describes, ToMap,
      SeqnoRange, TableOk, ProbesSet, WrittenAs;
    var built := WriteTable(rows, blockSize, interval, numBits, numHashes);
    BuiltIsGenuine(built, rows, blockSize, interval, numBits, numHashes);
    s := WrittenSpec(built, rows, blockSize, interval);
    ChunkRows(rows, blockSize);
    KeyRange(built, rows, blockSize, interval, numBits, numHashes);
    f := SstFile(built.file, built.minKey, built.maxKey);
    DescribesWritten(built, f, rows, blockSize, interval, numBits, numHashes);
    t := Table(id, ToMap(rows), built.minSeqno, built.maxSeqno, |built.file|);
    SeqnosOf(built, rows, blockSize, interval, numBits, numHashes);
    WrittenRange(rows, built.minSeqno, built.maxSeqno, t);
  }

  lemma SeqnosOf(r: BuildResult, rows: seq<Row>, blockSize: nat, interval: positive, numBits: nat, numHashes: nat)
    requires r.Built? && rows != [] && Describes(r, rows, blockSize, interval, numBits, numHashes)
    ensures SeqnoRange(rows, r.minSeqno, r.maxSeqno)
  {
    hide File, Chunks, ProbesSet, ExactBits, SeqnoRange;
  }
}
