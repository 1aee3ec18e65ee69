/** Reading a whole table in order, checking a whole table, and the round trips from the writer. */
module TableScan {
  import opened Bytes
  import opened Crc32
  import opened Memtables
  import opened Seqs
  import opened TableFormat
  import opened TableLayout
  import opened TableWriter
  import opened TableReaders
  import opened BloomFilters
  import opened BlockCaches

  /** The loop's step over the rest of a block's entries. */
  lemma NextRow(b: bytes, p: nat, rows: seq<Row>)
    requires p < |b|
    ensures |b| - p < 17 ==> EntriesOf(b[p..]) == None
    ensures |b| - p >= 17 ==>
              var n, m := GetU32(b[p..p + 4]), GetU32(b[p + 4..p + 8]);
              if p + 17 + n + m > |b| then EntriesOf(b[p..]) == None
              else
                var e := Entry(b[p + 17 + n..p + 17 + n + m], GetU64(b[p + 8..p + 16]), b[p + 16] % 2 == 1);
                InFrontOf(rows, EntriesOf(b[p..]))
                == InFrontOf(rows + [Row(b[p + 17..p + 17 + n], e)], EntriesOf(b[p + 17 + n + m..]))
  {
    hide GetU32, GetU64, EntriesOf;
    var c := b[p..];
    EntriesStep(c);
    if |c| >= 17 {
      assert c[..4] == b[p..p + 4] && c[4..8] == b[p + 4..p + 8] && c[8..16] == b[p + 8..p + 16];
      var n, m := GetU32(c[..4]), GetU32(c[4..8]);
      if 17 + n + m <= |c| {
        assert c[17..17 + n] == b[p + 17..p + 17 + n] && c[17 + n..17 + n + m] == b[p + 17 + n..p + 17 + n + m];
        assert c[17 + n + m..] == b[p + 17 + n + m..] && c[16] == b[p + 16];
        var row := Row(c[17..17 + n], Entry(c[17 + n..17 + n + m], GetU64(c[8..16]), c[16] % 2 == 1));
        var rest := EntriesOf(c[17 + n + m..]);
        assert rest.Some? ==> rows + ([row] + rest.value) == (rows + [row]) + rest.value;
      }
    }
  }

  lemma SameNumbers(block: bytes, body: bytes, p: nat)
    requires body <= block && p + 17 <= |body|
    ensures block[p..p + 4] == body[p..p + 4] && block[p + 4..p + 8] == body[p + 4..p + 8]
    ensures block[p + 8..p + 16] == body[p + 8..p + 16] && block[p + 16] == body[p + 16]
  {
  }

  lemma SameStrings(block: bytes, body: bytes, p: nat, n: nat, m: nat)
    requires body <= block && p + 17 + n + m <= |body|
    ensures block[p + 17..p + 17 + n] == body[p + 17..p + 17 + n]
    ensures block[p + 17 + n..p + 17 + n + m] == body[p + 17 + n..p + 17 + n + m]
  {
  }

  /** Walk the entries of any block that checks. */
  method ScanBlock(block: bytes) returns (r: ReadResult<seq<Row>>)
    requires |block| >= 12 && CrcOk(block)
    ensures r == Parsed(BlockRows(block))
  {
    hide GetU32, GetU64, EntriesOf, CrcOk;
    var restartCount := GetU32(block[|block| - 8..|block| - 4]);
    if 8 + 4 * restartCount > |block| {
      return Corrupt;
    }
    var entriesEnd := |block| - 8 - 4 * restartCount;
    ghost var body := block[..entriesEnd];
    var p, found := 0, [];
    NoEntriesIn();
    assert body[0..] == body;
    assert EntriesOf(body).Some? ==> [] + EntriesOf(body).value == EntriesOf(body).value;
    while p < entriesEnd
      invariant p <= entriesEnd
      invariant EntriesOf(body) == InFrontOf(found, EntriesOf(body[p..]))
    {
      NextRow(body, p, found);
      if p + ENTRY_HEADER > entriesEnd {
        return Corrupt;
      }
      SameNumbers(block, body, p);
      var klen, vlen := GetU32(block[p..p + 4]), GetU32(block[p + 4..p + 8]);
      var seqno, flags := GetU64(block[p + 8..p + 16]), block[p + 16];
      if p + ENTRY_HEADER + klen + vlen > entriesEnd {
        return Corrupt;
      }
      SameStrings(block, body, p, klen, vlen);
      var key := block[p + ENTRY_HEADER..p + ENTRY_HEADER + klen];
      var value := block[p + ENTRY_HEADER + klen..p + ENTRY_HEADER + klen + vlen];
      found := found + [Row(key, Entry(value, seqno, flags % 2 == 1))];
      p := p + ENTRY_HEADER + klen + vlen;
    }
    assert body[p..] == [] && found + [] == found;
    r := Good(found);
  }

  // ----- footer, index and filter of any file -----

  /** The index of any file, and where it begins, if footer, index and filter pass their checks. */
  ghost function InspectionOf(file: bytes, checkVersion: bool, minFilter: nat): ReadResult<(seq<IndexEntry>, nat)>
    requires minFilter >= 4
  {
    if !FooterOk(file, checkVersion, minFilter) then Corrupt
    else
      var b := file[|file| - 40..];
      var indexOff, indexSize := Value(b[0..8]), Value(b[8..16]);
      var filterOff, filterSize := Value(b[16..24]), Value(b[24..32]);
      if indexOff + indexSize > |file| || filterOff + filterSize > |file| then Corrupt
      else
        var index, filter := file[indexOff..indexOff + indexSize], file[filterOff..filterOff + filterSize];
        if !CrcOk(index) || !CrcOk(filter) || IndexOf(index[..indexSize - 4]).None? then Corrupt
        else Good((IndexOf(index[..indexSize - 4]).value, indexOff))
  }

  method Inspect(file: bytes, checkVersion: bool, minFilter: nat) returns (r: ReadResult<(seq<IndexEntry>, nat)>)
    requires minFilter >= 4
    ensures r == InspectionOf(file, checkVersion, minFilter)
  {
    hide Value, CrcOk, IndexOf, RangeInside;
    var sections := ReadFooter(file, checkVersion, minFilter);
    if sections.Corrupt? {
      return Corrupt;
    }
    var (indexOff, indexSize, filterOff, filterSize) := sections.value;
    var indexBlock := ReadRange(file, indexOff, indexSize);
    if indexBlock.Corrupt? {
      return Corrupt;
    }
    var entries := ParseIndex(indexBlock.value);
    if entries.Corrupt? {
      return Corrupt;
    }
    var filterBlock := ReadRange(file, filterOff, filterSize);
    if filterBlock.Corrupt? {
      return Corrupt;
    }
    var ok := CheckCrc(filterBlock.value);
    if !ok {
      return Corrupt;
    }
    r := Good((entries.value, indexOff));
  }

  ghost predicate Intact(file: bytes, s: Spec) {
    IndexIntact(file, s) && FilterIntact(file, s)
  }

  /** Of a copy of a written table: its index, unless index or filter is damaged, which is always noticed. */
  lemma InspectionOfCopy(file: bytes, checkVersion: bool, minFilter: nat, s: Spec, damage: nat)
    requires Genuine(s) && DamagedCopy(file, s, damage) && 4 <= minFilter <= 24
    ensures InspectionOf(file, checkVersion, minFilter)
            == if Intact(file, s) then Good((TheIndex(s), |Data(s)|)) else Corrupt
  {
    hide Genuine, DamagedCopy, Data, IndexBytes, IndexBlock, FilterBytes, TheIndex, Footer, Image, FilterBlock, CrcOk,
      IndexOf, Value, FooterOk;
    SectionsOfCopy(file, s, damage);
    IndexEntriesFit(s);
    IndexBytesAre(s);
    WrittenIndex(TheIndex(s));
    WrittenFooter(file, checkVersion, minFilter, |Data(s)|, |IndexBytes(s)|, |FilterBytes(s)|);
    assert IndexSlice(file, s) == file[|Data(s)|..|Data(s)| + |IndexBytes(s)|];
    assert FilterSlice(file, s)
           == file[|Data(s)| + |IndexBytes(s)|..|Data(s)| + |IndexBytes(s)| + |FilterBytes(s)|];
  }

  lemma IndexBytesAre(s: Spec)
    ensures IndexBytes(s) == IndexBlock(TheIndex(s))
  {
  }

  // ----- a full pass notices any damage -----

  lemma {:induction false} DataPosition(chunks: seq<seq<Row>>, interval: positive, d: nat) returns (j: nat)
    requires d < |Blocks(chunks, interval)|
    ensures j < |chunks|
    ensures |Blocks(chunks[..j], interval)| <= d < |Blocks(chunks[..j], interval)| + |Block(chunks[j], interval)|
    decreases |chunks|
  {
    hide Block;
    var n := |chunks| - 1;
    if d < |Blocks(chunks[..n], interval)| {
      j := DataPosition(chunks[..n], interval, d);
      assert chunks[..n][..j] == chunks[..j];
    } else {
      j := n;
    }
  }

  ghost predicate Undamaged(file: bytes, s: Spec, n: nat)
    requires n <= |s.chunks| == |TheIndex(s)|
  {
    forall j :: 0 <= j < n ==> !BlockDamaged(file, s, j)
  }

  /** A damaged byte outside the index and the filter is one of the data. */
  lemma DamageInData(file: bytes, s: Spec, damage: nat)
    requires Genuine(s) && DamagedCopy(file, s, damage) && Intact(file, s) && file != Image(s)
    ensures damage < |Data(s)| <= |file| == |Image(s)| && file[damage] != Image(s)[damage]
  {
    hide Genuine, Image, Data, IndexBytes, FilterBytes;
    SectionSizes(s);
    SectionsOf(s);
    assert damage < |file| && file[damage] != Image(s)[damage];
    var d, i, f := |Data(s)|, |IndexBytes(s)|, |FilterBytes(s)|;
    SameStretch(file, Image(s), d, i);
    SameStretch(file, Image(s), d + i, f);
  }

  lemma SameStretch(x: bytes, y: bytes, from: nat, size: nat)
    requires |x| == |y| && from + size <= |x| && x[from..from + size] == y[from..from + size]
    ensures forall d :: from <= d < from + size ==> x[d] == y[d]
  {
    forall d | from <= d < from + size ensures x[d] == y[d] {
      SamePosition(x, y, from, size, d);
    }
  }

  lemma ImageIsIntact(s: Spec)
    ensures Intact(Image(s), s)
  {
    hide Image, Data, IndexBytes, FilterBytes, Footer;
    SectionsOf(s);
  }

  /** A copy whose index, filter and blocks are all intact is the image itself. */
  lemma AllIntact(file: bytes, s: Spec, damage: nat)
    requires Genuine(s) && DamagedCopy(file, s, damage) && Intact(file, s) && |TheIndex(s)| == |s.chunks|
    ensures Undamaged(file, s, |s.chunks|) <==> file == Image(s)
  {
    hide Genuine, Image, TheIndex, Block, Blocks, Intact;
    if file == Image(s) {
      forall j | 0 <= j < |s.chunks| ensures !BlockDamaged(file, s, j) {
        BlockInImage(s, j, TheIndex(s)[j]);
      }
    } else if Undamaged(file, s, |s.chunks|) {
      DamageInData(file, s, damage);
      var j := DataPosition(s.chunks, s.interval, damage);
      var e := TheIndex(s)[j];
      EntryAt(s, j);
      BlockInImage(s, j, e);
      assert !BlockDamaged(file, s, j);
      SamePosition(file, Image(s), e.offset, e.size, damage);
    }
  }

  lemma EntryAt(s: Spec, j: nat)
    requires j < |s.chunks| == |TheIndex(s)|
    ensures TheIndex(s)[j].offset == |Blocks(s.chunks[..j], s.interval)|
    ensures TheIndex(s)[j].size == |Block(s.chunks[j], s.interval)|
  {
    hide Block, Blocks, Index;
    IndexAt(s.chunks, s.interval, j);
  }

  lemma SamePosition(x: bytes, y: bytes, from: nat, size: nat, d: nat)
    requires |x| == |y| && from + size <= |x| && from <= d < from + size
    requires x[from..from + size] == y[from..from + size]
    ensures x[d] == y[d]
  {
    assert x[d] == x[from..from + size][d - from];
  }

  /** The rows of the block an index entry of any file points to. */
  ghost function RowsAt(file: bytes, e: IndexEntry): Option<seq<Row>> {
    if e.offset + e.size > |file| then None else BlockRows(file[e.offset..e.offset + e.size])
  }

  ghost function RowsOfAll(file: bytes, index: seq<IndexEntry>): Option<seq<Row>> {
    if index == [] then Some([])
    else
      var n := |index| - 1;
      var front, last := RowsOfAll(file, index[..n]), RowsAt(file, index[n]);
      if front.None? || last.None? then None else Some(front.value + last.value)
  }

  lemma {:induction false} OneBadBlock(file: bytes, index: seq<IndexEntry>, j: nat)
    requires j < |index| && RowsAt(file, index[j]).None?
    ensures RowsOfAll(file, index).None?
    decreases |index|
  {
    hide RowsAt;
    if j < |index| - 1 {
      OneBadBlock(file, index[..|index| - 1], j);
    }
  }

  /** What a scan of any file yields. */
  ghost function ScanOf(file: bytes): ReadResult<seq<Row>> {
    var i := InspectionOf(file, false, 24);
    if i.Corrupt? then Corrupt else Parsed(RowsOfAll(file, i.value.0))
  }

  lemma OneMoreScanned(file: bytes, index: seq<IndexEntry>, n: nat)
    requires n < |index|
    ensures var front, last := RowsOfAll(file, index[..n]), RowsAt(file, index[n]);
            RowsOfAll(file, index[..n + 1])
            == if front.None? || last.None? then None else Some(front.value + last.value)
  {
    hide RowsAt;
    assert index[..n + 1][..n] == index[..n];
  }

  /** Stream every entry of any file in index order, block by block. */
  method ScanTable(file: bytes) returns (r: ReadResult<seq<Row>>)
    ensures r == ScanOf(file)
  {
    hide InspectionOf, BlockRows, CrcOk, RowsOfAll;
    var inspected := Inspect(file, false, 24);
    if inspected.Corrupt? {
      return Corrupt;
    }
    var index := inspected.value.0;
    var rows, n := [], 0;
    NothingScannedYet(file, index);
    while n < |index|
      invariant 0 <= n <= |index| && RowsOfAll(file, index[..n]) == Some(rows)
    {
      OneMoreScanned(file, index, n);
      var e := index[n];
      var read := ReadRange(file, e.offset, e.size);
      if read.Corrupt? || e.size < 12 {
        BadBlock(file, index, n);
        return Corrupt;
      }
      var ok := CheckCrc(read.value);
      if !ok {
        Unchecked(read.value);
        BadBlock(file, index, n);
        return Corrupt;
      }
      var found := ScanBlock(read.value);
      if found.Corrupt? {
        BadBlock(file, index, n);
        return Corrupt;
      }
      rows := rows + found.value;
      n := n + 1;
    }
    assert index[..n] == index;
    r := Good(rows);
  }

  lemma NothingScannedYet(file: bytes, index: seq<IndexEntry>)
    ensures RowsOfAll(file, index[..0]) == Some([])
  {
  }

  lemma Unchecked(block: bytes)
    requires !CrcOk(block)
    ensures BlockRows(block).None?
  {
    hide CrcOk;
  }

  lemma TooShort(block: bytes)
    requires |block| < 12
    ensures BlockRows(block).None?
  {
  }

  lemma BadBlock(file: bytes, index: seq<IndexEntry>, n: nat)
    requires n < |index|
    requires var e := index[n];
             || e.offset + e.size > |file| || e.size < 12
             || BlockRows(file[e.offset..e.offset + e.size]).None?
    ensures RowsOfAll(file, index).None?
  {
    hide BlockRows, RowsOfAll;
    var e := index[n];
    if e.offset + e.size <= |file| && e.size < 12 {
      TooShort(file[e.offset..e.offset + e.size]);
    }
    OneBadBlock(file, index, n);
  }

  /** On a copy of a written table the scan succeeds exactly if nothing is damaged, and then yields
      exactly the rows that were written. */
  lemma ScanOfCopy(file: bytes, s: Spec, damage: nat)
    requires Genuine(s) && DamagedCopy(file, s, damage)
    ensures ScanOf(file) == if file == Image(s) then Good(Flatten(s.chunks)) else Corrupt
  {
    hide Genuine, DamagedCopy, TheIndex, Image, Block, BlockDamaged, Undamaged, Intact, Data, RowsOfAll, InspectionOf;
    InspectionOfCopy(file, false, 24, s, damage);
    ImageIsIntact(s);
    if Intact(file, s) {
      IndexKeysRise(s);
      AllIntact(file, s, damage);
      var index := TheIndex(s);
      if Undamaged(file, s, |s.chunks|) {
        GoodBlocks(file, s, damage, |s.chunks|);
        assert s.chunks[..|s.chunks|] == s.chunks && index[..|s.chunks|] == index;
      } else {
        var j := SomeDamaged(file, s);
        DamagedBlock(file, s, damage, j);
        OneBadBlock(file, index, j);
      }
    }
  }

  lemma SomeDamaged(file: bytes, s: Spec) returns (j: nat)
    requires |s.chunks| == |TheIndex(s)| && !Undamaged(file, s, |s.chunks|)
    ensures j < |s.chunks| && BlockDamaged(file, s, j)
  {
    hide TheIndex, BlockDamaged;
    j :| 0 <= j < |s.chunks| && BlockDamaged(file, s, j);
  }

  lemma DamagedBlock(file: bytes, s: Spec, damage: nat, j: nat)
    requires Genuine(s) && DamagedCopy(file, s, damage) && |s.chunks| == |TheIndex(s)| && j < |s.chunks|
    ensures var e := TheIndex(s)[j];
            && e.offset + e.size <= |file|
            && (CrcOk(file[e.offset..e.offset + e.size]) <==> !BlockDamaged(file, s, j))
            && (BlockDamaged(file, s, j) ==> RowsAt(file, e).None?)
            && (!BlockDamaged(file, s, j) ==> RowsAt(file, e) == Some(s.chunks[j]) && e.size >= 12)
  {
    hide Genuine, DamagedCopy, TheIndex, Block, CrcOk, BlockRows, Body, Restarts;
    var e := TheIndex(s)[j];
    var raw := if e.offset + e.size <= |file| then file[e.offset..e.offset + e.size] else [];
    BlockFromCopy(file, s, damage, j, e, raw);
    if !CrcOk(raw) {
      Unchecked(raw);
    }
    GenuineChunk(s, j);
    RowsFit(s.chunks[j], s.interval);
    BlockRowsOf(s.chunks[j], s.interval);
    BlockTrailer(s.chunks[j], s.interval);
  }

  lemma UndamagedFront(file: bytes, s: Spec, n: nat)
    requires 0 < n <= |s.chunks| == |TheIndex(s)| && Undamaged(file, s, n)
    ensures Undamaged(file, s, n - 1) && !BlockDamaged(file, s, n - 1)
  {
    hide TheIndex, BlockDamaged;
  }

  lemma RowsAtUndamaged(file: bytes, s: Spec, damage: nat, j: nat)
    requires Genuine(s) && DamagedCopy(file, s, damage) && j < |s.chunks| == |TheIndex(s)|
    requires !BlockDamaged(file, s, j)
    ensures RowsAt(file, TheIndex(s)[j]) == Some(s.chunks[j])
  {
    hide Genuine, DamagedCopy, TheIndex, BlockDamaged, CrcOk, RowsAt;
    DamagedBlock(file, s, damage, j);
  }

  lemma {:induction false} GoodBlocks(file: bytes, s: Spec, damage: nat, n: nat)
    requires Genuine(s) && DamagedCopy(file, s, damage) && n <= |s.chunks| == |TheIndex(s)| && Undamaged(file, s, n)
    ensures RowsOfAll(file, TheIndex(s)[..n]) == Some(Flatten(s.chunks[..n]))
    decreases n
  {
    hide Genuine, DamagedCopy, TheIndex, RowsOfAll, BlockDamaged, Flatten, RowsAt, Undamaged;
    if n == 0 {
      NothingScannedYet(file, TheIndex(s));
      NoChunks();
      assert s.chunks[..0] == [];
    } else {
      UndamagedFront(file, s, n);
      GoodBlocks(file, s, damage, n - 1);
      RowsAtUndamaged(file, s, damage, n - 1);
      OneMoreScanned(file, TheIndex(s), n - 1);
      assert s.chunks[..n] == s.chunks[..n - 1] + [s.chunks[n - 1]];
      FlattenSnoc(s.chunks[..n - 1], s.chunks[n - 1]);
    }
  }

  /** A block of any file passes: it lies before the index and its checksum holds. */
  ghost predicate BlockPasses(file: bytes, e: IndexEntry, indexOff: nat) {
    && RangeInside(e.offset, e.size, indexOff) && e.size >= 4 && e.offset + e.size <= |file|
    && CrcOk(file[e.offset..e.offset + e.size])
  }

  /** What `verify-sst` calls OK, of any file. */
  ghost predicate Verifies(file: bytes) {
    var i := InspectionOf(file, true, 4);
    i.Good? && forall j :: 0 <= j < |i.value.0| ==> BlockPasses(file, i.value.0[j], i.value.1)
  }

  /** The checksum pass of `verify-sst`, over any file. */
  method VerifyTable(file: bytes) returns (ok: bool)
    ensures ok <==> Verifies(file)
    ensures ok <==>
            && var i := InspectionOf(file, true, 4);
               i.Good? && forall j :: 0 <= j < |i.value.0| ==>
                            && var e := i.value.0[j];
                               (e.offset + e.size) % 0x1_0000_0000_0000_0000 <= i.value.1 && e.size >= 4
                               && e.offset + e.size <= |file| && CrcOk(file[e.offset..e.offset + e.size])
  {
    hide InspectionOf, CrcOk;
    var inspected := Inspect(file, true, 4);
    if inspected.Corrupt? {
      return false;
    }
    var (index, indexOff) := inspected.value;
    var n := 0;
    while n < |index|
      invariant 0 <= n <= |index| && forall j :: 0 <= j < n ==> BlockPasses(file, index[j], indexOff)
    {
      var e := index[n];
      var read := ReadRange(file, e.offset, e.size);
      if !RangeInside(e.offset, e.size, indexOff) || e.size < 4 || read.Corrupt? {
        assert !BlockPasses(file, index[n], indexOff);
        return false;
      }
      var checked := CheckCrc(read.value);
      if !checked {
        assert !BlockPasses(file, index[n], indexOff);
        return false;
      }
      n := n + 1;
    }
    ok := true;
  }

  /** On a copy of a written table it answers OK exactly if nothing is damaged. */
  lemma VerifiesCopy(file: bytes, s: Spec, damage: nat)
    requires Genuine(s) && DamagedCopy(file, s, damage)
    ensures Verifies(file) <==> file == Image(s)
  {
    hide Genuine, DamagedCopy, TheIndex, Image, Block, BlockDamaged, Undamaged, Intact, Data, InspectionOf, CrcOk;
    InspectionOfCopy(file, true, 4, s, damage);
    ImageIsIntact(s);
    if Intact(file, s) {
      IndexKeysRise(s);
      AllIntact(file, s, damage);
      forall j | 0 <= j < |s.chunks|
        ensures BlockPasses(file, TheIndex(s)[j], |Data(s)|) <==> !BlockDamaged(file, s, j)
      {
        PassesUndamaged(file, s, damage, j);
      }
      AllUndamaged(file, s);
    }
  }

  lemma AllUndamaged(file: bytes, s: Spec)
    requires |s.chunks| == |TheIndex(s)|
    ensures Undamaged(file, s, |s.chunks|) <==> forall j :: 0 <= j < |s.chunks| ==> !BlockDamaged(file, s, j)
  {
    hide TheIndex, BlockDamaged;
  }

  lemma PassesUndamaged(file: bytes, s: Spec, damage: nat, j: nat)
    requires Genuine(s) && DamagedCopy(file, s, damage) && |s.chunks| == |TheIndex(s)| && j < |s.chunks|
    ensures BlockPasses(file, TheIndex(s)[j], |Data(s)|) <==> !BlockDamaged(file, s, j)
  {
    hide Genuine, DamagedCopy, TheIndex, Image, Block, BlockDamaged, Data, CrcOk, RangeInside, RowsAt;
    var e := TheIndex(s)[j];
    DamagedBlock(file, s, damage, j);
    BlockInImage(s, j, e);
    SectionSizes(s);
    InsideUnlessWrapped(e.offset, e.size, |Data(s)|);
  }

  // ----- from the writer to the readers -----

  /** Lengths and offsets of the table fit their fields. */
  ghost predicate FitsFormat(rows: seq<Row>, blockSize: nat, interval: positive, numBits: nat, numHashes: nat) {
    && (forall i :: 0 <= i < |rows| ==> rows[i].entry.seqno < U64_LIMIT)
    && (forall j :: 0 <= j < |Chunks(rows, blockSize)| ==> |Block(Chunks(rows, blockSize)[j], interval)| < U32_LIMIT)
    && |Blocks(Chunks(rows, blockSize), interval)| + |IndexBlock(Index(Chunks(rows, blockSize), interval))|
       + (numBits + 7) / 8 + 64 < U64_LIMIT
    && 0 < numBits < U64_LIMIT && 0 < numHashes < U32_LIMIT
  }

  ghost function WrittenSpec(r: BuildResult, rows: seq<Row>, blockSize: nat, interval: positive): Spec
    requires r.Built?
  {
    Spec(Chunks(rows, blockSize), interval, r.bloom, |rows|)
  }

  lemma {:induction false} ChunkSeqnos(chunks: seq<seq<Row>>, j: nat)
    requires j < |chunks| && forall i :: 0 <= i < |Flatten(chunks)| ==> Flatten(chunks)[i].entry.seqno < U64_LIMIT
    ensures forall i :: 0 <= i < |chunks[j]| ==> chunks[j][i].entry.seqno < U64_LIMIT
  {
    hide Flatten;
    SplitAt(chunks, j);
    forall i | 0 <= i < |chunks[j]| ensures chunks[j][i].entry.seqno < U64_LIMIT {
      assert chunks[j][i] == Flatten(chunks)[|Flatten(chunks[..j])| + i];
    }
  }

  /** What the writer builds from an ordered memtable satisfies everything the readers rely on. */
  lemma BuiltIsGenuine(r: BuildResult, rows: seq<Row>, blockSize: nat, interval: positive, numBits: nat, numHashes: nat)
    requires r.Built? && rows != [] && Ordered(rows)
    requires Describes(r, rows, blockSize, interval, numBits, numHashes)
    requires FitsFormat(rows, blockSize, interval, numBits, numHashes)
    ensures Genuine(WrittenSpec(r, rows, blockSize, interval))
    ensures DamagedCopy(r.file, WrittenSpec(r, rows, blockSize, interval), |r.file|)
    ensures r.file == Image(WrittenSpec(r, rows, blockSize, interval))
  {
    hide Block, Blocks, Index, IndexBlock, FilterBlock, Footer, Ordered, ProbesSet, ExactBits, SeqnoRange, Chunks;
    var s := WrittenSpec(r, rows, blockSize, interval);
    var chunks := Chunks(rows, blockSize);
    SectionsOf(s);
    forall j | 0 <= j < |chunks| ensures ChunkFits(chunks[j], interval) {
      ChunkSeqnos(chunks, j);
    }
  }

  /** Sequential round trip: scanning what was written yields the memtable, and it verifies. */
  method WriteThenScan(mem: Memtable, blockSize: nat, interval: positive, numBits: nat, numHashes: nat)
      returns (rows: ReadResult<seq<Row>>, ok: bool)
    requires mem.Valid() && mem.rows != [] && FitsFormat(mem.rows, blockSize, interval, numBits, numHashes)
    ensures rows == Good(mem.rows) && Ordered(mem.rows) && ok
  {
    hide Genuine, DamagedCopy, Image, Describes, Ordered, Chunks, ScanOf, Verifies;
    var built := WriteTable(mem.rows, blockSize, interval, numBits, numHashes);
    BuiltIsGenuine(built, mem.rows, blockSize, interval, numBits, numHashes);
    ghost var s := WrittenSpec(built, mem.rows, blockSize, interval);
    ScanOfCopy(built.file, s, |built.file|);
    VerifiesCopy(built.file, s, |built.file|);
    rows := ScanTable(built.file);
    ok := VerifyTable(built.file);
  }

  /** Open what the writer built. */
  method OpenWritten(built: BuildResult, id: nat, pinIndex: bool, ghost s: Spec) returns (reader: TableReader)
    requires built.Built? && Genuine(s) && built.file == Image(s) && Flatten(s.chunks) != []
    requires built.minKey == Flatten(s.chunks)[0].key && built.maxKey == Flatten(s.chunks)[|Flatten(s.chunks)| - 1].key
    ensures fresh(reader) && reader.Valid() && reader.file == built.file && reader.id == id && reader.spec == s
  {
    hide Genuine, Image, Flatten, Data;
    reader := new TableReader(built.file, id, built.minKey, built.maxKey, pinIndex, s, |built.file|);
  }

  /** Write a memtable's rows and open the file. */
  method WriteAndOpen(rows: seq<Row>, blockSize: nat, interval: positive, numBits: nat, numHashes: nat, id: nat,
                      pinIndex: bool)
      returns (reader: TableReader)
    requires rows != [] && Ordered(rows) && FitsFormat(rows, blockSize, interval, numBits, numHashes)
    ensures fresh(reader) && reader.Valid() && reader.id == id
    ensures Genuine(reader.spec) && reader.file == Image(reader.spec) && Flatten(reader.spec.chunks) == rows
  {
    hide Genuine, DamagedCopy, Image, Ordered, Chunks, Flatten, Block, Blocks, Index, TheIndex, File, Describes,
      IndexBlock, FilterBlock, TableReader.Sound, TableReader.Valid;
    var built := WriteTable(rows, blockSize, interval, numBits, numHashes);
    BuiltIsGenuine(built, rows, blockSize, interval, numBits, numHashes);
    ChunkRows(rows, blockSize);
    KeyRange(built, rows, blockSize, interval, numBits, numHashes);
    reader := OpenWritten(built, id, pinIndex, WrittenSpec(built, rows, blockSize, interval));
  }

  lemma UnknownAgrees(index: map<CacheKey, Node>, id: nat, s: Spec)
    requires forall k :: k in index ==> k.table != id
    ensures CacheAgrees(index, id, s)
  {
    hide Block;
  }

  /** Point lookup refines the memtable: through the file, and through any cache that agrees. */
  method WriteThenGet(mem: Memtable, key: bytes, blockSize: nat, interval: positive, numBits: nat, numHashes: nat,
                      id: nat, pinIndex: bool, cache: BlockCache)
      returns (r: ReadResult<Option<Entry>>)
    requires mem.Valid() && mem.rows != [] && FitsFormat(mem.rows, blockSize, interval, numBits, numHashes)
    requires cache.Valid() && forall k :: k in cache.index ==> k.table != id
    modifies cache
    ensures r == Good(if key in ToMap(mem.rows) then Some(ToMap(mem.rows)[key]) else None)
  {
    hide Genuine, Image, Ordered, Flatten, TheIndex, CacheAgrees, Find, ToMap, FitsFormat;
    ghost var rows := mem.rows;
    var reader := WriteAndOpen(mem.rows, blockSize, interval, numBits, numHashes, id, pinIndex);
    UnknownAgrees(cache.index, id, reader.spec);
    r := reader.Get(key, cache);
    UndamagedAnswers(reader.file, reader.spec, key);
    FindInMap(rows, key);
  }

  lemma KeyRange(r: BuildResult, rows: seq<Row>, blockSize: nat, interval: positive, numBits: nat, numHashes: nat)
    requires r.Built? && rows != [] && Describes(r, rows, blockSize, interval, numBits, numHashes)
    ensures r.minKey == rows[0].key && r.maxKey == rows[|rows| - 1].key
  {
    hide File, Chunks, ProbesSet, ExactBits, SeqnoRange;
  }

  lemma ChunkRows(rows: seq<Row>, blockSize: nat)
    ensures Flatten(Chunks(rows, blockSize)) == rows
  {
  }

  lemma UndamagedAnswers(file: bytes, s: Spec, key: bytes)
    requires Genuine(s) && file == Image(s)
    ensures !ReadsDamage(file, s, key) && IndexIntact(file, s) && FilterIntact(file, s)
  {
    hide Genuine, Image, TheIndex, Target, Block, IndexIntact, FilterIntact;
    ImageIsIntact(s);
    if ReadsDamage(file, s, key) {
      var j :| 0 <= j < |s.chunks| && Target(s.chunks, key, j) && |TheIndex(s)| == |s.chunks|
        && BlockDamaged(file, s, j);
      BlockInImage(s, j, TheIndex(s)[j]);
    }
  }
}
