/** The layout of a table file: data blocks with restart points, a sparse index, a Bloom filter
    block and a footer; and what can be read back from each part. */
module TableFormat {
  import opened Bytes
  import opened Crc32
  import opened Memtables
  import opened Seqs

  const MAGIC: nat := 0x4C53_5354
  const VERSION: nat := 1
  const FOOTER_SIZE: nat := 40
  const FLAG_TOMBSTONE: byte := 1
  const ENTRY_HEADER: nat := 17

  datatype IndexEntry = IndexEntry(firstKey: bytes, offset: nat, size: nat)

  datatype Bloom = Bloom(numBits: nat, numHashes: nat, bits: bytes)

  /** Narrowing casts: the writer stores lengths modulo the field width. */
  function Put32(n: nat): (b: bytes)
    ensures |b| == 4
  {
    PutU32(n % U32_LIMIT)
  }

  function Put64(n: nat): (b: bytes)
    ensures |b| == 8
  {
    PutU64(n % U64_LIMIT)
  }

  lemma Put32RoundTrip(n: nat)
    requires n < U32_LIMIT
    ensures GetU32(Put32(n)) == n
  {
    hide PutU32, GetU32;
    U32RoundTrip(n);
  }

  lemma Put64RoundTrip(n: nat)
    requires n < U64_LIMIT
    ensures GetU64(Put64(n)) == n
  {
    hide PutU64, GetU64;
    U64RoundTrip(n);
  }

  // ----- data blocks -----

  function EncodeRow(r: Row): (b: bytes)
    ensures |b| == ENTRY_HEADER + |r.key| + |r.entry.value|
  {
    Put32(|r.key|) + Put32(|r.entry.value|) + Put64(r.entry.seqno)
    + [if r.entry.tombstone then FLAG_TOMBSTONE else 0] + r.key + r.entry.value
  }

  function Body(rows: seq<Row>): bytes {
    if rows == [] then [] else Body(rows[..|rows| - 1]) + EncodeRow(rows[|rows| - 1])
  }

  /** The rows at which a restart point stands: every `interval`-th, from the first. */
  function RestartRows(n: nat, interval: positive): (r: seq<nat>)
    ensures forall m :: 0 <= m < |r| ==> r[m] < n
    ensures n > 0 ==> |r| > 0 && r[0] == 0
    ensures |r| <= n
  {
    if n == 0 then [] else RestartRows(n - 1, interval) + if (n - 1) % interval == 0 then [n - 1] else []
  }

  function Offset(rows: seq<Row>, i: nat): nat
    requires i <= |rows|
  {
    |Body(rows[..i])|
  }

  function Restarts(rows: seq<Row>, interval: positive): (r: seq<nat>)
    ensures |r| == |RestartRows(|rows|, interval)|
  {
    var at := RestartRows(|rows|, interval);
    seq(|at|, m requires 0 <= m < |at| => Offset(rows, at[m]))
  }

  function OffsetBytes(offsets: seq<nat>): (b: bytes)
    ensures |b| == 4 * |offsets|
  {
    if offsets == [] then [] else OffsetBytes(offsets[..|offsets| - 1]) + Put32(offsets[|offsets| - 1])
  }

  function WithCrc(b: bytes): (r: bytes)
    ensures |r| == |b| + 4
  {
    b + CrcField(b)
  }

  predicate CrcOk(b: bytes) {
    |b| >= 4 && CrcField(b[..|b| - 4]) == b[|b| - 4..]
  }

  function Block(rows: seq<Row>, interval: positive): (b: bytes)
    ensures |b| == |Body(rows)| + 4 * |Restarts(rows, interval)| + 8
  {
    var restarts := Restarts(rows, interval);
    WithCrc(Body(rows) + OffsetBytes(restarts) + Put32(|restarts|))
  }

  lemma WithCrcOk(b: bytes)
    ensures CrcOk(WithCrc(b))
  {
    hide CrcField;
    assert WithCrc(b)[..|b|] == b && WithCrc(b)[|b|..] == CrcField(b);
  }

  /** A block with one byte changed anywhere, checksum included, no longer checks. */
  lemma ChangedBlockRejected(b: bytes, i: nat, x: byte)
    requires CrcOk(b) && i < |b| && x != b[i]
    ensures !CrcOk(b[i := x])
  {
    hide CrcField;
    var n := |b| - 4;
    if i < n {
      SingleByteChange(b[..n], i, x);
      assert b[i := x][..n] == b[..n][i := x] && b[i := x][n..] == b[n..];
    } else {
      assert b[i := x][..n] == b[..n];
      assert b[i := x][n..][i - n] == x && b[n..][i - n] == b[i];
    }
  }

  lemma {:induction false} BodyAppend(x: seq<Row>, y: seq<Row>)
    ensures Body(x + y) == Body(x) + Body(y)
    decreases |y|
  {
    hide EncodeRow;
    if y == [] {
      assert x + y == x;
    } else {
      assert (x + y)[..|x + y| - 1] == x + y[..|y| - 1];
      BodyAppend(x, y[..|y| - 1]);
    }
  }

  lemma BodyParts(x: seq<Row>, row: Row, y: seq<Row>)
    ensures Body(x + [row]) == Body(x) + EncodeRow(row)
    ensures Body(x + [row] + y) == Body(x) + EncodeRow(row) + Body(y)
  {
    hide EncodeRow;
    assert (x + [row])[..|x|] == x;
    BodyAppend(x + [row], y);
  }

  /** Row i stands between its offset and the next. */
  lemma RowStands(rows: seq<Row>, i: nat)
    requires i < |rows|
    ensures Offset(rows, i + 1) == Offset(rows, i) + |EncodeRow(rows[i])|
    ensures Offset(rows, i + 1) <= |Body(rows)|
    ensures Body(rows)[Offset(rows, i)..Offset(rows, i + 1)] == EncodeRow(rows[i])
  {
    hide EncodeRow, Body;
    var x, y := rows[..i], rows[i + 1..];
    BodyParts(x, rows[i], y);
    assert rows == x + [rows[i]] + y && rows[..i + 1] == x + [rows[i]];
  }

  lemma {:induction false} OffsetStands(offsets: seq<nat>, m: nat)
    requires m < |offsets|
    ensures OffsetBytes(offsets)[4 * m..4 * m + 4] == Put32(offsets[m])
    decreases |offsets|
  {
    hide Put32;
    if m < |offsets| - 1 {
      OffsetStands(offsets[..|offsets| - 1], m);
    }
  }

  predicate RowFits(r: Row) {
    |r.key| < U32_LIMIT && |r.entry.value| < U32_LIMIT && r.entry.seqno < U64_LIMIT
  }

  /** The numbers at the front of an encoded row. */
  lemma RowReads(r: Row, b: bytes)
    requires RowFits(r) && b == EncodeRow(r)
    ensures GetU32(b[0..4]) == |r.key| && GetU32(b[4..8]) == |r.entry.value| && GetU64(b[8..16]) == r.entry.seqno
    ensures (b[16] % 2 == 1) == r.entry.tombstone
    ensures b[17..17 + |r.key|] == r.key && b[17 + |r.key|..] == r.entry.value
  {
    hide Put32, Put64, GetU32, GetU64;
    Put32RoundTrip(|r.key|);
    Put32RoundTrip(|r.entry.value|);
    Put64RoundTrip(r.entry.seqno);
    assert b[0..4] == Put32(|r.key|) && b[4..8] == Put32(|r.entry.value|) && b[8..16] == Put64(r.entry.seqno);
  }

  /** An entry's flag byte is 1 for a tombstone and 0 otherwise. */
  lemma FlagByte(r: Row)
    ensures EncodeRow(r)[16] == if r.entry.tombstone then 1 else 0
  {
    hide Put32, Put64;
  }

  /** The restart points are the entries 0, k, 2k, and so on. */
  lemma {:induction false} RestartsEvery(n: nat, interval: positive)
    ensures var at := RestartRows(n, interval);
            && (forall m :: 0 <= m < |at| ==> at[m] == m * interval)
            && n <= |at| * interval < n + interval
    decreases n
  {
    if n > 0 {
      RestartsEvery(n - 1, interval);
      OneMoreEntry(n - 1, |RestartRows(n - 1, interval)|, interval);
    }
  }

  /** One more entry begins one more interval exactly when those begun so far are used up. */
  lemma OneMoreEntry(n: nat, m: nat, interval: positive)
    requires n <= m * interval < n + interval
    ensures n % interval == 0 ==> m * interval == n && n + 1 <= (m + 1) * interval < n + 1 + interval
    ensures n % interval != 0 ==> n + 1 <= m * interval < n + 1 + interval
  {
    if n % interval == 0 {
      MultipleBetween(n, m, interval);
      Distribute(m, interval);
    } else {
      NotMultiple(n, m, interval);
    }
  }

  lemma Distribute(m: nat, interval: positive)
    ensures (m + 1) * interval == m * interval + interval
  {
  }

  lemma NextMultiple(a: nat, b: nat, interval: positive)
    ensures a < b ==> a * interval + interval <= b * interval
  {
    if a < b {
      assert (a + 1) * interval <= b * interval;
      assert (a + 1) * interval == a * interval + interval;
    }
  }

  lemma MultipleBetween(n: nat, m: nat, interval: positive)
    requires n % interval == 0 && n <= m * interval < n + interval
    ensures m * interval == n
  {
    var q := n / interval;
    assert n == q * interval;
    NextMultiple(q, m, interval);
    NextMultiple(m, q, interval);
  }

  lemma NotMultiple(n: nat, m: nat, interval: positive)
    requires n % interval != 0
    ensures n != m * interval
  {
    var q := n / interval;
    assert n == q * interval + n % interval;
    NextMultiple(q, m, interval);
    NextMultiple(m, q, interval);
  }

  /** The trailer of a block: where its restarts begin and what each one says. */
  lemma BlockReads(rows: seq<Row>, interval: positive)
    requires |Block(rows, interval)| < U32_LIMIT
    ensures var b := Block(rows, interval);
            var restarts := Restarts(rows, interval);
            && CrcOk(b)
            && GetU32(b[|b| - 8..|b| - 4]) == |restarts|
            && b[..|Body(rows)|] == Body(rows)
  {
    hide Body, CrcField, Put32, GetU32, Restarts, OffsetBytes;
    var b := Block(rows, interval);
    var restarts := Restarts(rows, interval);
    var prefix := Body(rows) + OffsetBytes(restarts) + Put32(|restarts|);
    WithCrcOk(prefix);
    assert b[|b| - 8..|b| - 4] == Put32(|restarts|);
    Put32RoundTrip(|restarts|);
  }

  /** Where restart m points. */
  function RestartTarget(rows: seq<Row>, interval: positive, m: nat): nat
    requires m < |Restarts(rows, interval)|
  {
    Restarts(rows, interval)[m]
  }

  lemma RestartReads(rows: seq<Row>, interval: positive, m: nat, b: bytes, at: nat)
    requires b == Block(rows, interval) && |b| < U32_LIMIT
    requires m < |Restarts(rows, interval)| && at == |Body(rows)| + 4 * m
    ensures at + 4 <= |b| && GetU32(b[at..at + 4]) == RestartTarget(rows, interval, m) < |b|
  {
    hide Body, CrcField, Put32, GetU32, OffsetBytes, RestartRows;
    var restarts := Restarts(rows, interval);
    OffsetStands(restarts, m);
    assert b[at..at + 4] == OffsetBytes(restarts)[4 * m..4 * m + 4];
    RowStands(rows, RestartRows(|rows|, interval)[m]);
    Put32RoundTrip(restarts[m]);
  }

  /** Row i as it is read out of a byte string that starts with the block's rows. */
  lemma BlockRowReads(rows: seq<Row>, b: bytes, i: nat)
    requires i < |rows| && RowFits(rows[i]) && Body(rows) <= b
    ensures var p := Offset(rows, i);
            var r := rows[i];
            && p + ENTRY_HEADER + |r.key| + |r.entry.value| == Offset(rows, i + 1) <= |Body(rows)|
            && GetU32(b[p..p + 4]) == |r.key| && GetU32(b[p + 4..p + 8]) == |r.entry.value|
            && GetU64(b[p + 8..p + 16]) == r.entry.seqno && (b[p + 16] % 2 == 1) == r.entry.tombstone
            && b[p + 17..p + 17 + |r.key|] == r.key
            && b[p + 17 + |r.key|..p + 17 + |r.key| + |r.entry.value|] == r.entry.value
  {
    hide Body, EncodeRow, GetU32, GetU64;
    RowStands(rows, i);
    var p, q := Offset(rows, i), Offset(rows, i + 1);
    var e := EncodeRow(rows[i]);
    assert b[p..q] == e by {
      assert b[..|Body(rows)|] == Body(rows);
      assert b[p..q] == b[..|Body(rows)|][p..q];
    }
    RowReads(rows[i], e);
    var n := |rows[i].key|;
    SubSlice(b, p, e, 0, 4);
    SubSlice(b, p, e, 4, 8);
    SubSlice(b, p, e, 8, 16);
    SubSlice(b, p, e, 16, 17);
    SubSlice(b, p, e, 17, 17 + n);
    SubSlice(b, p, e, 17 + n, |e|);
    assert b[p + 16] == b[p + 16..p + 17][0] == e[16];
    assert e[17 + n..|e|] == e[17 + n..];
  }

  // ----- index, filter, footer -----

  function EncodeIndexEntry(e: IndexEntry): (b: bytes)
    ensures |b| == 16 + |e.firstKey|
  {
    Put32(|e.firstKey|) + e.firstKey + Put64(e.offset) + Put32(e.size)
  }

  function IndexBody(index: seq<IndexEntry>): bytes {
    if index == [] then [] else IndexBody(index[..|index| - 1]) + EncodeIndexEntry(index[|index| - 1])
  }

  function IndexBlock(index: seq<IndexEntry>): bytes {
    WithCrc(IndexBody(index))
  }

  function FilterBlock(bloom: Bloom, numKeys: nat): (b: bytes)
    ensures |b| == 24 + |bloom.bits|
  {
    WithCrc(Put64(bloom.numBits) + Put32(bloom.numHashes) + Put64(numKeys) + bloom.bits)
  }

  function Footer(indexOff: nat, indexSize: nat, filterOff: nat, filterSize: nat): (b: bytes)
    ensures |b| == FOOTER_SIZE
  {
    Put64(indexOff) + Put64(indexSize) + Put64(filterOff) + Put64(filterSize) + Put32(VERSION) + Put32(MAGIC)
  }

  predicate IndexEntryFits(e: IndexEntry) {
    |e.firstKey| < U32_LIMIT && e.offset < U64_LIMIT && e.size < U32_LIMIT
  }

  /** The entries an index spells out, if they fill it exactly. */
  function IndexOf(b: bytes): Option<seq<IndexEntry>> {
    if b == [] then Some([])
    else if |b| < 4 then None
    else
      var n := GetU32(b[..4]);
      if 16 + n > |b| then None
      else
        var rest := IndexOf(b[16 + n..]);
        if rest.None? then None
        else Some([IndexEntry(b[4..4 + n], GetU64(b[4 + n..12 + n]), GetU32(b[12 + n..16 + n]))] + rest.value)
  }

  lemma IndexOfCons(e: IndexEntry, b: bytes, c: bytes)
    requires IndexEntryFits(e) && c == EncodeIndexEntry(e) + b
    ensures IndexOf(c) == if IndexOf(b).None? then None else Some([e] + IndexOf(b).value)
  {
    hide Put32, Put64, GetU32, GetU64;
    var n := |e.firstKey|;
    Put32RoundTrip(n);
    Put64RoundTrip(e.offset);
    Put32RoundTrip(e.size);
    assert c[..4] == Put32(n) && c[4..4 + n] == e.firstKey;
    assert c[4 + n..12 + n] == Put64(e.offset) && c[12 + n..16 + n] == Put32(e.size) && c[16 + n..] == b;
  }

  /** What was encoded is read back, and nothing else spells it. */
  lemma {:induction false} IndexOfBody(index: seq<IndexEntry>)
    requires forall i :: 0 <= i < |index| ==> IndexEntryFits(index[i])
    ensures IndexOf(IndexBody(index)) == Some(index)
    decreases |index|
  {
    hide EncodeIndexEntry, IndexOf;
    if index == [] {
      NoIndex();
    } else {
      assert index == [index[0]] + index[1..] && [index[0]][..0] == [];
      IndexAppend([index[0]], index[1..]);
      OneIndexEntry(index[0]);
      IndexOfBody(index[1..]);
      IndexOfCons(index[0], IndexBody(index[1..]), IndexBody(index));
    }
  }

  lemma NoIndex()
    ensures IndexBody([]) == [] && IndexOf([]) == Some([])
  {
  }

  lemma OneIndexEntry(e: IndexEntry)
    ensures IndexBody([e]) == EncodeIndexEntry(e)
  {
    hide EncodeIndexEntry;
    assert [e][..0] == [];
  }

  /** The entries a block's rows spell out, if they fill it exactly. */
  function EntriesOf(b: bytes): Option<seq<Row>> {
    if b == [] then Some([])
    else if |b| < 17 then None
    else
      var n, m := GetU32(b[..4]), GetU32(b[4..8]);
      if 17 + n + m > |b| then None
      else
        var rest := EntriesOf(b[17 + n + m..]);
        if rest.None? then None
        else Some([Row(b[17..17 + n], Entry(b[17 + n..17 + n + m], GetU64(b[8..16]), b[16] % 2 == 1))] + rest.value)
  }

  /** Rows in front of what the rest spells out. */
  function InFrontOf(rows: seq<Row>, rest: Option<seq<Row>>): Option<seq<Row>> {
    if rest.None? then None else Some(rows + rest.value)
  }

  lemma EntriesStep(c: bytes)
    requires c != []
    ensures |c| < 17 ==> EntriesOf(c) == None
    ensures |c| >= 17 ==>
              var n, m := GetU32(c[..4]), GetU32(c[4..8]);
              if 17 + n + m > |c| then EntriesOf(c) == None
              else
                var e := Entry(c[17 + n..17 + n + m], GetU64(c[8..16]), c[16] % 2 == 1);
                EntriesOf(c) == InFrontOf([Row(c[17..17 + n], e)], EntriesOf(c[17 + n + m..]))
  {
    hide GetU32, GetU64;
  }

  /** An encoded entry, read out of a longer string. */
  lemma RowInFront(r: Row, b: bytes, c: bytes)
    requires RowFits(r) && c == EncodeRow(r) + b
    ensures var n, m := |r.key|, |r.entry.value|;
            && |c| == 17 + n + m + |b| && GetU32(c[..4]) == n && GetU32(c[4..8]) == m
            && GetU64(c[8..16]) == r.entry.seqno
            && (c[16] % 2 == 1) == r.entry.tombstone && c[17..17 + n] == r.key
            && c[17 + n..17 + n + m] == r.entry.value && c[17 + n + m..] == b
  {
    hide EncodeRow, GetU32, GetU64;
    var e := EncodeRow(r);
    RowReads(r, e);
    var n, m := |r.key|, |r.entry.value|;
    SubSlice(c, 0, e, 0, 4);
    SubSlice(c, 0, e, 4, 8);
    SubSlice(c, 0, e, 8, 16);
    SubSlice(c, 0, e, 17, 17 + n);
    SubSlice(c, 0, e, 17 + n, 17 + n + m);
    assert e[17 + n..17 + n + m] == e[17 + n..];
  }

  lemma EntriesOfCons(r: Row, b: bytes, c: bytes)
    requires RowFits(r) && c == EncodeRow(r) + b
    ensures EntriesOf(c) == InFrontOf([r], EntriesOf(b))
  {
    hide EncodeRow, GetU32, GetU64, EntriesOf, InFrontOf;
    RowInFront(r, b, c);
    EntriesStep(c);
  }

  lemma {:induction false} EntriesOfBody(rows: seq<Row>)
    requires forall i :: 0 <= i < |rows| ==> RowFits(rows[i])
    ensures EntriesOf(Body(rows)) == Some(rows)
    decreases |rows|
  {
    hide EncodeRow, EntriesOf, RowFits;
    if rows == [] {
      NoEntriesIn();
    } else {
      assert rows == [rows[0]] + rows[1..] && [] + [rows[0]] == [rows[0]];
      BodyParts([], rows[0], rows[1..]);
      NoEntriesIn();
      EntriesOfBody(rows[1..]);
      EntriesOfCons(rows[0], Body(rows[1..]), Body(rows));
    }
  }

  lemma NoEntriesIn()
    ensures Body([]) == [] && EntriesOf([]) == Some([])
  {
  }

  /** The rows of a data block: it checks, its restart count fits, and its entries fill the rest. */
  function BlockRows(block: bytes): Option<seq<Row>> {
    if |block| < 12 || !CrcOk(block) then None
    else
      var trailer := 8 + 4 * GetU32(block[|block| - 8..|block| - 4]);
      if trailer > |block| then None else EntriesOf(block[..|block| - trailer])
  }

  lemma BlockRowsOf(rows: seq<Row>, interval: positive)
    requires rows != [] && |Block(rows, interval)| < U32_LIMIT && forall i :: 0 <= i < |rows| ==> RowFits(rows[i])
    ensures BlockRows(Block(rows, interval)) == Some(rows)
  {
    hide Body, EntriesOf, GetU32, CrcOk, Restarts, RowFits, CrcField;
    BlockReads(rows, interval);
    EntriesOfBody(rows);
    SomeBytes(rows);
    AtLeastOneRestart(rows, interval);
  }

  lemma SomeBytes(rows: seq<Row>)
    requires rows != []
    ensures |Body(rows)| >= 17
  {
  }

  lemma AtLeastOneRestart(rows: seq<Row>, interval: positive)
    requires rows != []
    ensures |Restarts(rows, interval)| > 0
  {
    hide Body;
  }

  lemma {:induction false} IndexAppend(x: seq<IndexEntry>, y: seq<IndexEntry>)
    ensures IndexBody(x + y) == IndexBody(x) + IndexBody(y)
    decreases |y|
  {
    hide EncodeIndexEntry;
    if y == [] {
      assert x + y == x;
    } else {
      assert (x + y)[..|x + y| - 1] == x + y[..|y| - 1];
      IndexAppend(x, y[..|y| - 1]);
    }
  }

  lemma IndexEntryReads(index: seq<IndexEntry>, b: bytes, i: nat)
    requires i < |index| && IndexEntryFits(index[i]) && IndexBody(index) <= b
    ensures var p := |IndexBody(index[..i])|;
            var e := index[i];
            var n := |e.firstKey|;
            && p + 16 + n == |IndexBody(index[..i + 1])| <= |IndexBody(index)|
            && GetU32(b[p..p + 4]) == n && b[p + 4..p + 4 + n] == e.firstKey
            && GetU64(b[p + 4 + n..p + 12 + n]) == e.offset && GetU32(b[p + 12 + n..p + 16 + n]) == e.size
  {
    hide IndexBody, Put32, Put64, GetU32, GetU64;
    var p := |IndexBody(index[..i])|;
    var e := index[i];
    var n := |e.firstKey|;
    IndexEntryStands(index, i);
    assert b[p..p + 16 + n] == EncodeIndexEntry(e) by {
      assert b[..|IndexBody(index)|] == IndexBody(index);
      assert b[p..p + 16 + n] == b[..|IndexBody(index)|][p..p + 16 + n];
    }
    var c := EncodeIndexEntry(e);
    SubSlice(b, p, c, 0, 4);
    SubSlice(b, p, c, 4, 4 + n);
    SubSlice(b, p, c, 4 + n, 12 + n);
    SubSlice(b, p, c, 12 + n, 16 + n);
    assert c[0..4] == Put32(n) && c[4..4 + n] == e.firstKey;
    assert c[4 + n..12 + n] == Put64(e.offset) && c[12 + n..16 + n] == Put32(e.size);
    Put32RoundTrip(n);
    Put64RoundTrip(e.offset);
    Put32RoundTrip(e.size);
  }

  lemma IndexEntryStands(index: seq<IndexEntry>, i: nat)
    requires i < |index|
    ensures var p := |IndexBody(index[..i])|;
            var q := |IndexBody(index[..i + 1])|;
            p + 16 + |index[i].firstKey| == q <= |IndexBody(index)|
            && IndexBody(index)[p..q] == EncodeIndexEntry(index[i])
  {
    hide EncodeIndexEntry;
    assert index[..i + 1][..i] == index[..i];
    assert index == index[..i + 1] + index[i + 1..];
    IndexAppend(index[..i + 1], index[i + 1..]);
  }

  // ----- whole files -----

  /** Cut the rows into blocks: each takes rows until its encoding reaches the block size. */
  function Cut(rows: seq<Row>, blockSize: nat, n: nat): (m: nat)
    requires 1 <= n <= |rows|
    ensures n <= m <= |rows|
    decreases |rows| - n
  {
    if n == |rows| || |Body(rows[..n])| >= blockSize then n else Cut(rows, blockSize, n + 1)
  }

  function Chunks(rows: seq<Row>, blockSize: nat): (chunks: seq<seq<Row>>)
    ensures Flatten(chunks) == rows
    ensures forall i :: 0 <= i < |chunks| ==> chunks[i] != []
    decreases |rows|
  {
    if rows == [] then []
    else
      var n := Cut(rows, blockSize, 1);
      var rest := Chunks(rows[n..], blockSize);
      FlattenCons(rows[..n], rest);
      [rows[..n]] + rest
  }

  /** Every block but the last is cut by the first entry that brings it to the block size; the last is
      cut by the end, if not before. */
  lemma {:induction false} CutWhenFull(rows: seq<Row>, blockSize: nat, j: nat)
    requires j < |Chunks(rows, blockSize)|
    ensures var c := Chunks(rows, blockSize)[j];
            && (|c| > 1 ==> |Body(c[..|c| - 1])| < blockSize)
            && (j < |Chunks(rows, blockSize)| - 1 ==> |Body(c)| >= blockSize)
    decreases |rows|
  {
    hide Body, Cut, Flatten;
    var n := Cut(rows, blockSize, 1);
    CutIs(rows, blockSize, 1);
    assert n > 1 ==> rows[..n][..n - 1] == rows[..n - 1];
    if j > 0 {
      CutWhenFull(rows[n..], blockSize, j - 1);
    } else if n == |rows| {
      assert rows[n..] == [];
    }
  }

  lemma {:induction false} CutIs(rows: seq<Row>, blockSize: nat, n: nat)
    requires 1 <= n <= |rows|
    ensures var m := Cut(rows, blockSize, n);
            (m > n ==> |Body(rows[..m - 1])| < blockSize) && (m < |rows| ==> |Body(rows[..m])| >= blockSize)
    decreases |rows| - n
  {
    hide Body;
    if n < |rows| && |Body(rows[..n])| < blockSize {
      CutIs(rows, blockSize, n + 1);
    }
  }

  function Blocks(chunks: seq<seq<Row>>, interval: positive): bytes
  {
    if chunks == [] then []
    else Blocks(chunks[..|chunks| - 1], interval) + Block(chunks[|chunks| - 1], interval)
  }

  function FirstKey(rows: seq<Row>): bytes {
    if rows == [] then [] else rows[0].key
  }

  function Index(chunks: seq<seq<Row>>, interval: positive): (index: seq<IndexEntry>)
    ensures |index| == |chunks|
  {
    if chunks == [] then []
    else
      var front, last := chunks[..|chunks| - 1], chunks[|chunks| - 1];
      Index(front, interval)
      + [IndexEntry(FirstKey(last), |Blocks(front, interval)|, |Block(last, interval)|)]
  }

  /** The bytes of a table: the blocks, the index, the filter, and a footer that locates them. */
  function File(chunks: seq<seq<Row>>, interval: positive, bloom: Bloom, numKeys: nat): bytes
  {
    var data := Blocks(chunks, interval);
    var index := IndexBlock(Index(chunks, interval));
    var filter := FilterBlock(bloom, numKeys);
    data + index + filter + Footer(|data|, |index|, |data| + |index|, |filter|)
  }
}
