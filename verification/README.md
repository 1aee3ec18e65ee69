# lsmkv in Dafny

A model of the lsmkv storage engine and proofs about it. The store is a write-ahead log, an active
memtable with a queue of immutable ones, and a list of table files; a put is logged and applied, a
full memtable is frozen and later flushed to a table, tables are merged, and a get takes the first
hit from the active table down to the oldest file. The question the project answers is whether a key
always reads as its latest mutation says: while writes, flushes, merges, cleanups and reads
interleave, through the bytes on disk, and after any crash.

Five layers, each proved against the one below it:

- Bytes and checksums (`bytes`, `crc32`, `crc_division`): the little-endian codecs, key order, and
  the table-driven CRC-32 against the polynomial division of section 3.2.9 of IEEE 802.3.
- The log (`wal_format`, `wal`): record framing, recovery from torn files, fsync counting, segment
  rolls and watermark cleanup, as an object over the bytes of its segment files.
- Table files (`memtable`, `bloom`, `sstable_format`, `sstable_layout`, `sstable_writer`,
  `block_cache`, `table_reader`, `table_scan`, `sst_store`): the writer, the sequential readers and
  the point lookup through range check, Bloom filter, sparse index, cache, restart points and walk.
- Tables and compaction (`history`, `tables`, `manifest`, `picker`, `compaction`, `compaction_job`):
  what a stack of tables reads as, the manifest, the picker, and why a merge changes no reading.
- The engine. `store_state` gives the engine's atomic steps as a state machine over a history of
  mutations, `store_inv` its invariant, `store_writer`, `store_flush`, `store_compact`,
  `store_reads` and `store_recovery` the proofs step by step, `store_runs` the theorems about whole
  runs, `store_overlap` the condition those theorems need and a run that fails without it, and
  `store_clean` the crashes and replays that meet it. `store_writes` says what callers see.
  `locks` is the lock protocol and the memory bound. `engine` is the engine as an object over the log,
  the manifest, the memtables and the table files, driven by one thread, down to the bytes.

A history is a sequence of mutations; it is indexed by position, because dropping tombstones can
lower the largest stored sequence number, so that a number may be used twice over a store's life.
`Latest(history, key)` is the specification of a get.

Two kinds of runs are covered. In runs without compaction any number of crashes is allowed, even
those whose recovery replays records that are already in tables, so that tables overlap. In runs with
compaction every reopen must find only records newer than every table in the log (a clean reopen).
`StoreOverlap.OrderSurvivesOpen` shows that this is necessary: from any ordered store about to open,
the table list stays ordered through the first flush, whatever replay and sorting do, if and only if
the reopen is clean. `StoreClean.CarefulRunIsClean` gives the sufficient condition an operator can see:
every reopen is clean if no crash falls between a flush's manifest edit and the end of its log cleanup,
and replay rotates only where a segment begins. `StoreOverlap.OverlapLosesAWrite` is a run outside that
condition, from an empty store and under one rotation rule, live and in replay: a rotation deferred
because the queue was full, a crash inside that window, a replay that can rotate where the live run
could not, and then a merge and a second crash, lose an acknowledged, fsynced write.

Two comments in the code say otherwise than the code: `include/lsm/sstable.hpp:39` gives the footer
44 bytes where `src/sstable.cpp:26` writes 40, and `src/manifest.cpp:59-62` takes sequence ranges to
be disjoint, which replay does not guarantee. The model follows the code. `src/wal.cpp:313` accepts
keys and values up to 2^30 bytes each while `src/wal.cpp:129` rejects a payload above 2^30. So recovery
of a segment stops at the first record whose 17 + key + value exceeds 2^30 and loses it and every later
record of that segment, fsynced or not; `WalFormat.RecoveredIffWithinCap` says so for every log, and
that a segment is read back whole if and only if it holds no such record.

## Model

| member | source | states |
|---|---|---|
| Crc32.TableLookup | src/table_reader.cpp:35-38 | One table look-up advances the register exactly as eight single-bit steps with the byte's bits do. |
| Crc32.BuildTable | src/table_reader.cpp:24-34 | The 256-entry table holds, for each byte value, eight reduction steps of it. |
| Crc32.Compute | src/table_reader.cpp:23-40 | The table-driven loop returns the bit-at-a-time CRC-32 of any byte string. |
| Crc32.StepInjective | src/table_reader.cpp:29 | One reduction step loses no information. |
| Crc32.UpdateInjective | src/table_reader.cpp:37 | The update is injective in the byte for a fixed register and in the register for a fixed byte. |
| Crc32.RegisterInjective | src/table_reader.cpp:36-38 | Two registers that differ still differ after any common bytes. |
| Crc32.SingleByteChange | src/table_reader.cpp:339-343 | Changing any one byte of a string changes its stored checksum field. |
| CrcDivision.RegisterDivides | src/wal.cpp:34-51 | The register advances over the data as the shift register of the standard over its bits, lowest first; no fact about division yet. |
| CrcDivision.ChecksumIsReference | src/wal.cpp:34-51 | The checksum is the complement of that shift register started from all ones, for every byte string. |
| CrcDivision.ChecksumIsRemainder | src/wal.cpp:34-51 | For some quotient Q: the message with its first 32 bits complemented, times x^32, equals Q times the generator of section 3.2.9 of IEEE 802.3 plus the complemented checksum, as polynomials over two elements. |
| CrcDivision.RemainderIsUnique | src/wal.cpp:34-51 | No other quotient and no other remainder of 32 bits satisfy that equation. |
| CrcDivision.FieldBits | src/wal.cpp:330 | The four stored bytes hold the checksum's bits in the order in which the message's bits are divided. |
| Bytes.U32RoundTrip | src/sstable.cpp:49-60 | A 32-bit value survives the little-endian codec. |
| Bytes.U32Injective | src/sstable.cpp:57-60 | Any four bytes are the encoding of the value they decode to. |
| Bytes.U32IsLittleEndian | src/sstable.cpp:49-60 | The codec writes the digits to base 256 lowest first, and reads them so. |
| Bytes.U64RoundTrip | src/sstable.cpp:53-66 | A 64-bit value survives the little-endian codec. |
| Bytes.U64Injective | src/sstable.cpp:62-66 | Any eight bytes are the encoding of the value they decode to. |
| Bytes.U64IsLittleEndian | src/sstable.cpp:53-66 | The same for eight bytes. |
| Bytes.LessTransitive | src/memtable.cpp:7-21 | The lexicographic key order is transitive. |
| Bytes.LessTotal | src/memtable.cpp:7-21 | The lexicographic key order decides any two different keys. |
| Bytes.LessIsFirstDifference | src/memtable.cpp:7-21 | One key is less than another if and only if, where they first differ, it ends or has the smaller unsigned byte. |
| Bytes.AtMostIsNotGreater | src/table_reader.cpp:323-328 | At most means not greater. |
| Memtables.UpsertIsUpdate | src/memtable.cpp:7-21 | Overwriting or inserting keeps keys strictly ordered and changes the map at exactly one key. |
| Memtables.UpsertSize | src/memtable.cpp:10-20 | The byte total changes by key, value and overhead of the new entry less those of the replaced one, never below zero. |
| Memtables.FindInMap | src/memtable.cpp:23-28 | A search of the rows answers what the map holds. |
| Memtables.Memtable.Apply | src/memtable.cpp:7-21 | The map gets exactly this version of the key; the byte count grows by its key, value and overhead, less those of the version it replaces. |
| Memtables.Memtable.Lookup | src/memtable.cpp:23-28 | The stored version of the key, or nothing. |
| WalFormat.FirstIffEncoded | src/wal.cpp:122-166 | A record is read from the front of a byte string if and only if its exact encoding, within the cap, stands there. |
| WalFormat.RecordLayout | src/wal.cpp:317-330 | A frame byte by byte: payload length, type 1 or 2, number, key and value lengths, key, value, checksum of the payload; 25 bytes and the key and value. |
| WalFormat.HeaderLayout | src/wal.cpp:109-119 | The header is "LSMW", version 1 and three zero bytes; readers check the first five. |
| WalFormat.TornTail | src/wal.cpp:122-145 | Encoded records followed by any strict prefix of one more read back as exactly those records. |
| WalFormat.RecordsSound | src/wal.cpp:101-170 | Whatever the bytes, what is read stands encoded at their front, and reading just that gives the same records. |
| WalFormat.TruncationKeepsRecords | src/wal.cpp:182-196 | Cutting a segment at its last good byte loses no record and leaves a segment that reads back whole. |
| WalFormat.HeldRecordsRead | src/wal.cpp:101-170 | Any cut of a segment that spares its first k records reads as a front of its readable part (the records before the first oversized one), with all of the k that are readable; uncut, as exactly that part. |
| WalFormat.CutReadsPrefix | src/wal.cpp:122-166 | The same for the bytes after the header. |
| WalFormat.RecoveredIffWithinCap | src/wal.cpp:313-319 | Of any accepted records, recovery reads exactly those before the first whose 17 + key + value exceeds 2^30; it reads all if and only if there is none. |
| WalFormat.OversizedRecordIsLost | src/wal.cpp:129-132 | A one-byte key with a 2^30-byte value is accepted; it and every record after it in the segment are lost. |
| WalLog.ScanSegment | src/wal.cpp:101-170 | The scan loop returns exactly the records that stand encoded behind a good header, their largest number, the offset where they end, and whether anything follows. |
| WalLog.SafeBound | src/wal.cpp:343-348 | The records that no crash can take are a prefix of the log, short of it by exactly the appends since the last fsync, all in the active segment. |
| WalLog.CrashKeepsSafeRecords | src/wal.cpp:239-263 | However a crash cuts the files, recovery reads a front of the readable log that includes every readable record an fsync covered; with no oversized record, a prefix of the log that includes every fsynced record. |
| WalLog.TornHeaderReadsNothing | src/wal.cpp:109-117 | A segment with part of a header reads as no records; it is cut to nothing, or to its header if that is whole. |
| WalLog.TornRollReadsLog | src/wal.cpp:286-295 | A crash in the middle of a roll, with any part of the new header on disk, loses nothing. |
| WalLog.RescanReadsLog | src/wal.cpp:172-200 | A new scan reads each segment up to its first oversized record; it reads the whole log if and only if there is none. |
| WalLog.CleanupKeepsSuffix | src/wal.cpp:365-384 | With rising numbers cleanup removes a prefix of the log, every record of it at or below the watermark, and keeps the rest. |
| WalLog.Wal.FsyncActive | src/wal.cpp:202-214 | The whole log is safe and nothing else changes. |
| WalLog.Wal.RollSegment | src/wal.cpp:286-295 | The old segment is safe before the next begins; the log is unchanged and the fsync count restarts. |
| WalLog.Wal.WriteAndSync | src/wal.cpp:332-353 | The log gains exactly this record; the segment number, its size and the count of un-fsynced appends are those of WalLog.After; the invariant holds again. |
| WalLog.Wal.Append | src/wal.cpp:305-354 | The next number on success and the log longer by exactly that record; a segment passes roll_bytes only when it holds that one record; the named error and no change at all otherwise. |
| WalLog.AfterKeepsLimits | src/wal.cpp:332-348 | A record goes into the same segment if and only if that has no record or has room for it; no segment outgrows the limit but by one record too large for it; an fsync comes exactly with the last append of a batch. |
| WalLog.Wal.Roll | src/wal.cpp:356-363 | The next segment, its header only, with nothing un-fsynced, after the others unchanged; the same log and counter; an error when the log is closed. |
| WalLog.Wal.Close | src/wal.cpp:394-405 | Everything logged is safe and the log is closed. |
| WalLog.Wal.BumpSeqno | include/lsm/wal.hpp:93 | The counter is raised to the floor, never lowered; the rest is unchanged. |
| WalLog.Wal.ScanAll | src/wal.cpp:172-200 | Every segment is cut at its last good byte; the records replayed, in order, are what the cut segments hold; the report counts segments, records and cut segments. |
| WalLog.Wal.Open | src/wal.cpp:239-284 | Replays exactly what recovery can read, starts the counter at its largest number, reopens the newest segment or starts segment 1, and leaves a log that holds just that, open and safe, whether or not a header was torn. |
| WalLog.Wal.RemoveSegmentsCovered | src/wal.cpp:365-384 | A segment stays if and only if it is the active one, its maximum is not known, or its maximum is above the watermark; exactly the others are reported deleted. |
| BloomFilters.ComputeFnv1a | src/sstable.cpp:70-77 | The loop computes the 64-bit FNV-1a hash with wraparound. |
| BloomFilters.KnownHash | src/sstable.cpp:70-77 | The hash of "a" is the published one. |
| BloomFilters.XorDigit | src/sstable.cpp:73 | The exclusive or of the hash works digit by digit. |
| BloomFilters.ProbeStride | src/sstable.cpp:95-101 | The probes of a key are its hash plus multiples of an odd second hash, modulo 2^64 and then modulo the number of bits. |
| BloomFilters.BloomBuilder.Add | src/sstable.cpp:95-102 | A bit is set afterwards if and only if it was set before or is a probe of the key. |
| BloomFilters.MayContain | src/table_reader.cpp:275-283 | True if and only if every probe bit of the key is set. |
| BloomFilters.AddAll | src/sstable.cpp:70-103 | From an array of zeros, exactly the probes of the keys are set, so every added key passes the test. |
| BloomFilters.PassesIffProbed | src/table_reader.cpp:275-283 | A key passes the test of such a filter if and only if each of its probes is a probe of some key put in. |
| TableFormat.ChangedBlockRejected | src/table_reader.cpp:339-343 | A block with any one byte changed, checksum included, fails its check. |
| TableFormat.RowReads | src/table_reader.cpp:372-381 | The encoding of an entry decodes to its lengths, number, flag, key and value. |
| TableFormat.FlagByte | src/sstable.cpp:198 | The flag byte of an entry is 1 for a tombstone and 0 otherwise. |
| TableFormat.BlockRowReads | src/table_reader.cpp:372-388 | At an entry's offset a block holds exactly that entry. |
| TableFormat.RestartReads | src/table_reader.cpp:363-370 | The restart trailer gives the offsets of every interval-th entry. |
| TableFormat.RestartsEvery | src/sstable.cpp:192-194 | The restart points are entries 0, k, 2k and so on for interval k. |
| TableFormat.CutWhenFull | src/sstable.cpp:190-210 | A block but the last has reached the block size, and none had before its last entry. |
| TableFormat.IndexEntryReads | src/table_reader.cpp:243-256 | The encoding of an index entry decodes to its key, offset and size. |
| TableLayout.FindInChunk | src/table_reader.cpp:323-328 | If a key is in the table at all, it is in the last block whose first key is at most the key. |
| TableLayout.FindOutside | src/table_reader.cpp:288-291 | A key below the smallest or above the largest is in no block. |
| TableLayout.FilterReads | src/table_reader.cpp:260-273 | The filter block gives back the filter's parameters and bits. |
| TableLayout.FilterLayout | src/sstable.cpp:229-235 | The filter block byte by byte: numbers of bits, hashes and keys, the bits, their checksum. |
| TableLayout.FooterLayout | src/sstable.cpp:238-246 | The footer byte by byte: four offsets and sizes, version 1 and the magic number, in 40 bytes. |
| TableLayout.Sections | src/sstable.cpp:214-247 | Data, index, filter and footer stand where the footer says, in a file of exactly their total size. |
| TableWriter.FinishBlock | src/sstable.cpp:173-185 | The finished block is the entries, the restart offsets, their count and the checksum. |
| TableWriter.WriteBlocks | src/sstable.cpp:187-210 | The loop writes every entry once, in order, in blocks cut when they reach the block size, and an index entry for each. |
| TableWriter.SeqnoBounds | src/sstable.cpp:203-206 | The smallest and the largest number, both attained. |
| TableWriter.WriteTable | src/sstable.cpp:133-271 | An empty memtable is refused; otherwise the file is exactly the table of these rows, its metadata describes them, and its filter has exactly their probes set. |
| BlockCaches.BlockCache.Find | src/table_reader.cpp:77-84 | The cached block if there is one, moved to the front; the contents do not change. |
| BlockCaches.BlockCache.Insert | src/table_reader.cpp:86-98 | List and map stay in bijection, the size is the sum of the blocks and within capacity, and what stays is the longest prefix of the new list that fits. |
| BlockCaches.BlockCache.RemoveLast | src/table_reader.cpp:93-97 | Evicts exactly the least recently used block and its size. |
| TableReaders.CheckCrc | src/table_reader.cpp:235-238 | The check passes if and only if the trailing field is the checksum of the rest. |
| TableReaders.SearchRestarts | src/table_reader.cpp:363-370 | Binary search ends at the greatest restart whose key is at most the one sought, or at the first restart if there is none. |
| TableReaders.SearchBlock | src/table_reader.cpp:348-393 | Restart search and walk answer exactly what the block's rows hold for the key. |
| TableReaders.ReadFooter | src/table_reader.cpp:193-215 | Of any file: accepted if and only if the magic number and, if asked, version 1 stand in the last 40 bytes, the ranges pass the wrapping check and the sizes are large enough; the four numbers are those of the footer. |
| TableReaders.InsideUnlessWrapped | src/table_reader.cpp:209-213 | The range check lets a range past the end of the file through exactly when offset plus size wraps at 2^64 to within it. |
| TableReaders.DamagedFooterRejected | src/table_reader.cpp:199-204 | One changed byte in the magic number is always noticed, and one in the version by every reader that checks it. |
| TableReaders.ParseIndex | src/table_reader.cpp:234-258 | Of any block: the entries it spells out if it passes its check and they fill it exactly, and a rejection otherwise. |
| TableFormat.IndexOfBody | src/table_reader.cpp:242-256 | An encoded index spells out exactly its entries. |
| TableFormat.BlockRowsOf | src/sstable.cpp:380-405 | A written data block spells out exactly its rows. |
| TableReaders.UpperBound | src/table_reader.cpp:323-328 | The number of index entries whose first key is at most the key. |
| TableReaders.BlockFromCopy | src/table_reader.cpp:339-343 | Read from a file with at most one damaged byte, a block passes its check if and only if it is the block that was written. |
| TableReaders.TableReader.LoadFooter | src/table_reader.cpp:193-215 | The sections are where the writer put them, once loaded. |
| TableReaders.TableReader.LoadIndex | src/table_reader.cpp:234-258 | The index the writer built if the index block is intact, and a rejection otherwise. |
| TableReaders.TableReader.LoadBloom | src/table_reader.cpp:260-273 | The filter the writer built if the filter block is intact, and a rejection otherwise. |
| TableReaders.TableReader.FetchBlock | src/table_reader.cpp:330-346 | The block the writer wrote: a cached one is moved to the front, one read from disk is put there, and a damaged one read from disk is always rejected. |
| TableReaders.TableReader.Excludes | src/table_reader.cpp:287-307 | A key is excluded if and only if it is out of range or one of its probes is not set; an excluded key is not in the table. |
| TableReaders.TableReader.Entries | src/table_reader.cpp:217-258 | The writer's index; once loaded it is kept if and only if the setting says so. |
| TableReaders.TableReader.Get | src/table_reader.cpp:285-394 | Whatever was loaded or cached before, the answer is what the rows hold for the key, unless the index, the filter or the key's block is damaged; a damaged block that is not cached is never read as data. |
| TableScan.ScanTable | src/sstable.cpp:347-410 | Of any file: the rows of all blocks in index order if footer, index, filter and every block pass, and a failure otherwise. |
| TableScan.ScanOfCopy | src/sstable.cpp:347-410 | Over all copies of a written table with at most one byte before the footer changed: exactly the rows written, in order, if nothing is changed, and a failure otherwise. |
| TableScan.VerifyTable | src/sstable.cpp:412-491 | Of any file: OK if and only if footer, index and filter pass and every indexed block lies before the index and passes its check. |
| TableScan.VerifiesCopy | src/sstable.cpp:412-491 | Over all copies of a written table with at most one byte before the footer changed: OK if and only if nothing is changed. |
| TableScan.BuiltIsGenuine | src/sstable.cpp:133-271 | What the writer produces satisfies everything the readers rely on, when lengths fit their fields. |
| TableScan.WriteThenScan | src/sstable.cpp:347-410 | Writing any non-empty memtable and scanning the file gives its entries in strictly increasing key order, and verification answers OK. |
| TableScan.WriteThenGet | src/table_reader.cpp:285-394 | Point lookup in the written bytes returns the value, number and flag the memtable's lookup returns, or nothing, for every key. |
| SstStore.Probe | src/engine.cpp:349-355 | Lookup in one stored table through the shared cache answers what its contents say and leaves the cache right for every table. |
| SstStore.WriteSst | src/engine.cpp:426-446 | The file holds these rows, and the metadata for the manifest is their exact range and size. |
| SstStore.ReadSst | src/engine.cpp:658-665 | Scanning a stored table gives its rows in key order. |
| SstStore.CacheStays | src/table_reader.cpp:331-346 | A lookup in one table keeps the cache in agreement with every table. |
| SstStore.CacheLearns | src/manifest.cpp:76-81 | A table published under a number the cache has never seen needs no invalidation. |
| History.LastIndexIsLast | src/engine.cpp:321-357 | The specification's last mutation of a key is the last one. |
| History.LatestIsLastValue | src/engine.cpp:337-356 | A key reads as the value of its last mutation, and as absent if that is a tombstone. |
| History.UntouchedIsAbsent | src/engine.cpp:356 | A key no mutation touches reads as absent. |
| History.ReplayIsLast | src/engine.cpp:102-106 | Replaying mutations into a memtable leaves, for each key, its last mutation. |
| History.PushLayer | src/engine.cpp:331-348 | A memtable of mutations a..b over tables that read up to a makes a stack that reads up to b. |
| History.ReadsToEarlier | src/engine.cpp:102-106 | Tables that read up to a later point read up to an earlier one for every key not mutated in between. |
| Tables.MaxSeqnoBound | src/manifest.cpp:150-154 | The maximum bounds every table and is attained. |
| Tables.SortKeepsWellOrdered | src/manifest.cpp:63-64 | On tables with disjoint descending ranges any sort by maximum is the identity, however ties fall. |
| Tables.SortedExactReads | src/manifest.cpp:59-64 | Overlapping tables whose entries are exact up to their own maximum, sorted by maximum, read the whole history they account for. |
| Tables.WithoutWindow | src/manifest.cpp:85-87 | Erasing the numbers of one window leaves the tables on either side. |
| Manifests.SortByMaxSeqno | src/manifest.cpp:63-64 | A permutation of the tables in descending order of maximum. |
| Manifests.Manifest.LoadOrCreate | src/manifest.cpp:23-74 | An absent file is an empty manifest; otherwise the listed tables sorted by maximum, and a next number above every listed one. |
| Manifests.Manifest.AddTable | src/manifest.cpp:76-81 | The table goes to the front, the epoch and the next number advance, and the file says the same. |
| Manifests.Manifest.ApplyCompaction | src/manifest.cpp:83-96 | One edit: the inputs are gone, the output is in, the list is sorted, and the file says the same. |
| Manifests.Manifest.MaxSeqno | src/manifest.cpp:150-154 | The loop computes the largest maximum. |
| Manifests.Manifest.TotalSize | src/manifest.cpp:156-160 | The loop computes the sum of the file sizes. |
| Picker.Measure | src/compaction.cpp:27-36 | The window's numbers, byte total, smallest and largest size. |
| Picker.SimilarIsPairwise | src/compaction.cpp:42-43 | A window is size-similar if and only if no file is more than the ratio times any other. |
| Picker.PickMeans | src/compaction.cpp:18-51 | A pick is the first of the windows with the fewest bytes, among those in which no file is more than the ratio times another, or among all if there is none. |
| Picker.ExtremesDecide | src/compaction.cpp:42-43 | Comparing the largest with ratio times the smallest decides size similarity of the whole window. |
| Picker.PickCompaction | src/compaction.cpp:18-51 | Nothing if there are too few tables; else, of the windows of max(2, fan-in) tables, the first with the fewest bytes among the size-similar ones, or among all if none is. |
| Compaction.MergeReads | src/engine.cpp:655-665 | Merging oldest to newest gives, for each key, the first hit of the stack. |
| Compaction.ReplacedWellOrdered | src/engine.cpp:634-646 | The output fits in the window's place in the order of ranges. |
| Compaction.DroppedIsBottom | src/engine.cpp:675-690 | A tombstone is dropped only if no table lies below the window. |
| Compaction.DropRule | src/engine.cpp:674-690 | The window's newest entry of a key is left out if and only if it is a tombstone, its table is past the grace period, and every table outside the job holds only newer mutations; otherwise the output has it unchanged. |
| Compaction.NothingInvented | src/engine.cpp:655-690 | A key no input has is not in the output. |
| Compaction.ReplacedReads | src/engine.cpp:634-746 | Each key reads the same before and after the window is replaced. |
| Compaction.CompactionPreservesReads | src/engine.cpp:634-746 | From a well-ordered list, merging any adjacent window, dropping what the rule allows and sorting gives the list with the output in the window's place, well-ordered, with every key's reading unchanged. |
| CompactionJobs.SelectWindow | src/engine.cpp:572-606 | A manual selection is accepted if and only if it names at least two numbers, all live, of tables that stand side by side; each refusal says which of these fails, and for which first number. |
| CompactionJobs.MergeInputs | src/engine.cpp:655-665 | The merge loop yields, for each key, the newest input's entry. |
| CompactionJobs.OldestOutside | src/engine.cpp:638-643 | The smallest number outside the job, which decides whether anything outside is older. |
| CompactionJobs.SourceIsAged | src/engine.cpp:645-652 | The age of the first input whose range covers the number; in a well-ordered list that is the table that holds it, as Compaction.DropRule uses. |
| CompactionJobs.DropTombstones | src/engine.cpp:674-690 | Exactly the tombstones that are aged and have nothing older outside are left out. |
| CompactionJobs.MergeWindow | src/engine.cpp:634-690 | The whole job over one window produces exactly its specified output. |
| StoreInvariant.InitialInv | src/engine.cpp:43-125 | A fresh store satisfies the invariant. |
| WriterSteps.LogKeepsInv | src/wal.cpp:305-341 | Appending, with or without a roll, keeps the invariant. |
| WriterSteps.SyncKeepsInv | src/wal.cpp:343-353 | The fsync count step keeps it. |
| WriterSteps.ApplyKeepsInv | src/engine.cpp:359-363 | Applying the logged mutation keeps it. |
| WriterSteps.RotateKeepsInv | src/engine.cpp:365-402 | Roll, freeze and publish keep it, for every reader that holds the frozen table. |
| FlushSteps.PublishFlushKeepsInv | src/engine.cpp:448-456 | Moving the oldest immutable table to the front of the manifest keeps it. |
| FlushSteps.DeletesPrefix | src/wal.cpp:365-384 | A covered segment with records has no record before it. |
| FlushSteps.DeleteSegmentKeepsInv | src/engine.cpp:459-470 | Deleting one covered segment, concurrently with appends, keeps it. |
| CompactionSteps.PublishCompactKeepsInv | src/engine.cpp:728-746 | The compaction edit keeps the invariant of runs with clean reopens. |
| CompactionSteps.DeleteInputKeepsInv | src/engine.cpp:748-762 | Deleting an input that no version references keeps it. |
| ReaderSteps.LiveReads | src/engine.cpp:321-357 | In every state that satisfies the invariant, first hit over the layers is the latest visible mutation. |
| ReaderSteps.ProbeActiveKeepsInv | src/engine.cpp:337-341 | The probe of the active table fixes the moment a read answers for. |
| ReaderSteps.ProbeNextKeepsInv | src/engine.cpp:342-356 | Each further probe, in a memtable or a file, keeps the answer for that moment. |
| RecoverySteps.CrashKeepsInv | src/wal.cpp:239-263 | A crash at any step keeps what recovery needs. |
| RecoverySteps.CrashCanHappen | src/wal.cpp:343-348 | The model allows every loss the disk may inflict. |
| RecoverySteps.OverlappingReads | src/engine.cpp:102-106 | Overlapping tables sorted by maximum, with the log, read the whole history. |
| RecoverySteps.OpenKeepsInv | src/engine.cpp:43-125 | Loading the manifest and replaying the log restores the invariant. |
| StoreRuns.StepKeepsInv | src/engine.cpp:294-470 | Every step of writers, workers, readers, crash and open keeps the invariant. |
| StoreRuns.RunReads | src/engine.cpp:294-357 | Whole-run refinement: at every moment of every run a key reads as its latest visible mutation; at most one visible mutation is unacknowledged. |
| StoreRuns.RunLag | src/wal.cpp:332-363 | At most fsync_every_n - 1 acknowledged records lie beyond the last fsync, and they end the active segment. |
| StoreRuns.AckedNeverLost | src/wal.cpp:343-353 | With fsync_every_n = 1 an acknowledged mutation survives every later crash of the run. |
| StoreRuns.CrashRecovery | src/engine.cpp:43-125 | After a crash at any step, the reopened store reads as the surviving prefix of the history, which lacks at most fsync_every_n - 1 acknowledged mutations. |
| StoreRuns.SnapshotReads | src/engine.cpp:321-357 | A get answers the latest mutation as of one moment between its capture and its return, whatever interleaves; everything acknowledged before the capture is included. |
| StoreWrites.AckedWriteIsRead | src/engine.cpp:294-357 | Read your writes: once a put or delete is acknowledged, and until the next mutation of its key is logged, every read at every moment gives its value, or nothing; through crashes too if every append is fsynced. |
| StoreWrites.ReadFinishes | src/engine.cpp:330-357 | A captured read can always go on and answers after at most one probe for each of its layers and one more. |
| StoreWrites.WriterCanStep | src/engine.cpp:294-402 | A writer can always take its next step, whatever the workers do. |
| StoreWrites.ReaderCanStep | src/engine.cpp:321-357 | A reader can always be started and go on. |
| StoreWrites.CreatorCanStep | src/engine.cpp:408-470 | Whoever flushes or compacts can always go on: a written flush can be published, a job over any window can write and publish its output, cleanups and deletions can end. |
| StoreWrites.LossIsReal | src/wal.cpp:343-353 | The bound on losses is tight: for every fsync_every_n some run loses fsync_every_n - 1 acknowledged mutations in a crash. |
| StoreRuns.FilesOutliveReferences | src/engine.cpp:728-762 | At every instant each table of the manifest and of any held version still has its file, with its contents. |
| StoreRuns.OpenLeavesManifestFiles | src/engine.cpp:66-76 | From whatever a crash left, a finite sweep of the unlisted files leads to a state where opening is possible; no listed file is touched on the way, and afterwards the files are exactly the manifest's. |
| StoreRuns.NumbersNeverReused | src/manifest.cpp:76-96 | Within a process a published number never names other contents, so a cached block stays right. |
| StoreRuns.FreshNumber | src/wal.cpp:317 | A new number exceeds everything stored in the log, the memtables and the tables. |
| StoreRuns.TablesStayOrdered | src/engine.cpp:448-456 | With clean reopens ranges stay disjoint and descending, and every table is older than every unflushed mutation. |
| StoreRuns.CleanupIsSafe | src/wal.cpp:365-384 | The log is always a suffix of the history, and for every key it does not mention the tables as a reopen lists them give the latest mutation. |
| StoreOverlap.OrderSurvivesOpen | src/engine.cpp:102-112 | From an ordered store about to open, the tables stay ordered through the first flush, for every sort and every placing of rotations, if and only if every logged record is newer than every table. |
| StoreOverlap.OverlapLosesAWrite | src/engine.cpp:655-665 | A concrete run from an empty store, with one rotation rule live and in replay, a crash before cleanup, compaction and a second crash, that loses an acknowledged, fsynced write. |
| StoreClean.CarefulRunIsClean | src/engine.cpp:448-470 | Every run that crashes at any step but the deletion of covered segments, that ends each cleanup with nothing left to delete, and whose replays rotate only where a segment begins, has only clean reopens, so every theorem about runs with compaction holds of it. |
| StoreClean.CarefulStepTidy | src/engine.cpp:459-470 | Each such step keeps the log free of flushed records except during cleanup, and keeps every memtable's records starting with a segment. |
| Locks.StepKeepsInv | src/engine.cpp:144-193 | Every step of every thread keeps mutual exclusion, lock ownership, no lost wake-up and the memory bound. |
| Locks.WriterDecides | src/engine.cpp:252-281 | A writer stalls exactly when the table is full and no slot is free, and rotates exactly when it is full and one is. |
| Locks.WorkersDecide | src/engine.cpp:144-193 | The flusher goes on while an immutable table is pending, the compactor while none is and it is not busy. |
| Locks.RunHasNoDeadlock | src/engine.cpp:252-292 | With any number of writers and both workers, while a write or a flush is unfinished some thread can go on, and its step leaves less to do whatever it finds. |
| Locks.CanFinish | src/engine.cpp:408-470 | From every reachable state all writes and flushes can be completed, in no more steps than a measure computed from the state. |
| Locks.StalledWriterBlocksNobody | src/engine.cpp:283-287 | A stalled writer holds the write mutex and no mutex the flush needs. |
| Locks.MemoryBound | src/engine.cpp:365-402 | Immutable tables never exceed their limit, and the active table never exceeds memtable_max_bytes - 1 + 2E, or one entry above what recovery left, whichever is larger. |
| Engines.Engine.Open | src/engine.cpp:43-125 | Replays the log into memtables under the rotation rule, which freezes only full tables, and starts the counter at the larger of the log's and the tables' maximum; every get then answers from the whole history. |
| Engines.FreshStart | src/engine.cpp:43-125 | A store with no files opens, under the given settings, as a valid engine over the empty history. |
| Engines.Engine.MaybeRotate | src/engine.cpp:365-402 | Rotates exactly when the table is full and a slot is free, starting the next log segment when live; readings do not change. |
| Engines.Engine.Put | src/engine.cpp:294-305 | On success the key reads as the value and every other key as before; the history is longer by exactly this mutation, under a larger number, a full table with a free slot was rotated, and the active table grew by at most the entry's size. Refused exactly when the key is empty, a length is over 2^30, there are too many tables, or the table is full with no slot free; then the history is the same. |
| Engines.Engine.Remove | src/engine.cpp:307-319 | The same with a tombstone, whether or not the key exists; afterwards the key reads as absent. |
| Engines.Engine.Get | src/engine.cpp:321-357 | Returns the latest mutation's value over the whole history, through memtables, table bytes and cache; an empty key is refused. |
| Engines.Engine.FlushOne | src/engine.cpp:408-486 | False when nothing is pending; otherwise the oldest immutable table is the newest table, under the next number, in the file the settings make of its rows, covered log segments are gone, no other file appears, and no reading changes. |
| Engines.Engine.FlushPending | src/engine.cpp:488-520 | Every immutable table becomes a table, in order, in front of the others; then, unless paused, the picker's jobs run until the list is below the trigger or too short. |
| Engines.Engine.RunCompaction | src/engine.cpp:551-808 | The window the picker picks, or an accepted manual one, is replaced by its merge under the drop rule and its files go; nothing is done if there are too few tables or the selection is refused for the reason given; no reading changes. |
| Engines.Engine.ChooseWindow | src/engine.cpp:551-606 | Without a selection the picker's window, or none exactly when there are too few tables; with one, its window or the reason it names none. |
| Engines.Engine.MaybeAutoCompact | src/engine.cpp:522-534 | A number of picker's jobs, each on a list that has reached the trigger; none if it starts below; it ends below the trigger or with too few tables for a window. |
| Engines.SurvivingLog | src/wal.cpp:172-200 | With no oversized record in the log, what recovery reads from any crash image is the log of a prefix of the history that lacks at most the un-fsynced appends. |
| Engines.CrashRestart | src/engine.cpp:43-125 | End to end over bytes, with or without a manifest file: however a crash cuts the segment files, the engine that opens what is left holds a prefix of the history short of fewer than fsync_every_n mutations and serves gets from it. |

## Left out

- StoreRuns.CrashRecovery: runs that mix compaction with a reopen that is not clean are not covered; the claim is false there, as `StoreOverlap.OverlapLosesAWrite` shows.
- Engines.CrashRestart: crashes between the steps inside one call are covered by the state machine, not by the object; the object needs a clean reopen, because it may compact afterwards, and a log with no record over the scanner's cap, because what survives is otherwise no prefix of the history (`WalFormat.RecoveredIffWithinCap`). The same holds for Engines.SurvivingLog.
- Engines.Engine.Open: starts from files that agree with one history and a log whose records are newer than the tables; replay over older records is covered by the state machine only. A table file the manifest names but the directory lacks is an error in the source and cannot arise here. Deleting orphans is a step of the state machine only.
- StoreRuns.FilesOutliveReferences: a table file appears whole, in one step; writing to a `.tmp` file, renaming it and removing leftovers are not modelled.
- Engines.Engine.FlushOne: takes the filter's size as a setting, and needs block, key and value lengths to fit their 32-bit fields, which the source does not check; the same holds for Engines.Engine.RunCompaction.
- Engines.Engine.RunCompaction: cancelling a job, its statistics and its throttle are not modelled; tombstone age is an arbitrary set of aged tables; with one thread every input file is deleted at once, and deferral is a step of the state machine.
- SstStore.Probe: opens a reader for each lookup, where the source keeps one per table; `TableReaders.TableReader` keeps its lazily loaded state across lookups.
- WalLog.Wal.Append: the counter stays below 2^64; failed writes and failed fsyncs of the log are not modelled.
- WalLog.Wal.ScanAll: the segment list is replaced after all scans rather than file by file; a failing truncation and the name of the last cut segment are not modelled.
- Manifests.Manifest.AddTable: saving succeeds; in the source a failed save leaves memory ahead of the file.
- Picker.PickCompaction: sizes and ratio are compared as exact reals, and byte totals do not wrap.
- TableScan.VerifyTable: the verdict is one of two, without the message. TableScan.VerifiesCopy and TableScan.ScanOfCopy leave out changes in the footer, which has no checksum, so that one may go unseen there.
- TableReaders.SearchBlock: stated for blocks the writer wrote; its checks on blocks that pass their checksum but are malformed are in the body only. TableReaders.TableReader is stated for copies with an intact footer.
- BloomFilters.AddAll: the number of bits and of hashes are parameters; their computation from the target rate uses floating-point logarithms.
- Locks.MemoryBound: the byte count is a number of the protocol; Engines.Engine.Put and Engines.Engine.Remove bound the memtable's own byte count for one thread.
- StoreOverlap.OverlapLosesAWrite: the settings of the run are memtable_max_bytes 1 and max_immutable_tables 1, so that any entry fills a table.
- Locks.CanFinish: shutdown (`close`, `stop_workers`) and its wake-ups are not part of the protocol; neither are the leaf mutexes inside memtables, readers and the cache, which are never held while another is taken.
- StoreRuns.SnapshotReads: a version's tables are probed as whole-file contents; `TableReaders.TableReader.Get` justifies that.
- The command line, the HTTP server, logging, configuration parsing and environment variables: outside the storage engine.
- The JSON text of the manifest and of the compaction statistics: the manifest is a value replaced as a whole.
- Real file calls, directory fsync, error codes and Windows branches: files are byte strings with a durable length.
- `FdPool` and file-handle eviction: a budget with no effect on results.
- Clocks, ISO-8601 timestamps, counters, traces and statistics: they decide nothing but tombstone age.
- Wrap-around of sequence numbers and table numbers at 2^64.
