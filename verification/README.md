# Verification of the tffiles storage engine

`tffiles/` is a time-series database that keeps one data file and one index file per device and day. Points are
buffered by a day writer, flushed as checksummed and possibly compressed blocks, found again through an index of
36-byte entries, moved from a hot to a cold directory when they age, and served over a binary TCP protocol. A
separate encoder stores scalar series as deltas or deltas of deltas.

The project models that engine and proves what it promises, and where the code promises less, exactly when the
promise holds. Code that changes state is imperative here too: a class for the day writer and one for the store,
array-filling methods for the encoders, and loops for the parsers and the binary search. Each is tied to a
specification function, and the theorems are about those functions.

| file | what it holds |
|---|---|
| `Bytes`, `Points`, `IndexFile`, `Blocks` | integers and byte orders, point records, index entries, blocks |
| `Reader` | parsing, binary search, indexed query, whole-file scan |
| `IndexQuery`, `IndexExact`, `WholeFile`, `Damage` | what the reads mean: soundness, exactness, agreement of both read paths, damaged blocks |
| `WriterProtocol`, `DayWriters` | the day writer as a state machine with crashes, and as a class that follows it |
| `Days`, `Storage` | days, grouping, and the store over many devices and days |
| `Tiers`, `Tiering`, `TierMove`, `Recompress` | the move from hot to cold, interleaved with a query |
| `WriterTable` | double-checked creation of writers |
| `Varint`, `Delta`, `DeltaDelta`, `DeltaDeltaLimits` | the codecs for scalar series, and what delta-delta cannot restore |
| `Wire` | the TCP protocol |

The main results:

* **Writer.** Over every run of writes, ticks, tokens, torn writes of either file, crashes, reopenings and closes:
  the index file holds the entries of disjoint intact blocks, with nothing but scraps of torn entries in between;
  accepted points are never lost, repeated or reordered while the writer lives; what is indexed survives any
  crash; the blocks tile the data file until a crash leaves bytes without an index entry; and a full buffer gets
  taken by the goroutine of itself, unless it has flushed for the last time; after a close it ends (`CrashSafety`,
  `Conservation`, `FlushedIsDurable`, `TilingUnlessOrphaned`, `FullBufferGetsTaken`, `ClosedWriterEnds`). What a
  torn entry does to the reading of the index, before and after later appends, is characterised exactly
  (`TornIndexSafety`).
* **Index query.** It never invents, repeats or reorders points, for any arrival order (`AnswerSound`). It is the
  time filter for every range if and only if four things hold: every block lies between its first and last point,
  starts are in order, the binary search for a block's own end does not start behind that block, and no raw block
  among several has checksum 0 (`IndexQueryExact`). The binary search itself finds the least entry for every
  target if and only if it does not overshoot any entry whose own end it looks for (`SearchExact`); ends in order
  are enough for that, and an input shows that the condition cannot be dropped (`EndsOutOfOrderMatter`).
* **Damage.** A block whose checksum does not match is skipped, exactly then (`BlockReadExact`); on a file with
  damaged blocks a query returns the filter of all the others (`DamageStaysLocal`).
* **Store.** `Storage.Store.Query` returns what the files of the visited days answer, each day once; never more than
  the accepted points in range. If every file meets the index condition, the answer and what still waits in buffers
  are together exactly those points, so under continuous writing everything flushed comes back. Arrival in time
  order within each day is enough for the condition, unless a day has several blocks and a raw one among them has
  checksum 0. A query that reads the index at one moment and the blocks at any later one, beside the writer,
  answers for what was flushed at the first (`QueryBesideWriter`).
* **Tiering.** Whatever the interleaving with the mover, a query of a safely moved day returns at least what the
  hot file's index alone would have given it, and at most the day's points in range twice; after the move it
  returns exactly what the hot file gave (`TieringHidesNothing`, `OnceAfterMove`). If the points lie between the
  first and the last one to arrive, that is the day's points in range, once or twice; if they do not, neither file
  answers in full. A move changes no answer if and only if the new file reads back through the copied entry
  (`MoveKeepsAnswers`). For a hot file that is not compressed that means that all times are in [0, 2^62], and
  queries after the move are the time filter if and only if, besides, the points lie between the first and the
  last one; both can be checked before the move (`RawMoveExact`, `OnceAfterRawMoveExactly`).
  Mover and query both come to an end in every interleaving, and a query begun after the mover's steps answers once
  (`BothEnd`, `MoveThenQuery`).
* **Codecs.** For delta: exact times, bounded value drift, and the exact condition for a perfect round trip. For
  delta-delta the first two points decide: all later points keep their number and times if and only if the header
  has sixteen bytes and its first varint at most eight (`TimesKeptExactly`), and the values stay within their
  bound, too, if and only if both varints take eight (`RoundTripExactly`). Other headers give no guarantee, though
  a single stream can be lucky (`EightAndFour`; `IdentityExact` says when, in terms of the encoded bytes). A
  constant series at one-second steps loses its last two points, or all but its first two (`SteadySeriesFails`).
* **Wire.** Frames split back if and only if they respect the size limit; request bodies are characterised by
  their encodings in both directions, including the limits that 16-bit arithmetic puts on device IDs.

Two things in the repository's documentation differ from its code; the model follows the code. The documentation
speaks of an index entry every 64 KB (`tffiles/README.md:42`, `tffiles/README.md:246`), but a flush writes one
entry per block, and the 64 KB setting is the size from which blocks are compressed (`tffiles/writer.go:208`). It
offers the full scan beside the indexed query as a way to read a day's file (`tffiles/README.md:102`), but the
scan takes the whole file for one block (`tffiles/reader.go:53`).

## Model

| member | source | states |
|---|---|---|
| `Bytes.WrapRestores` | tffiles/encoder.go:207-210 | a wrapping int64 difference added back with wrapping restores every int64 |
| `Bytes.GetPut` | tffiles/simple_datapoint.go:21-30 | in either byte order, reading back the low bytes of a number that fits gives the number |
| `Bytes.PutGet` | tffiles/simple_datapoint.go:41-58 | in either byte order, every byte string is the encoding of the number read from it |
| `Bytes.LittleByte` | tffiles/simple_datapoint.go:21-30 | in little-endian order byte i is the number's digit of 256 to the power i |
| `Bytes.BigByte` | tffiles/tcp_server.go:295-303 | big-endian bytes are the little-endian ones back to front |
| `Points.ReadsRecord` | tffiles/simple_datapoint.go:17-64 | a record followed by any bytes reads as its point, with the right length and the rest untouched |
| `Points.RecordLayout` | tffiles/simple_datapoint.go:17-33 | eight bytes of time, two of field count, four for each value, in this order |
| `Points.DecodeExact` | tffiles/simple_datapoint.go:36-64 | any bytes decode to a point if and only if they start with its record and it has at most 65535 fields |
| `Points.DecodeRecordExact` | tffiles/simple_datapoint.go:17-64 | decoding a point's record gives the point if and only if it has at most 65535 fields |
| `Points.EncodePoint` | tffiles/simple_datapoint.go:17-33 | the filled buffer is the point's record, byte for byte |
| `Points.DecodePoint` | tffiles/simple_datapoint.go:36-64 | nothing for bytes shorter than their own header announces, otherwise the head record of the bytes |
| `Points.ParsesStream` | tffiles/reader.go:166-194 | a stream of records parses to its points, and parsing continues with whatever follows |
| `Points.ParsedIsPrefix` | tffiles/reader.go:166-194 | for arbitrary bytes, what is parsed re-encodes to a prefix of them, and no whole record follows that prefix |
| `Points.ParseCharacterised` | tffiles/reader.go:166-194 | the parse of arbitrary bytes is ps if and only if the bytes start with the stream of ps and no whole record follows |
| `Points.ParsePrefix` | tffiles/reader.go:166-194 | bytes cut anywhere parse to a prefix of what all of them parse to |
| `Points.TornTail` | tffiles/reader.go:166-194 | the same for every time range: a torn tail loses only points from the end of the answer |
| `Points.WithinMembers` | tffiles/reader.go:186-189 | the filter keeps each point with s <= t <= e as often as it occurs, and no other |
| `Points.FillRecord` | tffiles/tcp_server.go:295-306 | a record written into a shared buffer fills exactly its own span and leaves what is before it |
| `IndexFile.IndexRoundTrip` | tffiles/storage.go:240-265 | any number of appended 36-byte entries reads back exactly, whatever the file length divides by |
| `IndexFile.EntryLayout` | tffiles/writer.go:244-249 | start, end, offset and length in eight bytes each, then the checksum in four; the legacy form ends before it |
| `IndexFile.TornIndexExact` | tffiles/storage.go:248-265 | a file with a torn last entry yields its whole entries if and only if its length is not a multiple of 32 and not of 36 |
| `IndexFile.AppendedBehindTear` | tffiles/storage.go:248-265 | a file with whole entries behind a torn one yields all whole entries if and only if its length does not look like a legacy file's and the later entries repeat the torn bytes |
| `IndexFile.LegacyIndexExact` | tffiles/storage.go:248-265 | a legacy file of n 32-byte entries reads back if and only if n is 0 or not a multiple of 9 |
| `IndexFile.ReadIndexFile` | tffiles/storage.go:240-265 | the decoding loop yields the entries of the guessed size, front to back, for any bytes |
| `Blocks.SealedParses` | tffiles/writer.go:190-204 | a sealed block carries its checksum last and parses to its batch, with the checksum cut off or left on |
| `Blocks.BlockBytes` | tffiles/writer.go:196-214 | a flush writes the records and their checksum, through the compressor if and only if the records alone take at least the interval |
| `Blocks.EntryFieldsOf` | tffiles/writer.go:233-241 | the entry holds the first and the last point's time in arrival order, the block's offset and length, and the checksum of its records |
| `Reader.ParsePoints` | tffiles/reader.go:135-194 | the shared loop of both parsers returns the time filter of the records that the bytes start with |
| `Reader.BinarySearchIndex` | tffiles/reader.go:202-220 | the two loops end where the search function does; on any entries that is a crossing (entry before ends too early, entry there does not), with sorted ends the least entry ending at the target or later |
| `Reader.FoundCrosses` | tffiles/reader.go:202-220 | on any entries, in any order, the search ends at a crossing |
| `Reader.SearchMonotone` | tffiles/reader.go:202-220 | on any entries a later target is never found earlier |
| `Reader.SearchExact` | tffiles/reader.go:202-220 | the binary search equals the linear search for every target if and only if it does not overshoot any entry whose own end it looks for; nothing about sortedness is assumed |
| `Reader.SortedEndsFound` | tffiles/reader.go:202-220 | ends in order are enough for that |
| `Reader.SelectBlocks` | tffiles/reader.go:79-87 | the loop takes the entries up to the first that starts after the range, without those that end before it |
| `Reader.ReadOne` | tffiles/reader.go:95-129 | one turn of the block loop comes out as `ReadBlock` says, which `Damage.BlockReadExact` characterises |
| `Damage.BlockReadExact` | tffiles/reader.go:95-129 | a read fails if and only if the file does not hold the span, is skipped if and only if the contents' last four bytes are not their checksum, is legacy if and only if it does not decompress and has checksum field 0; otherwise it gives the filter of the contents' records |
| `Damage.ScanMeans` | tffiles/reader.go:93-131 | the picked blocks give all good points in order, an error at a span outside the file, a legacy block's points alone at such a block |
| `Damage.ScanSkipsDamaged` | tffiles/reader.go:121-124 | damaged blocks might as well not be listed |
| `Damage.DamageStaysLocal` | tffiles/reader.go:75-132 | on a file some of whose blocks are damaged, a query returns for every range the filter of all the other blocks' points |
| `Reader.QueryWithIndex` | tffiles/reader.go:75-132 | on any entries and bytes, sorted or not, it is the scan of the relevant blocks from where the search ends |
| `Reader.QueryWhole` | tffiles/reader.go:40-72 | the whole file is one block: decompressed without its last four bytes, or parsed as it is |
| `IndexQuery.ReadsStored` | tffiles/reader.go:95-129 | a block that lies where its entry says reads as its batch's filter; checksum 0 on a raw block only marks it legacy |
| `IndexQuery.AnswerOverBatches` | tffiles/reader.go:75-132 | the answer computed from bytes and entries equals the answer computed from the flushed batches, for any order and range |
| `IndexQuery.AnswerSound` | tffiles/reader.go:75-132 | for any arrival order, range and search start the answer is a subsequence of the time filter of all flushed points |
| `IndexExact.PickedComplete` | tffiles/reader.go:79-87 | on bracketed blocks with ordered starts, block selection loses no point in range |
| `IndexExact.LeavingOutCosts` | tffiles/reader.go:79-87 | a block that search or selection leaves out shortens the answer by everything it holds in range |
| `IndexExact.IndexQueryExact` | tffiles/reader.go:75-132 | all queries equal the filter if and only if blocks are bracketed, starts are in order, the search for a block's own end does not start behind it, and no raw block of several has checksum 0 |
| `IndexExact.OrderedEndsReach` | tffiles/reader.go:202-220 | blocks whose ends are in order meet the condition on the search |
| `IndexExact.EndsOutOfOrderMatter` | tffiles/reader.go:202-220 | three bracketed blocks with ordered starts and unordered ends: the search starts behind the first and its point at time 9 is missed |
| `IndexExact.OrderedArrivalSuffices` | tffiles/writer.go:232-242 | points arriving in time order give bracketed blocks with ordered starts and ends, wherever batches are cut |
| `IndexExact.ArrivalOrderMatters` | tffiles/writer.go:235-236 | two points in one block, later one first: a query at the later time misses it |
| `IndexExact.IndexedFileExact` | tffiles/reader.go:75-132 | from the bytes of a data file and its index: the query is exactly the filter, in file order |
| `WholeFile.SingleBlockScan` | tffiles/reader.go:40-72 | on a file of one block, raw or compressed, the full scan is the time filter |
| `WholeFile.ReadPathsAgree` | tffiles/reader.go:40-132 | on such a file full scan and index query agree for every range if and only if the block is bracketed |
| `WholeFile.RawScanExact` | tffiles/reader.go:53-56 | scanning bytes that do not decompress returns ps for all ranges if and only if they are the stream of ps and less than a record more |
| `WholeFile.CompressedScanExact` | tffiles/reader.go:53-71 | scanning bytes that decompress returns ps for all ranges if and only if what they decompress to, without its last four bytes, is the stream of ps and less than a record more |
| `WholeFile.TwoRawBlocksExact` | tffiles/reader.go:53-56 | a file of two raw blocks scans to their points for all ranges if and only if the second stream repeats the first checksum |
| `WholeFile.TwoFramesExact` | tffiles/reader.go:53-71 | so does a file of two compressed blocks that the decompressor takes for one stream |
| `WholeFile.RepeatedChecksum` | tffiles/reader.go:53-71 | for that both halves of the second block's first time must be the first block's checksum |
| `WholeFile.ManyBlocksMisread` | tffiles/reader.go:53-71 | whatever the checksum, two raw one-point blocks scan to a second point at the time that the checksum spells |
| `WriterProtocol.StepKeepsInv` | tffiles/writer.go:137-258 | every enabled event (write, wake-ups, take, data write, index append, advance, close, crash, reopen) keeps the writer's invariant |
| `WriterProtocol.CrashSafety` | tffiles/writer.go:178-258 | in every reachable state, crashes inside either file's write included, the index file is the log's entries with scraps of torn ones in between; entries are disjoint, increasing, inside the file, each reading as one flushed batch; without scraps the index reads back as them |
| `WriterProtocol.TornIndexSafety` | tffiles/writer.go:244-251 | after one torn index append, and any number of later ones, the index reads back if and only if its length does not look like a legacy file's and the later entries repeat the torn bytes |
| `WriterProtocol.TilingUnlessOrphaned` | tffiles/writer.go:178-258 | in every reachable state and phase, over any number of openings, the indexed blocks and the pending one tile the data file if and only if no crash left bytes without an entry; the offset is the end of the indexed blocks, or of those before the one just indexed |
| `WriterProtocol.Conservation` | tffiles/writer.go:137-258 | in every reachable state accepted points, in order, are the flushed ones, then the batch in flight, then the buffer |
| `WriterProtocol.FlushedIsDurable` | tffiles/writer.go:56-258 | over any run, crashes and reopenings included, files and log only grow at their ends: what was indexed stays |
| `WriterProtocol.CloseFlushesAll` | tffiles/writer.go:171-173 | over every run without a crash that ends the goroutine, the blocks hold all accepted points if and only if no write with points came after the last flush took the buffer |
| `WriterProtocol.WakeUpNeverLost` | tffiles/writer.go:145-175 | in every reachable state a full buffer has a pending token, or an awake flusher that has yet to take it |
| `WriterProtocol.FullBufferGetsTaken` | tffiles/writer.go:145-188 | from every reachable state with a full buffer and room on disk the goroutine of itself, with no tick, write or close, reaches a take if and only if it has not taken the buffer for the last time |
| `WriterProtocol.ClosedWriterEnds` | tffiles/writer.go:164-175 | after a close, from every reachable state with room on disk, the goroutine of itself flushes what is left and ends |
| `WriterProtocol.CrashesAnywhere` | tffiles/writer.go:216-251 | a crash may come in any state; inside the write of a block or an entry it leaves any part of that write and nothing else |
| `WriterProtocol.FlushEndMeans` | tffiles/writer.go:178-258 | an uninterrupted flush empties the buffer into one block and one entry at the old end of file, or changes nothing if it was empty |
| `DayWriters.EncodeBlock` | tffiles/writer.go:190-214 | records and checksum, through the compressor if and only if the records alone take at least the interval; and the checksum of the records |
| `DayWriters.EncodeEntry` | tffiles/writer.go:244-250 | the 36 bytes are the entry's encoding, which the index reader inverts |
| `DayWriters.DayWriter.constructor` | tffiles/writer.go:56-134 | opening files that any earlier run left, crashed or not, is the protocol's reopening: empty buffer, no token, the offset at the file's end |
| `DayWriters.DayWriter.WriteBatch` | tffiles/writer.go:137-155 | the buffer grows by the batch in order, the token is set afterwards if and only if it was or the batch brought the buffer to the batch size, files and index are untouched |
| `DayWriters.DayWriter.Flush` | tffiles/writer.go:178-258 | run to its end it is the protocol's take, write, index and advance |
| `DayWriters.DayWriter.WriteBlock` | tffiles/writer.go:216-257 | the data file grows by the block, the index by its entry at the old offset, the offset by the block's length |
| `DayWriters.DayWriter.FlushOnToken` | tffiles/writer.go:166-168 | a turn on the token uses it up, empties the buffer into one block at the old end of the file, if it held anything, and keeps the invariant |
| `DayWriters.DayWriter.FlushOnTick` | tffiles/writer.go:169-170 | the same on a tick, which leaves the token alone |
| `DayWriters.DayWriter.CloseAndWait` | tffiles/writer.go:171-173 | the last flush empties the buffer likewise and the goroutine has ended |
| `Days.DayExact` | tffiles/storage.go:146-148 | an instant is on day d if and only if its local time, t + tz, lies in the 24 hours from d * 24h on |
| `Days.VisitDays` | tffiles/storage.go:178 | the query loop visits consecutive days from day(s) on, and stops where the first instant is a day past e |
| `Days.VisitsCover` | tffiles/storage.go:169-201 | those days include every day of the range, and at most one day beyond it; an empty range visits at most one |
| `Days.GroupByDay` | tffiles/storage.go:144-150 | each group is its day's points in batch order: exactly those whose local time lies in the day's 24 hours; and exactly the days with points have one |
| `Days.EnoughDays` | tffiles/storage.go:169-201 | days that cover the range partition its points: selecting by day and range is selecting by range |
| `Days.KeyInjective` | tffiles/storage.go:95-97 | keys of a device and a fixed-length date are equal if and only if both parts are |
| `Storage.QueryFile` | tffiles/storage.go:204-237 | nothing for a missing file, the full scan for a missing index, otherwise the indexed query on the entries that the index bytes hold, sorted or not |
| `Storage.QueryTiers` | tffiles/storage.go:183-191 | one day's answer is the hot path's points followed by the cold path's, a read error counting as no points |
| `Storage.FileAnswer` | tffiles/storage.go:204-226 | a writer's file always answers with a subsequence of the filter of what was flushed, and with the filter itself when its batches meet the index condition |
| `Storage.QueryBesideWriter` | tffiles/reader.go:75-132 | with the index read in a reachable state and the blocks in any later state of the run, crashes and reopenings included, the same holds for what was flushed when the index was read |
| `Storage.Store.GetOrCreateWriter` | tffiles/storage.go:94-131 | returns the slot's writer, making one only if there was none, in the tier that the day's age selects, and leaves all others alone |
| `Storage.Store.WriteBatch` | tffiles/storage.go:134-166 | every device's accepted points grow by the batch in order, and each slot's writer holds exactly its device's points of its day |
| `Storage.Store.TickAll` | tffiles/writer.go:169-170 | a tick of every writer appends each non-empty buffer as one block at the old end of its file, empties all buffers and keeps the store's invariant, so everything accepted is on disk |
| `Storage.Store.OrderedArrivalReady` | tffiles/storage.go:169-201 | drained buffers, readable files, time order within each day, and no raw block with checksum 0 in a file of several, make a device's queries exact |
| `Storage.Store.QueryDay` | tffiles/storage.go:184-191 | one day's files answer whatever the buffer holds: at most the day's accepted points in range, and under the index condition exactly the flushed ones, which the buffered ones complete to all of them |
| `Storage.Store.Query` | tffiles/storage.go:169-201 | the files' answers of the visited days, each once: as multisets never more than the accepted points in range; with what waits in buffers exactly those if every file meets the index condition; those alone once buffers are drained |
| `Tiering.IndexedExact` | tffiles/reader.go:75-132 | what an index query makes of a one-block file is the time filter for every range if and only if the points lie between the first and the last one |
| `Tiering.HotAnswers` | tffiles/storage.go:204-226 | a hot file of one block, in any arrival order, answers with the batch's filter if the first and last time meet the range, else with nothing |
| `Tiering.ColdAnswers` | tffiles/storage.go:348-369 | a safely moved file answers through the copied entry, whole or cut to look legacy, as the hot file did, and by full scan with the time filter; in any arrival order |
| `Tiering.PartialIndex` | tffiles/storage.go:364-369 | an index copy cut after n of 36 bytes reads as the entry, as a legacy entry (n = 32), or as none |
| `Tiering.MoveKeepsAnswers` | tffiles/storage.go:348-410 | a move changes no query's answer if and only if the new file, read once through the copied entry over all times, gives the batch; for any rewrite and any arrival order |
| `Tiering.MoveExact` | tffiles/storage.go:348-410 | after a move all queries equal the filter of the old batch if and only if the file reads back so and the points lie between the first and the last one |
| `Tiering.SafeReadsBack` | tffiles/storage.go:364-410 | a rewrite that does not grow the file reads back if and only if all times are in [0, 2^62] and the block has its old length |
| `Tiering.RawRewrite` | tffiles/storage.go:386-410 | an uncompressed file is rewritten byte for byte if all its times are in [0, 2^62], and is strictly shorter otherwise |
| `Tiering.RawMoveExact` | tffiles/storage.go:348-410 | the move of an uncompressed file changes no answer if and only if all its times are in [0, 2^62], and leaves queries the time filter if and only if, besides, the points lie between the first and the last one |
| `Tiering.UnorderedRawMove` | tffiles/writer.go:235-236 | two points that arrived out of order: keepable times, yet neither the hot nor the moved file answers for the first one's time |
| `TierMove.MoverKeeps` | tffiles/storage.go:348-379 | each step of the mover keeps what a query in progress has seen and will still find |
| `TierMove.QueryKeeps` | tffiles/storage.go:183-226 | each step of a query keeps it: after the hot file it holds that file's answer, or the cold file is in place with its whole index |
| `TierMove.TieringHidesNothing` | tffiles/storage.go:183-191 | for every interleaving and arrival order, a finished query returned the hot file's own answer once, or, if the cold file was in place, twice or with the time filter behind it; for points between the first and the last one, the day's points in range once or twice |
| `TierMove.BothEnd` | tffiles/storage.go:183-201 | from any state, in any interleaving, 42 steps of the mover end the move and eight steps of a query end the query |
| `TierMove.MoveEndsThere` | tffiles/storage.go:348-379 | in every interleaving a finished move leaves the rewritten file and the copied index, and no hot file |
| `TierMove.SixMoves` | tffiles/storage.go:348-379 | with the index copied in one write the move takes six steps |
| `TierMove.MoveThenQuery` | tffiles/storage.go:183-201 | a query begun after the mover's steps ends, finds only the cold file, and returns exactly once what the hot file gave |
| `TierMove.OnceAfterMove` | tffiles/storage.go:183-191 | a query that starts after the move returns exactly what the hot file gave before it, hence the day's points in range if they lie between the first and the last one |
| `TierMove.RawTieringHidesNothing` | tffiles/storage.go:183-191 | both for an uncompressed file with times in [0, 2^62], whatever the interleaving and arrival order |
| `TierMove.OnceAfterRawMoveExactly` | tffiles/storage.go:348-410 | for an uncompressed file, all later queries return what the hot file gave if and only if all times are in [0, 2^62], and the day's points in range if and only if, besides, these lie between the first and the last one |
| `Recompress.RecompressCold` | tffiles/storage.go:386-410 | reading the hot file whole and writing through a closed day writer leaves one block of the kept points, at the mover's compression level if it is large enough, whichever wake-up came first |
| `WriterTable.StepKeepsInv` | tffiles/storage.go:94-131 | every step of every caller keeps lock exclusion and one writer per key |
| `WriterTable.OneWriterPerKey` | tffiles/storage.go:94-131 | in every interleaving of any number of callers no key gets two writers, and callers of one key hold the same one, the one in the table |
| `WriterTable.NoDeadlock` | tffiles/storage.go:94-131 | while any call is under way, some call can take its next step |
| `WriterTable.CallFinds` | tffiles/storage.go:98-104 | a call for a known key returns its writer after the first lookup, without the write lock |
| `WriterTable.CallCreates` | tffiles/storage.go:106-131 | a call for a missing key, left alone, creates one writer, tables and returns it, or leaves everything as it was if that fails |
| `Varint.VarintReads` | tffiles/encoder.go:292-319 | every int64 decodes from its encoding, whatever bytes follow |
| `Varint.DecodedDenoted` | tffiles/encoder.go:303-319 | of any bytes the decoder gives the number that their seven-bit groups denote, up to the first clear top bit or the tenth byte, modulo 2^64 |
| `Varint.ThreeHundred` | tffiles/encoder.go:292-301 | 300 takes the bytes AC 02, as in the Protocol Buffers encoding |
| `Varint.VarintLength` | tffiles/encoder.go:292-301 | one to ten bytes, and as few as the value allows, so both lengths fit the four-bit halves of the flag byte |
| `Varint.VarintPrefixFree` | tffiles/encoder.go:292-301 | one encoding is a prefix of another if and only if the values are equal |
| `Varint.EncodeVarint` | tffiles/encoder.go:292-301 | the shifting loop yields the seven-bit groups of the value's 64 bits |
| `Varint.DecodeVarint` | tffiles/encoder.go:303-319 | for any bytes the loop yields the number they denote, cut to 64 bits |
| `Delta.DeltaRoundTrip` | tffiles/encoder.go:53-92 | same length, every time exact (wrapping included), first point exact, value i off by less than i thousandths |
| `Delta.DeltaExact` | tffiles/encoder.go:177-221 | decoding restores the batch if and only if all consecutive value differences are whole thousandths |
| `Delta.DriftGrows` | tffiles/encoder.go:76-88 | ramps of 0.0009 a point decode with an error of 0.0009 i at point i, for every length |
| `Delta.DeltaPrefix` | tffiles/encoder.go:195-218 | arbitrary bytes cut anywhere past the first 16 decode to a prefix of what all of them decode to |
| `Delta.PieceLayout` | tffiles/encoder.go:78-86 | a record is a byte with the time's length in its high half and the value's in its low half, then both varints |
| `Delta.BaseLayout` | tffiles/encoder.go:62-67 | the full point is eight bytes of time and the eight bytes of the value's pattern |
| `Delta.DecodesAny` | tffiles/encoder.go:195-218 | every record, whatever bytes its fields hold, gives the next point, and one that is cut short ends the decoding |
| `Delta.EncodeDelta` | tffiles/encoder.go:53-92 | the loop writes the first point and the records of the encoding that the round trip is about |
| `Delta.DecodeDelta` | tffiles/encoder.go:177-221 | for any bytes the loop returns the points of the decoding that the round trip is about |
| `DeltaDelta.ShortEncodings` | tffiles/encoder.go:223-252 | three or more points: the decoder stops the program if and only if header and records have less than 16 bytes and the slice's capacity is below 48; up to 16 bytes it otherwise returns the first two points |
| `DeltaDelta.DecodesHeader` | tffiles/encoder.go:223-252 | what any bytes give before the records, by their length and the slice's capacity |
| `DeltaDelta.DecodesAny2` | tffiles/encoder.go:262-286 | every record, whatever bytes its fields hold, changes pace and rate and gives the next point, and one that is cut short ends the decoding |
| `DeltaDelta.AlignedRoundTrip` | tffiles/encoder.go:95-149 | behind a 16-byte header whose time varint takes at most 8, all times and the first two points are exact, and values are off by what the rate was misread by, plus the drift |
| `DeltaDelta.DeltaDeltaRoundTrip` | tffiles/encoder.go:95-149 | three or more points whose header varints take 8 bytes each: all times and the first two points exact, value i within i(i+1)/2 - 1 thousandths, for every slice capacity |
| `DeltaDeltaLimits.TimesKeptExactly` | tffiles/encoder.go:248-252 | whatever points follow the first two come back in number and times if and only if the header has 16 bytes and its time varint at most 8 |
| `DeltaDeltaLimits.RoundTripExactly` | tffiles/encoder.go:248-252 | whatever points follow also keep the value bound if and only if each header varint takes 8 bytes |
| `DeltaDeltaLimits.DeltaDeltaExact` | tffiles/encoder.go:223-289 | behind a 16-byte header the round trip is the identity if and only if it is 8 and 8, the first truncations cancel and later second differences are whole thousandths |
| `DeltaDeltaLimits.IdentityExact` | tffiles/encoder.go:223-289 | for any header, which encoded bytes come back as the stream: those from the sixteenth on must parse into one record for each point from the third on, the first making up for the misread differences and the others holding the second differences |
| `DeltaDeltaLimits.EightAndFour` | tffiles/encoder.go:248-252 | four evenly spaced points with a header of 8 and 4 bytes that come back unchanged: 8 and 8 is not needed for a single stream |
| `DeltaDelta.SmallSeriesExact` | tffiles/encoder.go:223-246 | series of up to two points come back exactly if and only if they are not a single point |
| `DeltaDeltaLimits.SteadySeriesFails` | tffiles/encoder.go:248-252 | a constant series whose step takes a 5-byte varint (one second does) loses its last two points from six points on; shorter ones come back as two points, or stop the program for want of capacity |
| `DeltaDelta.EncodeDelta2` | tffiles/encoder.go:95-149 | the loop writes the two full points, the header and the records of the encoding that the round trip is about |
| `DeltaDelta.DecodeDelta2` | tffiles/encoder.go:223-289 | for any bytes and any contents of the slice's spare capacity the loop returns the points of that decoding, or runs past the capacity where it does |
| `Wire.ReceiveExact` | tffiles/tcp_server.go:149-175 | a message is received if and only if the stream starts with its length, kind and body and the body has at most 10 MiB |
| `Wire.FramesSplitBack` | tffiles/tcp_server.go:149-175 | what is read off a run of frames is what was sent if and only if every frame is within the limit |
| `Wire.FramesUnique` | tffiles/tcp_server.go:319-368 | two runs of deliverable frames have the same bytes if and only if they are the same frames |
| `Wire.MessagesPrefix` | tffiles/tcp_server.go:125-146 | arbitrary bytes cut anywhere lose only messages from the end |
| `Wire.ReadMessage` | tffiles/tcp_server.go:149-175 | end of stream, oversize, or the message with its header repeated in front, as the receive rule says |
| `Wire.ReadConnection` | tffiles/tcp_server.go:125-146 | the read loop yields all messages up to the first that cannot be read |
| `Wire.SendResponse` | tffiles/tcp_server.go:319-346 | both branches write the length of what follows the header in four bytes, kind, code and data; six bytes when there is no data |
| `Wire.SendErrorWithType` | tffiles/tcp_server.go:349-368 | an error is a frame of the same layout, with the error code and the message's bytes |
| `Wire.WriteBodyLayout` | tffiles/tcp_server.go:207-217 | a write request is the ID's length in two bytes, the ID, the number of points in four, and their records |
| `Wire.WriteParsedExact` | tffiles/tcp_server.go:199-247 | a body is taken as these points for this device if and only if it starts with that layout, the ID has at most 65529 bytes and the counters hold the counts |
| `Wire.WriteFares` | tffiles/tcp_server.go:202-230 | how every other request fares: bad format, or refused at the first point that is cut short in its header or in its row |
| `Wire.WriteRoundTrip` | tffiles/tcp_server.go:199-247 | an encoded write comes back as written if and only if it is within those limits |
| `Wire.TakePoints` | tffiles/tcp_server.go:219-247 | the loop yields the counted points, or the index and kind of the first record that is cut short |
| `Wire.HandleWrite` | tffiles/tcp_server.go:199-247 | with 16-bit sums and slice bounds as written, every body fares as the request grammar says, and the bounds come out of order if and only if six bytes or more announce an ID above 65529 bytes |
| `Wire.QueryParsedExact` | tffiles/tcp_server.go:264-279 | a query is understood as this device and range if and only if the body starts with their encoding and the ID has at most 65517 bytes |
| `Wire.QueryFares` | tffiles/tcp_server.go:267-276 | a query has a bad format if and only if it has no room for its fields or for the ID that it announces |
| `Wire.HandleQuery` | tffiles/tcp_server.go:264-279 | with 16-bit sums and slice bounds as written, every body fares as the request grammar says, and the bounds come out of order if and only if 18 bytes or more announce an ID above 65517 bytes |
| `Wire.AnswerData` | tffiles/tcp_server.go:288-306 | the buffer sized in the first pass is filled exactly, with the count and the records in order |
| `Wire.AnswerIsAWrite` | tffiles/tcp_server.go:288-306 | the write handler recovers the points of a query's answer if and only if counts fit their fields |
| `Wire.AnswerDelivered` | tffiles/tcp_server.go:288-346 | a reader with the same message limit receives a query's answer if and only if its records take at most the limit less five bytes |
| `Wire.WriteDelivered` | tffiles/tcp_server.go:149-247 | a write request within the size limit, sent as a message, reaches the parser unchanged, and is parsed as written if and only if its ID and field counts are within their limits |

## Left out

- Storage.Store.Query: does not state the order of points, because days are read by concurrent goroutines and appended as they finish; the days of one query are read one after another here, in any order.
- Storage.Store.WriteBatch: calls on the store are taken one at a time; concurrency is modelled where it matters, per writer (`WriterProtocol`), per table (`WriterTable`) and per moved file (`TierMove`).
- Storage.Store.constructor: the store starts on an empty data directory; files of an earlier run are covered by the day writer's constructor and the protocol's reopening.
- WriterProtocol.CrashSafety: a data write that was synced stays; blocks must be readable by the compression library.
- WriterProtocol.TornIndexSafety: for one torn index append; after several the file's bytes are given by `CrashSafety`, not what they read as.
- Storage.QueryBesideWriter: for an index file without scraps; the blocks of one query are read from one later state.
- TierMove.TieringHidesNothing: like the other results on the move, for one block per hot file, no open writer, no earlier cold file and no crash of the mover; with several blocks, late writes or an existing cold file the code loses data.
- DeltaDelta.DeltaDeltaRoundTrip: only for headers of twice eight bytes, since for every other header some continuation breaks the bound (`DeltaDeltaLimits.RoundTripExactly`); for single streams behind other headers only the perfect round trip is characterised (`DeltaDeltaLimits.IdentityExact`).
- Delta.DeltaRoundTrip: here and in all statements about the two codecs values are exact reals and differences must fit an int64; rounding of float64 and NaN are not modelled, and the first value's bit pattern must convert back.
- DeltaDelta.DecodeDelta2: the capacity is a parameter; how much the encoder's buffer grows is up to the Go runtime, and every statement holds for each capacity from the length on.
- Reader.ReadOne: an entry with a negative length counts as a failed read, where the code stops the program; no flush writes such an entry.
- Tiering.MoveKeepsAnswers: for compressed files the condition is a read of the new file, since only the compressor decides its length; when the rewrite grows the file the entry names part of a block, and what the decompressor makes of that is its own affair.
- Checksum and compression: `Blocks.Library` holds them as functions; a batch is readable when compression undoes itself on it, or the decompressor refuses its raw block.
- Errors of the file system: a failed data write drops the batch and leaves the offset stale; the model writes without errors, up to files of 2^63 bytes.
- Local time is a fixed offset from UTC and dates are day numbers; daylight saving and calendar formatting are not modelled.
- Sockets, deadlines, tickers, logging and statistics; memory for a declared point count; the slow-write log line.
- The raw mode of the encoder, and `encodePoint` of `datapoint.go`, which add only simple members.
- Schema registration, map conversion, expiry of old files, getters, and everything under `gobackendkit/`.
