# A verified model of the LSM state store

The engine keeps the latest operation of every key. A write takes a sequence
number, goes to a write-ahead log of checksummed whole-page frames, and then to
a sorted table in memory (the active table). When that table is frozen, the log
is renamed to `wal.flush`, a new log begins, and one worker turns the frozen
table into an immutable SSTable file. Reads look at the active table, the frozen
one, then the SSTables from newest to oldest. After a crash the engine is rebuilt
from the files alone.

## What is proved

The project has three layers; each is proved and then used by the one above.

**Bytes.** The log (`WalFormat`, `WalRecovery`, `Wal`), the SSTable file
(`SstCodec`, `SstFormat`, `SstWriter`, `SstReader`) and the Bloom filter
(`Hashing`, `Bloom`). The writers and loops of the program are classes and
methods with a buffer, an offset or a set of words updated in place. They are
proved against functions on byte sequences, and the theorems are about those:
a log cut at any byte gives back the longest prefix of whole frames; opening a
written table file and looking a key up is looking it up in the list written,
for every key, present or not; a filter never misses an inserted key, also after
the disk, and lets another key through only if inserted keys of its block have set
each of its bits; the eight probes of a key never collide; the vector test of a mask
equals the word-by-word test; the writer's blocks are the one greedy cutting of the
stream. Corruption: a log in which one payload has another checksum opens to the
records before it, a table file in which one block has refuses exactly the keys it
would look up there, and what opens or is read at all is stated byte by byte.

**The engine as a machine.** `EngineModel` has one step per critical section:
append, apply, the wait, freeze, the three file operations of the rotation,
sending a job, the worker's build, rename, install and delete, failures, and
crash with recovery. Any number of threads. The history of appended operations
is kept beside the state, and every theorem compares reads with that history.
- `EngineVisible`: between crashes a read always tells the last applied operation,
  the number and value of a put or the number of a delete, for any number of
  concurrent writers and flushers, also after failed rotations and jobs.
- `EngineDurable`, `EngineRecovery`: over any number of crashes, every appended
  operation survives, provided one flusher is active at a time and nothing is
  written between a freeze and its rotation.
- `EngineSafety`, `EngineGaps`: that proviso is exact. An append loses data in some
  later crash if and only if it falls between the freeze and the rotation of a table
  the format can hold; letting a flusher pass its wait keeps all later histories safe
  if and only if every other flusher is idle, or the table in the slot, or to be put
  there next, can never leave it. Short histories from a new directory reach each
  failing case.
- `EngineSteps`: whole operations as runs of the machine, any file operation
  refused; a `flush` by the only thread returns, after two turns of its loop at most,
  if and only if a job is in flight at its start, nothing is frozen, or a failed
  job's error is still to be reported.
- `EngineStuck`: a frozen table leaves its slot before the next restart if and
  only if some thread, the queue or the worker still carries it and the format can
  hold it; a crash frees the slot and keeps the table.
- `EngineFiles`: the same durability stated on file bytes: recovery reads
  only bytes, also with the last append torn at any byte.

**The engine as an object.** `Engine` (module `Engines`) has the fields of the
program: tables shared by reference, log, readers, counters, job queue, and a
directory. A ghost field follows the machine. Each method is one critical
section or a composition of them (`ScheduleFlush`, `RunJob`, `WaitFlush`, `Flush`),
and its contract says that object and machine take the same steps, and what becomes
of the fields it touches. Which file
operations of a rotation or job the system refuses is an argument.
`EngineSessions` opens directories. `ReadAfterCrash` puts the layers together: drop
the object anywhere in a disciplined history, open its directory, read any key.
`RestartTorn` crashes in the middle of an append, cut anywhere, and the sessions go on;
`WriteAll` says after which writes over the torn frame a restart reads the log back.

## Reading the contracts

- `Checksum` is an arbitrary function from byte strings to 32-bit words. No
  property of CRC32 but that it is a function is used.
- `Running` is the invariant of states between crashes; `Durable` the invariant
  of disciplined histories. Both hold of a new directory (`EngineVisible.FreshRunning`,
  `EngineRecovery.FreshDurable`) and are kept by every step.
- `IsHighest(s, k, e)`: `e` is the highest-numbered operation on `k` in `s`, or
  there is none. `TellsLast(hit, s, k)`: the answer of a read is number and value of
  that operation if it is a put, its number if it is a delete. `Applied(s)` is every appended operation but one still being
  applied.
- `DisciplinedRun`: a run with one flusher past its wait at a time and no append
  while a flusher is between freeze and rotation.
- Sequence numbers below 2^64 - 1 are assumed, as the step `Append` says; the
  program only rejects the number 0 (`src/engine.rs:470-473`).

Where code and documentation differ, the code is followed: opening a log does
not truncate it, so a torn frame of several pages can come back after a later,
shorter append (`WalRecovery.StalePageResurfaces`, exactly when by
`WalRecovery.AppendsReopenIff`); table files are documented to be named by digits, but
the number is also read behind a plus sign, so that two names can give one number
(`FileNames.OneToOneIff`); `flush` is documented to return once nothing is
left in memory: after a failed job the first `flush` reports the error, and a later
one goes round for ever unless a job is in flight (`EngineSteps.FlushEndsIff`, reached
by `EngineGaps.StuckHappens`); a write that has been confirmed can be lost when it runs
between freeze and rotation (`EngineGaps.AppendSafeIff`, reached by
`EngineGaps.GapHappens`).

## Model

| member | source | states |
|---|---|---|
| Bytes.LeDigits | src/wal.rs:698-714 | integers are stored least significant byte first |
| Bytes.LessIff | src/types.rs:14-15 | keys are ordered by their first differing byte, a proper prefix first |
| Records.FoldSummarizes | src/memtable.rs:331-349 | applying any sequence of records to a table leaves each key with its highest-numbered version among table and records |
| Records.ReplayOrderFree | src/engine.rs:603-616 | replay depends only on the set of records: any permutation with any repetition gives the same table |
| Records.ReplayIdempotent | src/engine.rs:587-594 | replaying records already reflected, before or after the others, changes nothing |
| Records.SummaryUnique | src/memtable.rs:331-349 | a consistent set of records has one table of highest versions |
| Records.AnswerTells | src/engine.rs:356-382 | a stored version is answered by number and value of the put it is, or by the number of the delete |
| Records.IterAscending | src/memtable.rs:322-324 | the ordered iteration is strictly ascending by key bytes |
| Records.FindIter | src/memtable.rs:304-315 | looking a key up in the ordered iteration is looking it up in the table |
| Records.FindTells | src/sstable/reader.rs:261-303 | the answer found in an ordered list tells number and value, or removal, of the one record on the key |
| Records.CheckpointRestores | src/engine.rs:618-632 | replaying a table's own entries, in key order, rebuilds the table exactly |
| Records.CheckpointThenAppends | src/engine.rs:595-598 | records appended after a checkpoint act as on the original table, higher numbers winning |
| Records.TableMaxIsLogMax | src/sstable/writer.rs:145-146 | though a table keeps one version per key, its highest stored number is the highest ever written to it |
| MemTables.InstallExact | src/memtable.rs:331-349 | one installation keeps the byte counter equal to the sum of encoded sizes while sums fit a word |
| MemTables.InstallCharges | src/memtable.rs:331-349 | a put or delete charges key and value bytes and 16, less what the replaced version was charged, held to a machine word; a stale one nothing |
| MemTables.RunAccounting | src/memtable.rs:331-349 | after any run of puts and deletes, stale and equal numbers included, table and counter are exact |
| MemTables.MemTable.ApplyRecord | src/memtable.rs:331-349 | returns true exactly when the record is the stored version afterwards; refuses only strictly older records |
| MemTables.MemTable.Insert | src/memtable.rs:268-277 | a put is an applied put record |
| MemTables.MemTable.Remove | src/memtable.rs:287-296 | a delete stores a tombstone even for an absent key |
| MemTables.PutThenDelete | src/memtable.rs:268-315 | a read after a put tells its number and value, a read after a delete its number |
| MemTables.MemTable.Get | src/memtable.rs:304-315 | alive with number and value exactly when a put is stored, deleted with its number exactly when a tombstone is, missing otherwise |
| WalFormat.AlignUpLeast | src/wal.rs:661-667 | rounding up gives the least positive multiple of 4096 not below the argument |
| WalFormat.AcceptedIff | src/wal.rs:310-318 | a record is taken exactly when it has a key and its frame, before padding, is at most 16 MiB |
| WalFormat.DecodeEncode | src/wal.rs:597-653 | decoding the payload of an acceptable record gives the record |
| WalFormat.EncodeDecode | src/wal.rs:619-653 | every payload the decoder accepts is the encoding of what it returns |
| WalFormat.PayloadBytes | src/wal.rs:597-612 | the payload byte by byte |
| WalFormat.DecodesIff | src/wal.rs:619-653 | the decoder takes exactly the encodings of records with a key and 32-bit lengths |
| WalFormat.DecodeErrors | src/wal.rs:619-653 | it reports an empty key exactly where the lengths agree and the key length is zero, corruption otherwise |
| WalFormat.FrameBytes | src/wal.rs:310-329 | a frame byte by byte: checksum, length, payload, zeros |
| WalFormat.HeaderBytes | src/wal.rs:369-381 | the header page byte by byte |
| WalFormat.HeaderIff | src/wal.rs:388-408 | a header is accepted exactly when magic, version and checksum are right |
| WalFormat.HeaderErrors | src/wal.rs:388-408 | another version behind the magic is reported as such, anything else as corrupt |
| WalRecovery.ReadWholeFrame | src/wal.rs:527-574 | a whole frame of any number of pages reads back as its record and next offset |
| WalRecovery.ReadTornFrame | src/wal.rs:533-567 | a frame cut anywhere reads as the end of the log, whatever the checksum function |
| WalRecovery.ReadOneIff | src/wal.rs:527-574 | reading a frame returns a record exactly when it is acceptable and its frame lies there whole: checksum and length of its payload, then the payload |
| WalRecovery.ReadOneErrIff | src/wal.rs:527-574 | it fails exactly for a length past the limit, or a payload of the right checksum that makes no record |
| WalRecovery.AppendHolds | src/wal.rs:310-329 | writing a frame at the append offset extends the held log by that record, whatever was there before |
| WalRecovery.ScannedAccepted | src/wal.rs:527-574 | every record a scan returns is one the log would accept again |
| WalRecovery.FitIsLongest | src/wal.rs:415-425 | the number of recovered records is the largest whose frames fit the file |
| WalRecovery.CutLogRecovers | src/wal.rs:415-425 | a log cut at any length of at least a page opens to the longest prefix of whole frames, offset at its end; shorter files are refused |
| WalRecovery.WholeLogRecovers | src/wal.rs:272-284 | an uncut log opens to all its records in order, offset at the file's end, a multiple of the page size |
| WalRecovery.TornAppendRecovers | src/wal.rs:533-567 | an append torn at any byte leaves the earlier records, or all with the new one |
| WalRecovery.ReopenExact | src/wal.rs:272-284 | reopening returns exactly the held records if and only if the bytes at the append offset read as the end of the log |
| WalRecovery.StartedReopens | src/wal.rs:272-284 | the same for a file that starts with header and frames, whatever lies behind them |
| WalRecovery.StartedGoesOn | src/wal.rs:415-425 | what lies behind the frames decides: an unreadable frame is the error returned, a whole one another record |
| WalRecovery.CorruptFrameStops | src/wal.rs:527-574 | a log in which one payload was replaced by one of another checksum opens to exactly the records before it |
| WalRecovery.CorruptHeaderRefused | src/wal.rs:388-408 | a log whose first eight bytes were replaced by ones of another checksum is not opened |
| WalRecovery.AppendsReopenIff | src/wal.rs:310-329 | after any appends over stale bytes, reopening returns the records and all the new ones if and only if the file before them reads as the end of the log just behind the last new frame |
| WalRecovery.LogReopens | src/wal.rs:272-284 | remains of less than a page behind the last frame do not change what opening returns |
| WalRecovery.LogAppended | src/wal.rs:310-329 | the next append goes over any remains; if they were less than a page the file is exactly header and frames again |
| WalRecovery.TornWriteReopens | src/wal.rs:533-567 | an append cut after any number of bytes leaves the earlier records; over less than a page of remains the file reads as ending behind them, and cut within a page it leaves only such remains |
| WalRecovery.StalePageResurfaces | src/wal.rs:272-284 | a concrete torn frame and shorter append after which reopening returns a record nobody appended |
| Wals.AlignedBuf.Ensure | src/wal.rs:168-180 | the buffer grows to at least the need and keeps the preserved prefix |
| Wals.WriteAligned | src/wal.rs:484-493 | page-aligned writes are positional writes at any offset, a gap before them filled with zeros; others are refused and change nothing |
| Wals.ReadOneFrame | src/wal.rs:527-574 | reading one frame through the reused buffer equals decoding it from the file bytes, errors included |
| Wals.EncodePayload | src/wal.rs:597-612 | the buffer afterwards is the old one with the payload written at the base offset |
| Wals.Wal.Create | src/wal.rs:252-265 | a created log holds no records and its file is the header page |
| Wals.Wal.Append | src/wal.rs:310-329 | accepted exactly when the frame is within the size limit; then the frame is written at the offset and the log grows by the record, over remains or not; refused appends change nothing |
| Wals.Wal.Replay | src/wal.rs:337-352 | returns exactly the records held, in order, without touching the append buffer |
| Wals.Wal.ScanEnd | src/wal.rs:415-425 | the loop stops where the scan of the file bytes stops, with the same error or the same records |
| Wals.Open | src/wal.rs:272-284 | opening equals header check and scan of the file bytes, errors included |
| Wals.RoundTrip | src/wal.rs:272-352 | create, any accepted appends, open, replay: same records, same offset |
| SstCodec.ComputeDecodeRecords | src/sstable/mod.rs:324-371 | the decoding loop equals the recursive decoder, errors included |
| SstCodec.DecodeUndoesEncode | src/sstable/mod.rs:282-371 | decoding the concatenated encodings of any representable records gives the records |
| SstCodec.EncodeUndoesDecode | src/sstable/mod.rs:324-371 | every accepted payload is the encoding of its decoded records |
| SstCodec.ComputeScanSorted | src/sstable/reader.rs:261-303 | the scanning loop equals the recursive scan, errors included |
| SstCodec.ScanRefinesLookup | src/sstable/reader.rs:261-303 | on accepted ascending payloads the scan with early stop is lookup in the decoded list |
| SstCodec.ScanTells | src/sstable/reader.rs:261-303 | the scan tells number and value, or removal, of the record on the key |
| SstCodec.ScanFinds | src/sstable/reader.rs:261-303 | in any payload, intact or not, an answer is the bytes of a record on the key that lies there |
| SstCodec.UnknownKindFails | src/sstable/reader.rs:286-299 | behind smaller keys a record of the key with an unknown kind is an error |
| SstCodec.RecordBytes | src/sstable/mod.rs:282-298 | a record byte by byte |
| SstCodec.BlockHeaderRoundTrip | src/sstable/mod.rs:192-219 | block headers survive encoding |
| SstCodec.BlockHeaderIff | src/sstable/mod.rs:206-219 | a block header is read exactly when the magic is right, as the three numbers behind it |
| SstCodec.IndexEntryRoundTrip | src/sstable/mod.rs:228-250 | index entries survive encoding |
| SstCodec.IndexEntryIff | src/sstable/mod.rs:241-250 | an index entry is read as offset, length and key length in eight, four and four bytes |
| SstCodec.FooterRoundTrip | src/sstable/mod.rs:111-165 | footers survive encoding, checksum included |
| SstCodec.FooterIff | src/sstable/mod.rs:134-165 | a footer is read exactly when magic, version and the checksum of its first 72 bytes are right |
| SstCodec.FooterFields | src/sstable/mod.rs:111-131 | a footer field by field |
| Hashing.ComputeHash2 | src/index/bloom.rs:209-237 | the chunk loop in wrapping arithmetic computes the two hashes |
| Hashing.HashOfNothing | src/index/bloom.rs:209-237 | the two hashes of the empty key, as numbers |
| Hashing.HashOfByte | src/index/bloom.rs:209-237 | those of a key with only a partial chunk |
| Hashing.HashOfNine | src/index/bloom.rs:209-237 | those of a key with a whole and a partial chunk |
| Hashing.SecondHashOdd | src/index/bloom.rs:236 | the second hash is odd for every key |
| Hashing.ProbesDistinct | src/index/bloom.rs:245-256 | with an odd second hash the first eight probe positions modulo 256 are pairwise distinct |
| Hashing.ComputeProbeMask | src/index/bloom.rs:245-256 | the probing loop sets exactly the bits of the specified mask |
| Hashing.MaskIsProbes | src/index/bloom.rs:245-256 | a mask has exactly the bits the first probes hit |
| Hashing.MaskOfNine | src/index/bloom.rs:245-256 | the four words of one mask, as numbers |
| Hashing.MaskHasKBits | src/index/bloom.rs:245-256 | for one to eight hashes the mask of any key has exactly that many bits set |
| Hashing.VectorEqualsScalar | src/index/bloom.rs:260-300 | the 32-byte-lane compare and movemask test equals the four-word subset test, for all blocks and masks |
| Bloom.New | src/index/bloom.rs:55-74 | accepted exactly for 1 to 16 bits per key within the bitmap limit; the result is sound |
| Bloom.NewShape | src/index/bloom.rs:55-74 | a new filter has up to eight hashes, the fewest blocks that give each key its bits, and no bit set |
| Bloom.BlockIsRemainder | src/index/bloom.rs:197-200 | a key falls into the block of the remainder of its first hash |
| Bloom.InsertFinds | src/index/bloom.rs:82-110 | a key just inserted may be contained |
| Bloom.InsertKeeps | src/index/bloom.rs:82-92 | inserting a key never hides another |
| Bloom.NoFalseNegatives | src/index/bloom.rs:82-110 | after any sequence of inserts every inserted key may be contained |
| Bloom.NewFilterExact | src/index/bloom.rs:55-110 | a filled filter lets a key through exactly when inserted keys of its block have set each of its bits |
| Bloom.EmptyContainsNothing | src/index/bloom.rs:101-110 | a new filter lets no key through |
| Bloom.BytesRoundTrip | src/index/bloom.rs:135-189 | every sound filter is stored, accepted and restored field for field |
| Bloom.FromBytesIff | src/index/bloom.rs:154-189 | bytes are read as a filter exactly when magic, hashes, density, block count and length are right |
| Bloom.StoredFilterFinds | src/index/bloom.rs:55-189 | a new filter, filled and taken through the disk, still answers maybe for every inserted key |
| Bloom.BloomFilter.Add | src/index/bloom.rs:82-92 | inserting in place changes the words as the insertion on values does |
| Bloom.BloomFilter.Serialize | src/index/bloom.rs:135-147 | the bytes written are those of the filter's value |
| Bloom.BloomFilter.Query | src/index/bloom.rs:101-110 | the in-place query is the query on the filter's value |
| SstFormat.PackLaws | src/sstable/writer.rs:131-142 | for any block size and stream, decoded blocks concatenate to the input, each fits the block size or holds one record |
| SstFormat.BlocksIff | src/sstable/writer.rs:131-142 | the blocks are the one cutting in which those of several records keep within the block size and no block could have taken the next record |
| SstFormat.BlockFields | src/sstable/writer.rs:203-242 | a block on disk is magic, checksum, length, record count and the records |
| SstFormat.MinSnBounds | src/sstable/writer.rs:145-146 | the lowest number is a number of the stream and no other is lower |
| SstFormat.BlocksGrow | src/sstable/writer.rs:203-242 | a finished block is never changed by later records |
| SstFormat.BlockPlace | src/sstable/writer.rs:203-242 | blocks tile the data area without gap, each at the sum of the lengths before it |
| SstReader.ComputeParseIndex | src/sstable/reader.rs:229-258 | the index loop equals the recursive parser, errors included |
| SstReader.ParseIff | src/sstable/reader.rs:229-258 | an index blob is read exactly when entries and first keys tile it |
| SstReader.OpenIff | src/sstable/reader.rs:109-123 | a file opens exactly when footer, index, block count and filter are right, and to the reader they describe |
| SstReader.CorruptFooterRefused | src/sstable/reader.rs:109-114 | a file whose footer does not match its checksum is refused |
| SstReader.OpenWritten | src/sstable/reader.rs:109-123 | opening a written file finds its filter and one slot per block at the right places |
| SstReader.ComputeFindBlock | src/sstable/reader.rs:153-172 | the bisection loop terminates with the recursive bisection's answer |
| SstReader.FindBlockIsLast | src/sstable/reader.rs:153-172 | on ascending first keys the bisection gives the last block whose first key is at most the key, none if all are greater |
| SstReader.IndexAscends | src/sstable/writer.rs:133-140 | for an ascending stream the index keys are strictly ascending |
| SstReader.OnlyInThatBlock | src/sstable/reader.rs:153-172 | a key stored anywhere is stored in that block only |
| SstReader.LookupWritten | src/sstable/reader.rs:180-200 | looking a key up in a written block is lookup in that block's records |
| SstReader.LookupChecks | src/sstable/reader.rs:180-200 | in any file a block is scanned exactly when it is whole and its payload has the stored checksum, else the lookup fails as corrupt |
| SstReader.CorruptBlockRefused | src/sstable/reader.rs:130-200 | a written file in which one payload was replaced by one of another checksum opens, refuses the keys looked up in that block and answers all others as before |
| SstReader.AnswersAreStored | src/sstable/reader.rs:130-200 | in any file a value returned is that of a record on the key in a block of the right checksum |
| SstReader.FilterFirst | src/sstable/reader.rs:130-142 | an empty key is refused, a key the filter excludes is missing whatever the blocks hold |
| SstReader.SstRefinesMap | src/sstable/reader.rs:109-201 | for every ascending stream and block size the written file opens, and a lookup of any non-empty key is lookup in the stream |
| SstWriters.Create | src/sstable/writer.rs:93-118 | a writer is made exactly when block size and filter options are accepted |
| SstWriters.SstWriter.Add | src/sstable/writer.rs:125-148 | fails exactly when a length does not fit; otherwise the writer's file, index, filter and counters describe the stream with the record added |
| SstWriters.SstWriter.FlushBlock | src/sstable/writer.rs:203-242 | fails exactly when the block length does not fit 32 bits; otherwise the current block becomes the last one written |
| SstWriters.SstWriter.Finish | src/sstable/writer.rs:155-200 | the file is then the blocks of the whole stream, their index, the filter of its keys and the footer; the counts and size reported are the file's |
| SstWriters.AddsSucceed | src/sstable/writer.rs:125-148 | if every block of the stream is representable no add fails |
| SstWriters.FlushTable | src/sstable/writer.rs:259-269 | a table with representable blocks is written, and the bytes are those of its ordered entries |
| SstWriters.FlushedFooter | src/sstable/writer.rs:155-200 | the footer of a flushed table records its entry count and its lowest and highest numbers |
| SstWriters.FlushedTableAnswers | src/sstable/reader.rs:131-142 | the file of a flushed table opens and answers every non-empty key as the table does |
| SstWriters.FilterSized | src/sstable/writer.rs:93-105 | the stored filter is sized by the number of entries |
| FileNames.NameRoundTrip | src/engine.rs:546-547 | the name given to a table file reads back as its number, for all 64-bit numbers |
| FileNames.NameShape | src/engine.rs:546-547 | the name is the digits, zeros before them up to six, and `.sst`; with `.tmp` behind while it is written |
| FileNames.SixDigitNames | src/engine.rs:546-547 | two instances |
| FileNames.OtherNames | src/engine.rs:665-673 | names of unfinished files and of the logs are passed over |
| FileNames.ListsTheFiles | src/engine.rs:661-680 | in a directory of the engine's own files the numbers found are exactly the table files', each from one name |
| FileNames.TableIdIff | src/engine.rs:661-680 | the names read as a number are exactly its digits behind any zeros and an optional plus sign, with `.sst`, below 2^64 |
| FileNames.OneToOneIff | src/engine.rs:661-680 | a directory reads one to one if and only if no number is spelled in it twice, by sign or by zeros |
| FileNames.TwoNamesOneId | src/engine.rs:668-675 | an instance of two spellings: without padding, or with a sign |
| EngineRecovery.SortedLists | src/engine.rs:661-680 | the listing holds every table file once, ids strictly ascending |
| EngineLayers.HitIsNewest | src/engine.rs:356-382 | in ordered layers the first one that knows a key holds its newest version |
| EngineLayers.HighestFromCoverage | src/engine.rs:356-382 | ordered layers that hold only given operations and cover them all answer each key with its highest |
| EngineVisible.KeepsRunning | src/engine.rs:410-560 | every step but a crash keeps the running invariant, whatever the interleaving |
| EngineVisible.ReadsSeeLastApplied | src/engine.rs:356-382 | on every crash-free run a read tells the key's last applied operation: number and value of a put, number of a delete, missing if there was none; an empty key is refused |
| EngineVisible.NumbersTaken | src/engine.rs:464-484 | on every crash-free run the n-th write to reach the open log gets the first number plus n - 1, accepted or refused |
| EngineVisible.StepsKeepAnswers | src/engine.rs:550-555 | no step but applying an operation changes any answer, and that one only its key's |
| EngineVisible.FrozenIsTheUnfinishedFlush | src/engine.rs:413-431 | at most one thread, queue or worker carries a flush, and the frozen slot holds its table under the last id given |
| EngineVisible.EmptySlotMeansNoFlush | src/engine.rs:414-416 | without failures the slot is empty if and only if no flush is under way |
| EngineVisible.FrozenContentsFixed | src/engine.rs:550-555 | the frozen table never changes, and only the install of that very table clears it |
| EngineVisible.LayersStrictlyOrdered | src/engine.rs:412-424 | from a new directory all numbers of each layer exceed all numbers of every older one, and list order is id order |
| EngineVisible.FreshRunning | src/engine.rs:226-285 | a new directory opens into a running state |
| EngineDurable.KeepsLogged | src/engine.rs:488-497 | after every disciplined step active and frozen table are each replayable from a log still on disk |
| EngineDurable.KeepsDurable | src/engine.rs:410-560 | every disciplined step keeps the durability invariant |
| EngineRecovery.ReplayedVersions | src/engine.rs:580-616 | recovery's table knows exactly the keys of both logs, at a version no lower than either log's |
| EngineRecovery.OpensExactly | src/engine.rs:226-285 | opening any disk gives a table of the highest logged version of each key, a next number one past the highest on disk and a next id one past the highest file |
| EngineRecovery.ReopenedOrdered | src/engine.rs:580-616 | replayed over table files, also with a flush log already in an SSTable, no layer holds an older version above a newer one |
| EngineRecovery.ReopenedAnswers | src/engine.rs:226-285 | reopened layers answer every key with its highest appended operation |
| EngineRecovery.CrashDurable | src/engine.rs:580-601 | a crash and recovery keep the durability invariant, so sessions can follow each other |
| EngineRecovery.CrashKeepsEveryWrite | src/engine.rs:464-497 | crash anywhere in a disciplined history of any number of sessions: after reopening a read tells the key's highest appended operation |
| EngineRecovery.ReadsBetweenCrashes | src/engine.rs:356-382 | between crashes of such a history a read tells the last applied operation |
| EngineRecovery.NumbersStayFresh | src/engine.rs:233-252 | the next number after reopening exceeds every number of every earlier session |
| EngineRecovery.LayersOrderedForever | src/engine.rs:550-555 | over crashes a newer layer never holds an older version, and equal numbers mean the same operation |
| EngineFiles.SstFileOpens | src/engine.rs:234-239 | the file of any writable table opens, answers as the table, and its footer has the table's highest number |
| EngineFiles.OpenMatches | src/engine.rs:226-285 | recovery from bytes reaches the table, readers and counters the machine reopens to |
| EngineFiles.LoadsInOrder | src/engine.rs:234-240 | table files are opened in id order, the first that fails deciding the error |
| EngineFiles.LoadsIff | src/engine.rs:580-601 | a directory loads exactly when all its files do; table files first, then wal.flush, then wal decide the error |
| EngineFiles.OpensIff | src/engine.rs:226-253 | it opens exactly when it loads and numbers are left |
| EngineFiles.TableFileShape | src/engine.rs:546-548 | the file of a table has blocks cut at 4096 bytes and a filter of eight hashes and ten bits a key |
| EngineFiles.BytesKeepEveryWrite | src/engine.rs:226-285 | the file bytes of any state of a disciplined history open without error, and a read tells the key's highest appended operation |
| EngineFiles.TornAppendKeepsTheRest | src/wal.rs:533-567 | with the last append cut at any byte, recovery succeeds and answers from all operations before it |
| EngineFiles.RecoveryLeavesModelDisk | src/engine.rs:580-601 | recovery leaves exactly the files of the reopened machine |
| EngineBuilds.BuildsIffBloomAccepts | src/engine.rs:546-548 | a table of logged operations can be flushed if and only if the filter's size limit admits its number of keys |
| EngineBuilds.BuildsIffFewKeys | src/index/bloom.rs:55-68 | in numbers: if and only if it has at most 53687091 keys |
| EngineBuilds.SingletonBuilds | src/engine.rs:546-548 | a table with one logged operation can always be flushed |
| EngineGaps.GapWriteIsLost | src/engine.rs:424-425 | an append between freeze and rotation is lost by a crash after that flush, if the flush can be written |
| EngineGaps.AppendSafeIff | src/engine.rs:424-425 | an append survives every later disciplined history and crash if and only if no flusher stands between freeze and rotation with a table the format can hold |
| EngineGaps.WaitSafeIff | src/engine.rs:411 | letting a flusher pass its wait, with or without a writer inside, keeps every later disciplined history safe if and only if every other flusher is idle, or the table in the slot is stuck, or the table in the slot or to be put there next is one the format cannot hold |
| EngineSafety.DurableIsSafe | src/engine.rs:410-442 | from a durable state no disciplined history and crash loses an operation |
| EngineSafety.BlockedIsSafe | src/engine.rs:414-416 | behind a table that can never leave its slot any number of flushers past the wait lose nothing |
| EngineSafety.TrappedIsSafe | src/engine.rs:424-425 | nor do writes between its freeze and its rotation: a crash cannot tell the state from one with nothing frozen |
| EngineGaps.GapHappens | src/engine.rs:424-425 | the gap is reached from a new directory by one write and a freeze, and the next write is lost |
| EngineGaps.OverlapHappens | src/engine.rs:411 | the overlap is reached from a new directory by two waits |
| EngineGaps.StuckHappens | src/engine.rs:390-403 | a stuck table is reached from a new directory by a write, a freeze and a refused rotation; a `flush` then never returns |
| EngineSteps.RotationWorks | src/engine.rs:488-497 | a rotation that meets no refusal moves the log aside and starts an empty one, touching no table |
| EngineSteps.RotationBreaks | src/engine.rs:488-497 | a refused removal, rename or creation leaves tables and queue as they were and the flusher gone |
| EngineSteps.Schedules | src/engine.rs:410-442 | a schedule with something to freeze ends with the one job queued and in flight, or with a frozen table and no job |
| EngineSteps.Works | src/engine.rs:516-560 | a turn of the worker, whichever file operation is refused, frees the slot exactly when it got past the install and reports an error exactly when something failed |
| EngineSteps.FlushSpins | src/engine.rs:390-403 | behind a frozen table with no error to report every turn of the loop comes back to the same state |
| EngineSteps.FlushEndsIff | src/engine.rs:390-403 | a `flush` by the only thread returns if and only if a job is in flight at its start, nothing is frozen, or an error is still to be reported; then within two turns and with one result |
| EngineSteps.FlushResult | src/engine.rs:390-403 | it succeeds exactly when the job in flight does, no earlier error was pending and nothing it needed was refused; then nothing is left in memory; an error is reported once |
| EngineStuck.FailureSticks | src/engine.rs:531-534 | a failed rotation, or a job failed before its install, leaves a frozen table nobody carries |
| EngineStuck.StuckUntilCrash | src/engine.rs:414-416 | such a table stays until a crash: nothing is frozen or installed meanwhile |
| EngineStuck.CrashFreesSlot | src/engine.rs:580-616 | a restart of a durable state empties the slot, and the new active table has every key of the frozen and the old active one at a version no lower |
| EngineStuck.KeepsLogInPlace | src/engine.rs:488-497 | every step keeps the log file in its place except inside a rotation or behind a stuck table |
| EngineStuck.SlotFreesIff | src/engine.rs:516-560 | a frozen table leaves the slot on some run without crash if and only if some thread, the queue or the worker carries it and the format can hold it |
| EngineStuck.SlotFreesOnEveryRun | src/engine.rs:410-560 | so it is in every state a crash-free run from a new directory reaches |
| EngineStart.LoadReaders | src/engine.rs:232-240 | every table file is opened in id order with highest number and next id, or the first error returned |
| EngineStart.ApplyReplay | src/engine.rs:603-616 | the table becomes the fold of the log's records and the highest number is raised over them |
| EngineStart.Checkpoint | src/engine.rs:618-632 | an empty log gets every entry in key order, and replaying it gives the table |
| EngineStart.RecoverWals | src/engine.rs:580-601 | both logs are replayed, errors in order; with a flush log both files are replaced by one checkpoint |
| Engines.Engine.Get | src/engine.rs:356-382 | reading the object's layers, readers through their bytes, gives the machine's answer, which tells the last applied operation |
| Engines.Engine.GetFromReaders | src/engine.rs:366-380 | for any readers the newest that does not miss the key decides, an error included; for the machine's it is the first file that knows the key |
| Engines.Engine.AppendToLog | src/engine.rs:464-484 | takes a number and appends, or refuses a record too large, as the machine's step; behind the new frame the log ends where it did |
| Engines.Engine.ApplyToActive | src/engine.rs:475-483 | changes the active table only; frozen and queued tables are other objects |
| Engines.Engine.Write | src/engine.rs:329-486 | an empty key or a closed log is refused with no change; else log then table as two machine steps, or the refusal of a record too large |
| Engines.Engine.ReportError | src/engine.rs:458-461 | reports a failed job once, else passes |
| Engines.Engine.WaitFlush | src/engine.rs:449-462 | while a job is in flight the worker takes its turn, however that ends; then the error is reported or the wait passes |
| Engines.Engine.FreezeActive | src/engine.rs:412-424 | skips exactly when a table is frozen or the active one is empty; else the same table object becomes frozen and a new one active |
| Engines.Engine.RotateWal | src/engine.rs:488-497 | the log file becomes the flush log and an empty one is opened; a refused removal, rename or creation, or a missing log, ends it as the machine's broken rotation |
| Engines.Engine.HandOverJob | src/engine.rs:425-441 | rotation, and only if it succeeds flight mark and job, in that order |
| Engines.Engine.ScheduleFlush | src/engine.rs:410-442 | waits out a job in flight and returns its error, or else takes exactly the machine's scheduling steps, by which branch applies, refusals included |
| Engines.Engine.BuildFile | src/engine.rs:546-548 | writes the temporary file, failing exactly when the system refuses or the format cannot hold the table |
| Engines.Engine.PublishFile | src/engine.rs:549 | the temporary file becomes the table file |
| Engines.Engine.InstallReader | src/engine.rs:550-555 | opens the file; reader in and frozen table out in one step |
| Engines.Engine.RemoveFlushLog | src/engine.rs:556-558 | removes the flush log and nothing else |
| Engines.Engine.RunJob | src/engine.rs:516-560 | one turn of the worker takes the machine's steps up to the first refusal, and succeeds exactly when there is none |
| Engines.Engine.Flush | src/engine.rs:390-403 | waits out a job in flight, goes through the turns of the machine's loop and returns what they end with |
| EngineSessions.RecoverDir | src/engine.rs:232-244 | files and logs are read in the program's order, with the same first error |
| EngineSessions.OpenBytes | src/engine.rs:226-285 | opening any directory gives what recovery from its bytes gives, errors included, and leaves the recovered files |
| EngineSessions.OpenWith | src/engine.rs:226-285 | the same; and a directory that loads to a machine disk opens to a valid engine in the reopened state |
| EngineSessions.RecoverableIff | src/wal.rs:272-284 | reopening reads back exactly both logs of a valid engine if and only if both files read as ending behind their frames; always where no stale page lies behind them |
| EngineSessions.CrashImage | src/engine.rs:226-285 | the directory a valid engine leaves loads to the machine's disk, if the logs are read back |
| EngineSessions.Restart | src/engine.rs:226-285 | losing a valid engine and opening its directory is the machine's crash step |
| EngineSessions.RestartTorn | src/wal.rs:533-567 | a crash in an append cut after any number of bytes is the machine's crash step without the operation, and the reopened engine is valid; no stale page remains if the cut is within the first page or a flush log is left |
| EngineSessions.WriteAll | src/engine.rs:464-484 | a session's writes take consecutive numbers, refused ones too, and the accepted ones are in the log in order; the logs are read back if and only if the bytes the session found read as the end where its last frame ends |
| EngineSessions.TakenNumbers | src/engine.rs:470-473 | the n-th of them has the first number plus n |
| EngineSessions.ReadYourWrite | src/engine.rs:329-382 | a read after an accepted put tells its value and the number it took, after a delete the number |
| EngineSessions.FlushedTablesLoggable | src/engine.rs:516-560 | in running states every active, frozen or queued table holds only operations the log accepted |
| EngineSessions.OpenNew | src/engine.rs:226-285 | a new directory opens to a valid engine in the machine's first state |
| EngineSessions.ReadAfterCrash | src/engine.rs:226-382 | drop the object anywhere in a disciplined history, open its directory, read: the key's highest appended operation is told |

## Left out

- CRC32: an arbitrary function, so nothing is said about which corruptions change it; those that do, cut files and stale pages are treated.
- Durability of directory entries and of a write the disk reorders: a finished write, rename or removal is on disk.
- Partial writes of a temporary table file: no crash point lies inside one, and recovery ignores such files.
- Crashes inside `recover_wals` and inside `Wal::create`, and a `Wal::create` refused after the file exists: the program deletes both logs before writing the checkpoint and truncates before writing the header; each is one uninterrupted step here.
- EngineFiles.TornAppendKeepsTheRest: the first reopening, on bytes; later sessions are `EngineSessions.RestartTorn` and `EngineSessions.WriteAll`.
- EngineSessions.Restart: the logs read back, which holds where no stale page lies behind them; where a stale frame does come back, opening returns it too, and what the engine then answers is not followed further.
- Errors of the operating system on reads, on log appends and while opening; refusals in a rotation or job are arguments. Lock poisoning; a worker that is not alive; `Job::Stop` and dropping the engine.
- The counter's wrap-around at 2^64 in `write_op`: numbers are assumed below 2^64 - 1.
- Saturation at 2^64 of the writer's offset and counters, and of the next table id: they are unbounded here.
- Several threads inside one MemTable: inserts are atomic, so the byte counter's races are not modelled; the sequential accounting is.
- `posix_memalign`, `O_DIRECT` and its fallback, `mmap`: a file is its bytes. The direct flag is kept in the log header and does not change between sessions.
- EngineRecovery.SortedLists: works on numbers; `FileNames` relates them to the names the engine writes, and directories that spell a number twice (`FileNames.OneToOneIff`) are not opened.
- The Bloom filter's false-positive rate and the quality of the hashes: statistical; which keys pass is `Bloom.NewFilterExact`.
- `decode_index` (`src/sstable/mod.rs:258-280`): the reader's own `parse_index` is modelled instead.
- When callers decide to flush (`needs_flush`, `is_full`), accessors, `main.rs`, benches, and the texts of errors; errors are kept by kind.
- Engines.Engine.Flush: one thread, the worker taking its turn inside the waits; it requires the condition under which the loop ends, and `EngineSteps.FlushSpins` is the loop otherwise. The machine covers concurrent flushers and writers.
