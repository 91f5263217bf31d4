# MiniDB, modelled and proved in Dafny

MiniDB is an embedded database: a write-ahead log, tables of paged records with a query
engine, fixed-slot page files behind a cache, and a catalogue of tables that is saved and
loaded as JSON. This project models the four stacks and proves what each is for.
`dafny verify dfyconfig.toml` checks everything.

## How the model is built

**The log.** `Crc` defines CRC-32 bit by bit (clause 3.2.9 of IEEE 802.3, as in section 8 of
RFC 1952) and proves the table-driven loop equal to it; `Polynomials` proves that this is the
remainder of the clause's polynomial division. `Frames` is the frame codec, with the
32-bit wrap of the length field. `Recovery` says what a file of arbitrary bytes means as a log.
`Files` is a file whose every call may fail; on one that is marked `reliable` none does, and
then no operation may report a failure. The class `WriteAheadLog` has the fields and loops
of the original; each method is proved to take one of the steps that `LogSteps` describes, and
`CrashRuns` proves what every run of such steps keeps. A crash is a step: completed writes and
truncations survive, and a write in progress leaves some prefix. `FailedAppends` follows the
bytes that an append leaves behind when it fails.

**Tables and queries.** `Records` has JSON values, records and validation. `Tables` gives the
meaning of each table operation on values and proves that a table refines a map from id to
data; `TableStore` has the classes `Page` and `Table`, with their two indexes, proved against
it. `Queries` and `QueryEngine` do the same for scans, comparisons, sorting and aggregates,
`Pagination` for keyset pagination. `Layouts` says what does not depend on how records lie on
pages. Numbers are exact fractions.

**Slots and the page cache.** `Codecs` says what is asked of the JSON library, and builds a codec
that meets it. `Slots` is the fixed-slot file, with writes that may fail at any
byte. `BufferPool` and `PoolRuns` model the page files with the cache in front of them and prove
that the cache does not show while no dirty page is compacted or forced out. `PoolLedger` drops
both conditions: from events and statuses it keeps a ledger that says what every page reads as
over any run. The class `StorageEngine` is proved against that model.

**Catalogue, forms, exchange, threads.** `JsonForms` writes and reads records, pages and tables
through the same narrowing casts as the original. `Catalogues` and the class `Database` are
the table directory and its load; a table there is a shared cell, and deleting it clears a
flag. `Serializers` is export and import. `Parallel` is one task per table on a thread pool,
under every interleaving of their steps on one heap.

The failures that the original reports are statuses; exceptions and undefined casts are
constructors of `JsonForms.Parsed`.

## Where code and documentation differ

The model follows the code. In these places the code does less than its own text says, and a
lemma states exactly when the text holds:

- A failed `append` is said to have had no effect (`WriteAheadLog.cpp:418-424`). Memory is
  untouched, but bytes may be left behind the log, and later appends need not cover them.
  `FailedAppends.LitteredCrashSafety` tells their number from the events and shows that every
  run is exact in which no open and no crash meets enough of them to hold a frame;
  `FailedAppends.LitterIsHarmlessIff` shows that 28 bytes are enough, and no fewer. A caller does
  not learn how much was written: `FailedAppends.CrashSafetyInWorstCase` needs the frame sizes only.
  `FailedAppends.StaleTailResurfaces` is a run with an incomplete frame and an acknowledged
  append after it, in which an entry that was never appended is recovered.
- A dirty page is said to be always flushed before eviction (the repository's `README.md:105`). Compacting a
  cached page clears its mark, and a full cache drops a page without flushing it. A page that
  leaves the cache so keeps its contents exactly if its last successful write had them:
  `PoolLedger.EvictedViewIff`, `PoolLedger.ForcedOutViewIff`, `PoolLedger.CompactThenEvictIff`.
  `PoolRuns.LostUpdate` and `PoolLedger.OnePageTooMany` are losses.
- A failing `load` is said never to leave the database half-replaced (the repository's `README.md:107`). If all
  tables parse but the database name is not a string, the old tables have already been deleted
  when the exception arises: `Databases.Database.FromJson`, and
  `Catalogues.NamelessFormFailsTooLate` for such a form.
- `totalMatched` is said to count the matches before any limit (`QueryEngine.h:65`):
  `Queries.CountIsCompleteIff`, and `Layouts.LimitCutsTheCount` for a table where it does not.
- A table's `recordCount` is said to be its number of records (`Table.h:219-220`); it counts
  every successful delete since the last compaction as well: `Layouts.DeletesAreCounted`, and
  `Layouts.DeletedSlotIsCounted` for a table without records and with a count of one.
- Every record is said to be checked before it is stored (the repository's `README.md:106`). Loading
  checks nothing: `JsonForms.LoadedTableOkIff` and `Catalogues.LoadedCatalogueOkIff` say which forms
  load into well-formed tables and databases, `JsonForms.InvalidRecordLoads` and
  `Catalogues.SameTableTwiceLoads` are forms that do not.

## Model

| member | source | states |
|---|---|---|
| Crc.ShiftInjective | src/MiniDB/Storage/WriteAheadLog.cpp:216-218 | a register step loses nothing: different 32-bit states stay different |
| Crc.ShiftLinear | src/MiniDB/Storage/WriteAheadLog.cpp:216-218 | a register step is linear over exclusive-or |
| Crc.FeedWindow | src/MiniDB/Storage/WriteAheadLog.cpp:226-228 | up to four message bytes act on the register as one word mixed in beforehand |
| Crc.BurstDetected | src/MiniDB/Storage/WriteAheadLog.cpp:211-230 | two messages that differ only within four consecutive bytes never leave the same register |
| Crc.ChecksumMatchesIffResidue | src/MiniDB/Storage/WriteAheadLog.cpp:345-355 | a stored checksum is right if and only if the register, run over it too, ends at one fixed value |
| Crc.TableStep | src/MiniDB/Storage/WriteAheadLog.cpp:226-228 | one table look-up stands for eight bit steps |
| Crc.BuildTable | src/MiniDB/Storage/WriteAheadLog.cpp:212-222 | the table holds the register after eight steps from each byte |
| Crc.Crc32 | src/MiniDB/Storage/WriteAheadLog.cpp:211-230 | the table-driven loop computes the bit-by-bit checksum of every message |
| Polynomials.DividesWithRemainder | src/MiniDB/Storage/WriteAheadLog.cpp:211-230 | long division over two elements: the dividend is a multiple of the generator plus a remainder of degree below 32 |
| Polynomials.XTo32 | src/MiniDB/Storage/WriteAheadLog.cpp:217 | the generator, by the exponents of x^32 modulo it |
| Polynomials.ShiftIsStep | src/MiniDB/Storage/WriteAheadLog.cpp:216-218 | one step of the register, read from its top as a polynomial, multiplies by x modulo the generator |
| Polynomials.ChecksumIsRemainder | src/MiniDB/Storage/WriteAheadLog.cpp:211-230 | the checksum of every message is the complement of the remainder of its bits, lowest of each byte first, with 32 zeros behind them and the first 32 digits complemented, as IEEE 802.3 has it |
| Polynomials.CheckValue | src/MiniDB/Storage/WriteAheadLog.cpp:211-230 | the checksum of the bytes of "123456789" is 0xCBF43926 |
| Bytes.FieldInjective | src/MiniDB/Storage/WriteAheadLog.cpp:398-412 | a fixed-width field determines its bytes, and they it |
| Bytes.FourDigits | src/MiniDB/Storage/WriteAheadLog.cpp:398-412 | the bytes of a number count ones, 256s and so on |
| Frames.PayloadLengthIsForced | src/MiniDB/Storage/WriteAheadLog.cpp:202-205 | the wrapping length check passes exactly for the payload length that fills the body |
| Frames.FrameOnDisk | include/MiniDB/Storage/WriteAheadLog.h:49-68 | every byte of a frame: where each field lies, that the lowest byte of a number comes first, and what the checksum covers |
| Frames.DecodeEncoded | src/MiniDB/Storage/WriteAheadLog.cpp:315-364 | an encoded frame followed by any bytes decodes to its entry, and under no other index |
| Frames.EncodeDecoded | src/MiniDB/Storage/WriteAheadLog.cpp:315-364 | only encoded frames decode: the accepted bytes are the frame of the entry found |
| Frames.TornFrameRejected | src/MiniDB/Storage/WriteAheadLog.cpp:315-333 | no strict prefix of a frame decodes, under any index |
| Frames.DamagedFrameRejected | src/MiniDB/Storage/WriteAheadLog.cpp:335-355 | a frame damaged anywhere within four consecutive bytes, its length prefix included, no longer decodes |
| Recovery.RecoverIsLongest | src/MiniDB/Storage/WriteAheadLog.cpp:302-370 | for any bytes at all, a log stands at the front of the file if and only if it is a prefix of the recovered one |
| Recovery.RecoverEncoded | src/MiniDB/Storage/WriteAheadLog.cpp:302-384 | a written log is recovered entry for entry |
| Recovery.EncodeInjective | include/MiniDB/Storage/WriteAheadLog.h:49-68 | different logs are different files |
| Recovery.RecoverWithTail | src/MiniDB/Storage/WriteAheadLog.cpp:302-384 | bytes behind a log are ignored if and only if they do not start with a valid next frame |
| Recovery.RecoverInterrupted | src/MiniDB/Storage/WriteAheadLog.cpp:414-421 | an append cut short at any byte is dropped, a complete one kept |
| Recovery.DamagedLog | src/MiniDB/Storage/WriteAheadLog.cpp:302-384 | damage within four consecutive bytes of entry k's frame leaves exactly the entries before it, whatever follows the log |
| Recovery.OneDamagedByte | src/MiniDB/Storage/WriteAheadLog.cpp:302-384 | changing any one byte of entry k's frame leaves exactly the entries before it |
| LogSteps.ExtendedRepresents | src/MiniDB/Storage/WriteAheadLog.cpp:426-430 | after an append, memory and file agree on the log with the entry added |
| LogSteps.PartlyAppendedRepresents | src/MiniDB/Storage/WriteAheadLog.cpp:414-424 | an append that fails on the way leaves the represented log as it was |
| LogSteps.CutHolds | src/MiniDB/Storage/WriteAheadLog.cpp:495-526 | cutting the file at the recorded offset leaves exactly the entries before the index |
| WriteAheadLog.BuildFrame | src/MiniDB/Storage/WriteAheadLog.cpp:398-412 | the buffer filled field by field is the frame of the entry |
| WriteAheadLog.WriteAheadLog.ScanFrame | src/MiniDB/Storage/WriteAheadLog.cpp:303-364 | one round of the scan decodes the bytes at its position, reading nothing out of bounds |
| WriteAheadLog.WriteAheadLog.Open | src/MiniDB/Storage/WriteAheadLog.cpp:277-385 | from any file, open leaves memory and file representing exactly the recovered log, with its last index and term, or reports an error and leaves the file alone; on a reliable file there is no error |
| WriteAheadLog.WriteAheadLog.Append | src/MiniDB/Storage/WriteAheadLog.cpp:390-433 | append adds one entry at the next index, or reports an error with the log in memory unchanged and some prefix of the frame in the file; on a reliable file with room an open log never reports one |
| WriteAheadLog.WriteAheadLog.ReadFrameAt | src/MiniDB/Storage/WriteAheadLog.cpp:438-461 | reading at a recorded offset gives the index, term and payload of the entry appended there |
| WriteAheadLog.WriteAheadLog.EntryAt | src/MiniDB/Storage/WriteAheadLog.cpp:463-467 | every index of the log reads as that index with the term and payload of its entry, unless a read fails, and exactly the others are not found |
| WriteAheadLog.WriteAheadLog.Range | src/MiniDB/Storage/WriteAheadLog.cpp:469-486 | a range reads as the indexes, terms and payloads of exactly its entries in order, or, if a read fails or the range is not in the log, as nothing |
| WriteAheadLog.WriteAheadLog.TruncateFrom | src/MiniDB/Storage/WriteAheadLog.cpp:491-543 | truncation keeps exactly the entries before the index, with the tail's term restored; a failure changes nothing, and a reliable file knows none |
| WriteAheadLog.AppendThenRead | tests/custom/suite/unit/write_ahead_log.cpp:116-132 | what an append acknowledged, a read under the index it returned gives back: that index, the term and the payload |
| WriteAheadLog.AppendThenReopen | tests/custom/suite/unit/write_ahead_log.cpp:93-112 | the same through a new log opened on the file |
| CrashRuns.StepKeepsLog | src/MiniDB/Storage/WriteAheadLog.cpp:277-543 | what each step does to the log, and that every step, failed or crashed, keeps memory and file in agreement |
| CrashRuns.CleanStep | src/MiniDB/Storage/WriteAheadLog.cpp:277-543 | on a clean state every step, crashes and reported failures included, has exactly one outcome on the log, unless it is an append that failed after writing some bytes |
| CrashRuns.CrashSafety | src/MiniDB/Storage/WriteAheadLog.cpp:277-543 | after any run in which no append failed half-way, with crashes and other failures anywhere, the next open recovers exactly the committed entries, and the one in flight if and only if its whole frame was written |
| CrashRuns.NothingIsLost | src/MiniDB/Storage/WriteAheadLog.cpp:277-543 | over any run at all, failures included, entries that no truncation reaches stay on disk unchanged |
| CrashRuns.AcknowledgedEntryStays | src/MiniDB/Storage/WriteAheadLog.cpp:390-433 | once append returned OK every later open finds the entry at its index until a truncation reaches it |
| CrashRuns.ReopenRestoresState | src/MiniDB/Storage/WriteAheadLog.cpp:277-385 | opening a cleanly left file rebuilds the very state memory had, and a second open changes nothing |
| FailedAppends.FailedAppendIsInvisibleIff | src/MiniDB/Storage/WriteAheadLog.cpp:414-424 | an open straight after a failed append ignores it if and only if nothing decodes behind the log; behind a clean log, if and only if its frame was incomplete |
| FailedAppends.CleanIffNoLitter | src/MiniDB/Storage/WriteAheadLog.cpp:277-543 | memory and file agree exactly if and only if no bytes lie behind the log |
| FailedAppends.LitterStep | src/MiniDB/Storage/WriteAheadLog.cpp:277-543 | how every step changes the number of bytes behind the log: a failed append raises it to what it wrote, a successful one lowers it by its frame, an open, a crash or an effective truncation ends it |
| FailedAppends.QuietStep | src/MiniDB/Storage/WriteAheadLog.cpp:277-543 | a step has exactly its outcome on the log, whatever lies behind it, unless it is an open or a crash that lays bare as many bytes as the shortest frame has |
| FailedAppends.LitteredCrashSafety | src/MiniDB/Storage/WriteAheadLog.cpp:277-543 | over any run with failed appends, if no open and no crash meets as many bytes behind the log as the shortest frame has, every event has exactly its outcome, and the number of those bytes is what the events say |
| FailedAppends.LitterIsHarmlessIff | src/MiniDB/Storage/WriteAheadLog.cpp:302-424 | so many bytes behind the log are harmless, whatever the failed payloads were, if and only if they are fewer than the shortest frame has |
| FailedAppends.LitterIsMonotone | src/MiniDB/Storage/WriteAheadLog.cpp:414-424 | the same calls with no more written by any failed append: the same outcomes, no more bytes behind the log, and a run stays quiet |
| FailedAppends.CrashSafetyInWorstCase | src/MiniDB/Storage/WriteAheadLog.cpp:277-543 | from calls, statuses and frame sizes alone: if the run would be quiet with every failed append's frame written in full, every event has exactly its outcome however much was written, and the next open is exact whenever the worst case leaves less than the shortest frame |
| FailedAppends.QuietInWorstCaseIff | src/MiniDB/Storage/WriteAheadLog.cpp:414-424 | a run is quiet for every amount that its failed appends may have written if and only if it is so in the worst case |
| FailedAppends.LaterFramesCover | src/MiniDB/Storage/WriteAheadLog.cpp:390-433 | successful appends cover what lies behind the log byte for byte; an open after them is quiet if and only if the rest is shorter than the shortest frame |
| FailedAppends.WorstOfAppends | src/MiniDB/Storage/WriteAheadLog.cpp:390-433 | successful appends are their own worst case |
| FailedAppends.NextOpenIsExactIff | src/MiniDB/Storage/WriteAheadLog.cpp:302-384 | in every reachable state, the next open finds the log in memory if and only if no valid next frame follows it in the file |
| FailedAppends.StaleTailResurfaces | src/MiniDB/Storage/WriteAheadLog.cpp:414-433 | a run in which the leftover bytes of an append that failed before or after its last byte outlive an acknowledged append and come back as an entry that was never appended |
| Records.Validate | src/MiniDB/Core/Record.cpp:82-123 | the loop over the columns gives the verdict of the first column that objects |
| Records.ValidIff | src/MiniDB/Core/Record.cpp:82-123 | data is valid if and only if each column by itself accepts it |
| Records.OneColumnVerdict | src/MiniDB/Core/Record.cpp:82-123 | the verdict on a column by the kind of value: a missing one is INVALID_SCHEMA unless nullable; STRING accepts exactly strings, BOOL booleans, DOUBLE numbers, INT the integers of at most 2^63 in size, and anything else is INVALID_TYPE |
| Records.FirstObjection | src/MiniDB/Core/Record.cpp:82-123 | the verdict on all columns is that of the first that objects |
| Tables.Located | src/MiniDB/Core/Table.cpp:100-115 | where the index leads for a live id, there is its page, and on it its live slot |
| Tables.InsertedPagesIff | src/MiniDB/Core/Table.cpp:321-351 | an insert keeps page ids distinct and below the counter if and only if a page has room or the 32-bit counter does not wrap |
| Tables.InsertedOk | src/MiniDB/Core/Table.cpp:78-98 | an insert adds one binding, and keeps the table well-formed unless the page counter wraps |
| Tables.UpdatedOk | src/MiniDB/Core/Table.cpp:117-136 | an update keeps the table well-formed and replaces one binding |
| Tables.DeletedOk | src/MiniDB/Core/Table.cpp:138-154 | a delete keeps the table well-formed and removes one binding |
| Tables.CompactedOk | src/MiniDB/Core/Table.cpp:175-184 | compaction keeps the table well-formed and its contents |
| Tables.IndexOfIs | src/MiniDB/Core/Table.cpp:193-208 | a scan of the pages computes the map from live ids to their pages |
| Tables.RebuildChangesNothing | src/MiniDB/Core/Table.cpp:193-208 | rebuilding recomputes the very index that was kept step by step |
| Tables.ExecRefines | src/MiniDB/Core/Table.cpp:78-208 | each operation gives the status and the contents that the same operation on a map gives |
| Tables.WhatOperationsDo | src/MiniDB/Core/Table.cpp:78-208 | the status of every operation, in the order of its checks, and what it does to the contents |
| Tables.StoredKinds | src/MiniDB/Core/Table.cpp:78-136 | in every well-formed table each value in a column has the column's kind, and each required column has its value |
| Tables.TableRefinesMap | src/MiniDB/Core/Table.cpp:78-208 | over every run from the empty table, statuses and contents are those of a map; ids are unique, the index exact, no page overfull, page ids below the counter |
| TableStore.Page.AddRecord | src/MiniDB/Core/Page.cpp:68-80 | a record goes into a new last slot, or the page is full and unchanged |
| TableStore.Page.UpdateRecord | src/MiniDB/Core/Page.cpp:110-119 | the first live slot of the id gets the data, or nothing changes |
| TableStore.Page.DeleteRecord | src/MiniDB/Core/Page.cpp:121-132 | the first live slot of the id is marked deleted and stays taken |
| TableStore.Page.Compact | src/MiniDB/Core/Page.cpp:137-152 | exactly the live slots stay, in order, and the dirty mark goes |
| TableStore.Table.FindPageWithSlot | src/MiniDB/Core/Table.cpp:321-331 | on any table the first page with a free slot, or a new page with the counter's id at the end; a valid table's page index stays exact |
| TableStore.Table.InsertRecord | src/MiniDB/Core/Table.cpp:78-98 | an insert does on the heap what it does on values, on any table; on a valid one it does what the map does, and keeps both indexes, and the table valid unless the page counter wraps |
| TableStore.Table.GetRecord | src/MiniDB/Core/Table.cpp:100-115 | returns the contents' data for a live id, and not found for every other |
| TableStore.Table.UpdateRecord | src/MiniDB/Core/Table.cpp:117-136 | on the heap, an update does what the map does |
| TableStore.Table.DeleteRecord | src/MiniDB/Core/Table.cpp:138-154 | on the heap, a delete does what the map does |
| TableStore.Table.CompactPages | src/MiniDB/Core/Table.cpp:175-184 | every page keeps its live slots only; the contents stay |
| TableStore.Table.Reindex | src/MiniDB/Core/Table.cpp:193-208 | clearing and refilling both indexes leaves the table as it was |
| Layouts.DeletesAreCounted | src/MiniDB/Core/Table.cpp:309-316 | after any run from the empty table the count is the number of records plus the successful deletes since the last compaction; it is the number of records if and only if there was none |
| Layouts.SlotsTaken | src/MiniDB/Core/Table.cpp:78-208 | a successful insert takes one slot, and no other operation but compaction changes their number |
| Layouts.DeletedSlotIsCounted | src/MiniDB/Core/Table.cpp:309-316 | after one insert and one delete the contents are empty and the count is one |
| Layouts.LimitCutsTheCount | src/MiniDB/Engine/QueryEngine.cpp:50-56 | two records queried with limit one are two matches and a count of one |
| Layouts.LayoutDoesNotShow | src/MiniDB/Engine/QueryEngine.cpp:37-211 | compaction, reindexing, the way through the JSON form and the way through an export change no query's collected records and no aggregate's numbers |
| Queries.ScanIsContents | src/MiniDB/Engine/QueryEngine.cpp:42-48 | a scan meets every binding of the contents once, valid, and nothing else |
| Queries.MatchesIff | src/MiniDB/Engine/QueryEngine.cpp:219-308 | which values each of the six operators admits: numbers in the order of the reals, strings in theirs, booleans by equality only, and never two of different kinds or a missing one |
| Queries.StringLessIff | src/MiniDB/Engine/QueryEngine.cpp:256-273 | strings are ordered by their first difference, a proper prefix first |
| Queries.FilteredIff | src/MiniDB/Engine/QueryEngine.cpp:42-48 | a filter keeps exactly the records that every predicate admits |
| Queries.FilterTwice | src/MiniDB/Engine/QueryEngine.cpp:230-240 | filtering by a conjunction is filtering by its parts one after the other |
| Queries.SortedNumbersIff | src/MiniDB/Engine/QueryEngine.cpp:242-253 | on numbers, sorted ascending means never falling and descending never rising |
| Queries.SortedStringsIff | src/MiniDB/Engine/QueryEngine.cpp:242-253 | the same on strings |
| Queries.AnswerOnNumbers | src/MiniDB/Engine/QueryEngine.cpp:37-62 | what select answers to a comparison with a number: only records whose number compares so, all of them without a limit, and in the order of the numbers if sorted by them |
| Queries.NumbersSnoc | src/MiniDB/Engine/QueryEngine.cpp:104-125 | the numbers an aggregate sees: of each record that has a number in the field, that number, in order |
| Queries.CountIsCompleteIff | src/MiniDB/Engine/QueryEngine.cpp:50-56 | the number of collected records is that of all matches if and only if the limit cuts none off |
| Queries.LawfulIff | src/MiniDB/Engine/QueryEngine.cpp:242-308 | the comparison is a strict weak order on a list of values if and only if values in order never meet one of another kind |
| Queries.RequiredColumnSortsLawfully | src/MiniDB/Engine/QueryEngine.cpp:242-253 | in every well-formed table, sorting any query's matches on a required column is lawful, because every record was validated |
| Queries.MissingValueBreaksSorting | src/MiniDB/Engine/QueryEngine.cpp:242-253 | one missing value between two ordered ones breaks the order a sort relies on |
| Queries.AggregatesAgree | src/MiniDB/Engine/QueryEngine.cpp:104-211 | minimum times count <= sum <= maximum times count, and the average lies between the extremes |
| QueryEngine.EvaluateAll | src/MiniDB/Engine/QueryEngine.cpp:230-240 | true if and only if every predicate holds |
| QueryEngine.Collect | src/MiniDB/Engine/QueryEngine.cpp:42-58 | the nested loops with early exit collect the first `limit` matches in scan order |
| QueryEngine.SortResults | src/MiniDB/Engine/QueryEngine.cpp:242-253 | for a lawful order, a sorted permutation |
| QueryEngine.Select | src/MiniDB/Engine/QueryEngine.cpp:37-62 | a permutation of the first `limit` matches, or of all without a limit, sorted if asked; the count is the lesser of the limit and the number of matches |
| QueryEngine.SelectByID | src/MiniDB/Engine/QueryEngine.cpp:68-86 | the one record with this id, or not found |
| QueryEngine.Count | src/MiniDB/Engine/QueryEngine.cpp:88-102 | the number of matches of the scan |
| QueryEngine.SumOf | src/MiniDB/Engine/QueryEngine.cpp:104-125 | the sum of the numeric values of the matches |
| QueryEngine.Avg | src/MiniDB/Engine/QueryEngine.cpp:127-151 | their sum over their number, zero if there are none |
| QueryEngine.Max | src/MiniDB/Engine/QueryEngine.cpp:153-181 | the greatest of them, zero if there are none |
| QueryEngine.Min | src/MiniDB/Engine/QueryEngine.cpp:183-211 | the least of them, zero if there are none |
| Pagination.SortedIsUnique | src/MiniDB/Engine/QueryEngine.cpp:242-253 | a list in strict order is the only sorted arrangement of its records |
| Pagination.PagesCoverIff | examples/suite/patterns/pagination.cpp:51-83 | for any page size and keys of any kind: repeated pages visit every record exactly once if and only if, in scan order cut into blocks of that size, every key of a block lies below every key of the later blocks |
| Pagination.PagesInOrder | examples/suite/patterns/pagination.cpp:51-83 | on keys that ascend in scan order, pages of any size deliver the scan in order |
| Pagination.VisitPages | examples/suite/patterns/pagination.cpp:51-83 | the loop of queries ends on any lawful keys, and its pages are such a visit |
| Slots.WriteSlot | include/MiniDB/Common/FileIO.h:163-213 | the slot gets its image; a payload too large changes nothing; a failure, one to open the file included, is an I/O error and leaves a prefix of the image |
| Slots.ReadSlot | include/MiniDB/Common/FileIO.h:231-278 | through short reads and a short file, what the slot's bytes mean, with its three error statuses; a file that cannot be opened reads as not found, one that cannot be read as an I/O error, and on a reliable file neither happens |
| Slots.SlotOnDisk | include/MiniDB/Common/FileIO.h:163-213 | every byte of the file after a write: slot k starts at k times the slot size, with the length, the payload and zeros; nothing else changes but a gap that fills with zeros |
| Slots.SlotReads | include/MiniDB/Common/FileIO.h:231-278 | the status and payload that a read gives, told from the file's bytes |
| Slots.OtherSlotKeeps | include/MiniDB/Common/FileIO.h:188-201 | a write, completed or cut short at any byte, leaves every other slot holding what it held |
| Slots.SlotFileRefinesMap | include/MiniDB/Common/FileIO.h:163-278 | after any sequence of writes from the empty file, failed ones included, every slot whose last write did not fail reads as its last payload, and all others, gaps and slots past the end included, as not found |
| JsonForms.IdRoundTripIff | src/MiniDB/Core/Record.cpp:128-144 | an id comes back from its form if and only if it is below 2^31 |
| JsonForms.CastToInt | src/MiniDB/Core/Record.cpp:130 | an id's form is the number of 32 bits with a sign that is congruent to it |
| JsonForms.CastToUnsigned | src/MiniDB/Core/Record.cpp:140 | the cast back cuts a fraction off towards zero, and is defined exactly where the result has room |
| JsonForms.PageForm | src/MiniDB/Core/Page.cpp:157-169 | the members of a page's form, with the forms of its live records in order |
| JsonForms.ColumnForm | src/MiniDB/Core/Table.cpp:218-226 | the members of a column's form, with the types numbered 0 to 3 |
| JsonForms.SixtyFourRecords | src/MiniDB/Core/Page.cpp:178-189 | a page's form has room for 64 records, and one more is OUT_OF_MEMORY |
| JsonForms.PageRoundTrip | src/MiniDB/Core/Page.cpp:157-194 | a page comes back from its form as its live records in order |
| JsonForms.TableRoundTrip | src/MiniDB/Core/Table.cpp:213-271 | a table comes back with name, id, schema, contents, index and scan order, and a page counter above every page |
| JsonForms.LoadedTableOkIff | src/MiniDB/Core/Table.cpp:238-271 | a loaded table is well-formed if and only if the form's page ids and record ids are distinct, no page is overfull, the page counter does not wrap, and its live records are valid |
| JsonForms.InvalidRecordLoads | src/MiniDB/Core/Table.cpp:238-271 | a form with a record that its own schema forbids loads into a table that is not well-formed |
| Codecs.LawfulCodecExists | src/MiniDB/Core/Page.cpp:196-212 | what is assumed of the JSON library can be met: there is a codec whose parsing undoes its printing on every value |
| BufferPool.CacheKeyInjective | src/MiniDB/Engine/StorageEngine.cpp:81-83 | different pages have different keys, even when table names contain the separator |
| BufferPool.PathInjective | src/MiniDB/Engine/StorageEngine.cpp:77-79 | different tables have different page files |
| BufferPool.PageOnDisk | src/MiniDB/Engine/StorageEngine.cpp:77-92 | page id of a table is slot id, of 4096 bytes, in the table's own file; a text of more than 4092 bytes is refused and changes nothing |
| BufferPool.SavedReads | src/MiniDB/Engine/StorageEngine.cpp:94-101 | a saved page reads back as exactly the records saved, an unsaved one as not found |
| BufferPool.WrittenPageIsSaved | src/MiniDB/Engine/StorageEngine.cpp:88-92 | a page written in full is saved |
| BufferPool.OtherPageStaysSaved | src/MiniDB/Engine/StorageEngine.cpp:88-92 | writing one page, in whatever way it goes, leaves every other saved page of every table saved |
| PoolRuns.FlushKeepsViews | src/MiniDB/Engine/StorageEngine.cpp:142-156 | a flush, done, cut short or refused, changes what no page reads as, and keeps clean pages equal to the disk |
| PoolRuns.EvictKeepsViews | src/MiniDB/Engine/StorageEngine.cpp:158-167 | an eviction changes what no page reads as, and with status OK the page is out of the cache |
| PoolRuns.FailedFlushKeepsThePage | src/MiniDB/Engine/StorageEngine.cpp:142-167 | a flush or eviction whose write failed leaves the cache exactly as it was |
| PoolRuns.FetchKeepsViews | src/MiniDB/Engine/StorageEngine.cpp:106-127 | a fetch changes what no page reads as, and returns the page that is there, unless a read fails |
| PoolRuns.LostUpdate | src/MiniDB/Core/Page.cpp:137-152 | a page with one new record, compacted and evicted with status OK, is gone |
| PoolRuns.PageExecOnLive | src/MiniDB/Core/Page.cpp:68-152 | what each page operation does to the list of live records, and exactly when it fails |
| PoolRuns.PageOperationsDo | src/MiniDB/Core/Page.cpp:68-152 | which live record each page operation adds, changes or removes, that the 65th slot is refused, and what becomes of the page's mark |
| PoolRuns.StepShows | src/MiniDB/Engine/StorageEngine.cpp:106-167 | each operation of the pool does to what pages read as what it does to a map from page to records |
| PoolRuns.Coherence | src/MiniDB/Engine/StorageEngine.cpp:106-167 | over every run in which no dirty page is forced out, whatever reads and writes failed, every page reads as what was last put into it |
| PoolRuns.FewPages | src/MiniDB/Engine/StorageEngine.cpp:61-62 | with at most 128 pages in play nothing is ever forced out |
| PoolRuns.FetchReturnsWhatWasPut | src/MiniDB/Engine/StorageEngine.cpp:106-167 | from an empty directory with at most 128 pages in play, a fetch that does not fail returns exactly the records last put into the page |
| PoolLedger.StepTracked | src/MiniDB/Engine/StorageEngine.cpp:106-167 | every operation, compaction of dirty pages, any forced-out entry and a fetch of a torn page included, keeps the ledger of stored, durable, marked and torn pages true
| PoolLedger.LedgerTellsAll | src/MiniDB/Engine/StorageEngine.cpp:106-167 | over any run every cached page reads as what was last put into it, every other one as its last successful write; nothing is said only of a page whose last write stopped half-way and that has left the cache since, or was fetched from there
| PoolLedger.ReadsLastPutIff | src/MiniDB/Engine/StorageEngine.cpp:106-167 | after any run from nothing a page reads as what was last put into it if and only if it is cached or its last successful write had that |
| PoolLedger.EvictedViewIff | src/MiniDB/Engine/StorageEngine.cpp:158-167 | an eviction with status OK keeps what the page reads as if and only if the page was marked dirty or its last successful write had it |
| PoolLedger.ForcedOutViewIff | src/MiniDB/Engine/StorageEngine.cpp:121-136 | a fetch or an adoption in a full cache keeps what the forced-out page reads as if and only if its last successful write had it; no other page reads differently |
| PoolLedger.CompactThenEvictIff | src/MiniDB/Core/Page.cpp:137-152 | compacting and evicting a page returns OK and writes nothing; the page reads as before if and only if its last successful write had what is in it |
| PoolLedger.OnePageTooMany | src/MiniDB/Engine/StorageEngine.cpp:133-136 | after 129 adoptions of dirty pages, all with status OK, the first page's record is gone |
| StorageEngines.StorageEngine.WritePage | src/MiniDB/Engine/StorageEngine.cpp:88-92 | writes the page's text to its slot, with the status of that write; on reliable files it is done |
| StorageEngines.StorageEngine.ReadPageFromDisk | src/MiniDB/Engine/StorageEngine.cpp:94-101 | reads what the page's slot means; a file system that fails gives not found or an I/O error, and a reliable one never fails |
| StorageEngines.StorageEngine.FetchPage | src/MiniDB/Engine/StorageEngine.cpp:106-127 | takes the pool's fetch step, for some outcome of the read, on reliable files a good one, and some entry forced out; a page returned is cached, clean if it was read |
| StorageEngines.StorageEngine.CachePage | src/MiniDB/Engine/StorageEngine.cpp:133-136 | takes the pool's adoption step; the page is then cached with its mark |
| StorageEngines.StorageEngine.ChangePage | src/MiniDB/Core/Page.cpp:68-152 | through the methods of the page, the live records of the cached page change as a list does, or stay if the status is not OK; no other page reads differently |
| StorageEngines.StorageEngine.IsCached | src/MiniDB/Engine/StorageEngine.cpp:138-140 | true if and only if a flush finds the page; then a fetch returns it without reading or forcing anything out, and otherwise an eviction does nothing |
| StorageEngines.StorageEngine.FlushPage | src/MiniDB/Engine/StorageEngine.cpp:142-156 | takes the pool's flush step, for some outcome of the write, on reliable files a good one; not found exactly if not cached, and with status OK the mark is gone |
| StorageEngines.StorageEngine.EvictPage | src/MiniDB/Engine/StorageEngine.cpp:158-167 | takes the pool's eviction step, for some outcome of the write, on reliable files a good one; OK if not cached, and with status OK the entry is gone |
| Catalogues.CatalogueStep | src/MiniDB/Core/Database.cpp:78-114 | creation and removal keep names and ids distinct and do what they do to a map |
| Catalogues.CatalogueStatuses | src/MiniDB/Core/Database.cpp:78-114 | the status of every operation from the names that are there; the 257th table is refused |
| Catalogues.CatalogueChanges | src/MiniDB/Core/Database.cpp:78-114 | a new table comes last, empty and under the next id; a dropped one leaves the others in order |
| Catalogues.CatalogueRefinesMap | src/MiniDB/Core/Database.cpp:78-137 | over every run, what is found under a name is the table last created under it and not dropped since, with all changes made to it |
| Catalogues.IdsAreNeverReused | src/MiniDB/Core/Database.cpp:275-281 | the ids issued over a run count up one by one, whatever is dropped in between |
| Catalogues.CreatedIdIff | src/MiniDB/Core/Database.cpp:275-281 | creating a table keeps ids below the counter if and only if the 32-bit counter does not wrap |
| Catalogues.NamelessFormFailsTooLate | src/MiniDB/Core/Database.cpp:192-196 | a form without tables and name is one that fails after the old tables are deleted |
| Catalogues.FormStatuses | src/MiniDB/Core/Database.cpp:155-161 | how a form fails as a whole: null, no list of tables, more than 256 of them |
| Catalogues.CatalogueRoundTrip | src/MiniDB/Core/Database.cpp:142-204 | a saved database loads with its name and every table in order with name, id, schema, contents and scan order, its id counter above all; the counter is the old one if and only if the table created last is still there |
| Catalogues.LoadedCatalogueOkIff | src/MiniDB/Core/Database.cpp:155-204 | a loaded database is well-formed if and only if the names and ids in the form are distinct and not too many, and the table counter does not wrap |
| Catalogues.SameTableTwiceLoads | src/MiniDB/Core/Database.cpp:155-204 | a form with the same table twice loads into a database that is not well-formed |
| Databases.Database.GetTable | src/MiniDB/Core/Database.cpp:116-133 | both indexes lead to the one table with this name |
| Databases.Database.CreateTable | src/MiniDB/Core/Database.cpp:78-93 | adds an empty table under the next id and enters it in both indexes, or is refused; the database stays valid unless the table counter wraps |
| Databases.Database.RemoveWithId | src/MiniDB/Core/Database.cpp:101-107 | deletes exactly the table with this id; the others keep their order |
| Databases.Database.DropTable | src/MiniDB/Core/Database.cpp:95-114 | removes the named table from the list and both indexes and deletes it, or is refused |
| Databases.Database.FromJson | src/MiniDB/Core/Database.cpp:155-204 | replaces the whole database by the form's; any failure keeps its fields, and its tables too unless the form's tables all parse and its name is not a string, when every old table is deleted |
| Databases.Database.Load | src/MiniDB/Core/Database.cpp:217-232 | OK if and only if the text parses to a loadable form; otherwise nothing changes, except in that one case |
| Serializers.EntryRoundTripIff | src/MiniDB/Engine/Serializer.cpp:37-62 | an exported record comes back if and only if its id is below 2^31 and it has no field "id" of its own |
| Serializers.EntryIs | src/MiniDB/Engine/Serializer.cpp:51-64 | an entry with a numeric "id" has that id, cut to a whole number, and loses the member; any other has its position for an id |
| Serializers.ImportTakesIds | src/MiniDB/Engine/Serializer.cpp:51-70 | told by the entries alone: they go in under their ids up to the first id that is taken, by the table or by an entry before it, and exactly then the status is DUPLICATE_KEY |
| Serializers.ImportByPosition | src/MiniDB/Engine/Serializer.cpp:51-70 | a list without numeric ids imports into an empty table with its positions for ids |
| Serializers.ImportStopsAtFirstRefusal | src/MiniDB/Engine/Serializer.cpp:51-70 | after an import that does not wrap the page counter the table holds what it held and exactly the entries before the first that it refuses, whose status is returned |
| Serializers.ShortListsFit | src/MiniDB/Engine/Serializer.cpp:51-70 | a list no longer than there are page ids left does not wrap the page counter |
| Serializers.ExportImportRoundTrip | src/MiniDB/Engine/Serializer.cpp:28-71 | an export imported into an empty table gives the same contents in the same order, on ceil(n/64) pages, and exports the same again |
| Serializers.ExportTable | src/MiniDB/Engine/Serializer.cpp:28-43 | the nested loops export the live records in scan order, objects with their ids, and stop at the first value that the JSON library refuses a member |
| Serializers.ImportTable | src/MiniDB/Engine/Serializer.cpp:45-71 | a form that is not an array is a parse error and changes nothing; otherwise entry after entry is inserted until one is refused, even past a wrap of the page counter; a valid table stays valid if no insert wraps it |
| Parallel.CellsApartTasksApart | src/MiniDB/Engine/Concurrency.cpp:45-61 | jobs that work on one heap in different cells do, under every interleaving, what tasks with tables of their own do, and touch nothing else |
| Parallel.OrderDoesNotMatter | src/MiniDB/Engine/Concurrency.cpp:45-61 | under every interleaving on the heap of jobs in different cells, each table and each status ends as its job alone would leave it, and every other cell and every table's name, id and schema as they were |
| Parallel.OthersDoNotMatter | tests/custom/suite/concurrency/error_propagation.cpp:89-113 | a table ends the same whatever becomes of the other tables |
| Parallel.DatabaseJobsApart | src/MiniDB/Core/Database.cpp:78-107 | one job for each table of a valid database: their cells are different |
| Parallel.SharedCellRaces | src/MiniDB/Engine/Concurrency.cpp:45-61 | with two jobs in one cell the order decides what the table ends as |
| Parallel.RunParallel | src/MiniDB/Engine/Concurrency.cpp:45-61 | on the heap, with threads running between and during enqueueing and collecting, every job in a cell of its own ends as it does alone, and the last status that is not OK wins |
| Parallel.FinishIsExecAll | src/MiniDB/Engine/Concurrency.cpp:45-61 | a task alone does its operations in order up to the first that does not return OK, whose status is its result |
| Parallel.ForAllTables | src/MiniDB/Engine/Concurrency.cpp:45-61 | on the tables of a valid database, each ends as its job alone leaves it, and the database stays valid |
| Parallel.RebuildAllIndexes | src/MiniDB/Engine/Concurrency.cpp:89-91 | every index is recomputed from its pages; a database of well-formed tables is left as it was |
| Parallel.LoadJobImports | src/MiniDB/Engine/Concurrency.cpp:79-84 | a load job by itself is an import, or the failure to read or parse its file |
| Parallel.LoadAllTables | src/MiniDB/Engine/Concurrency.cpp:79-84 | every table ends as if loaded alone, the last failure wins, and the database stays valid |

## Left out

- The platform calls behind the log's file and the slot file, file descriptors, `readFile`, and
  the rename inside `writeFileAtomic`: a file is its bytes, and each call may fail.
- Power loss: truncation is not synced by the code, so nothing is claimed about it.
- Short reads by the log: a read returns all the bytes there are, as the original takes it.
- Files above 2^63-1 bytes, and byte orders other than little-endian.
- JSON text: printing and parsing are a codec assumed to be inverse, which `Codecs.LawfulCodecExists`
  shows to be possible; loading a file is reading its text or failing to.
- Containers, arenas, pools and the thread pool: sequences, maps, and arbitrary scheduling. The
  maps are assumed to overwrite on insertion; the cache drops an entry of its own choice when full.
- Rounding and NaN: numbers are exact fractions, and so are the sums and averages of aggregates.
- Pointers to single records, and to pages inside the cache: records are values in their slots,
  and a cached page changes through an explicit operation.
- The table inside the catalogue: a table there is a cell with a value, and `TableStore` models
  its inside separately.
- Exceptions other than a failed read of a JSON kind, and an exception out of a pool task.
- Moving objects, assigning public fields from outside, cache statistics, benchmarks and tooling.
- WriteAheadLog.Append: does not model a payload whose length modulo 2^32 exceeds 2^32 - 25, where
  the original's frame buffer is too small for what is copied into it.
- QueryEngine.Select: asks for a lawful order when it sorts, as the library sort does;
  `Queries.LawfulIff` says which orders those are.
- QueryEngine.SortResults: the library's sort is modelled by its contract, and insertion stands in
  for its algorithm.
- Tables.TableRefinesMap: holds for runs too short to wrap the 32-bit page counter;
  `Tables.InsertedPagesIff` says what the wrap breaks.
- TableStore.Table.InsertRecord: promises a valid table only while the 32-bit page counter does not wrap.
- Catalogues.CatalogueRefinesMap: holds for runs too short to wrap the 32-bit table counter;
  `Catalogues.CreatedIdIff` says what the wrap breaks.
- Databases.Database.CreateTable: promises a valid database only while the 32-bit table counter does
  not wrap.
- Databases.Database.FromJson: promises nothing about a form with a number outside the range of
  the cast applied to it, which is undefined in the original.
- JsonForms.TableRoundTrip: covers loading into a new table only, the one use the database makes.
- Serializers.ExportTable: what assigning a member to a value other than an object gives lies in the
  JSON library, and is a parameter.
- Serializers.ImportTable: asks that every "id" lie in the range of the cast applied to it, which is
  undefined in the original, and promises a valid table only if no insert wraps the page counter.
- StorageEngines.StorageEngine.FetchPage: takes a page form with an undefined cast for no page; pages
  that the engine wrote have no such form.
- PoolLedger.LedgerTellsAll: says nothing about a page whose last write stopped half-way once it has
  left the cache, until it is adopted again; what such a slot parses as must not be another page's id.
- PoolRuns.Coherence: leaves out direct writes of a page that is also cached.
- Parallel.RunParallel: a step of a job is a whole table operation; parallel saving and exporting
  change no table and write to files of their own.
