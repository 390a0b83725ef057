# A verified model of the SQL engine

This project models a small single-table-file SQL engine written in C and proves what its
design promises. `dafny verify dfyconfig.toml` checks everything.

The model is one system in four parts, each built on the one before.

* **Commit protocol and recovery.** `Disk` gives a file as the list of its contents since
  the last synchronisation; a crash keeps, byte by byte and independently, some of them, so
  lost, reordered and torn writes are all included. `Protocol` is the state machine of
  inserting, opening, recovering and crashing: every system call is one step, every step may
  fail, and a crash may come between any two, also during recovery. Its invariant `Inv` is
  kept by every step (`StepKeeps`). `CrashSafety`, `StaleHandle`, `Atomicity`,
  `BlindOpen`, `StatementRuns` and `Keys` draw the consequences for whole runs. `Storage` has the C
  functions themselves, as methods on a `Volume` and a `Table`; a ghost log ties every call
  they make to a step of the machine, so the theorems about runs are theorems about them.
* **Hash index.** `HashIndex` (the hash is a permutation), `ChainedIndex` (linked nodes under
  an array of heads, refining a finite map), `IndexFile` (its persisted form) and
  `IndexStore` (persist, load, rebuild, validate).
* **Executor.** `Query` says which queries are valid and what their answers mean. `Executor`
  has SELECT and INSERT over a volume whose index file holds any bytes at all. `Execute` and
  `Crash` are its operations; both keep `Sound`, so what they promise holds along every run.
* **SQL front end.** `Tokenizer` and `Lexemes` (what a text's tokens are, and where it cannot
  be read), `Parser` and `Refusals` (grammar exactness and the reason of every refusal, against
  a machine that reads one token at a time), `SqlText` (printing and reading back) and `Cli`,
  where a line of text becomes an answer.

The result on top is `Cli.HandleSqlInput` with `Executor.Execute` and `Executor.Crash`. From a
settled table, through any statements, errors, crashes and index files:

* a SELECT that succeeds, and whose open could test for a journal, answers exactly from the
  rows the table shows, which have distinct ids, include every acknowledged row in its place,
  and hold nothing that was not there from the start or given to an INSERT of the run
  (`Executor.Answered`); the answer shows exactly the rows that qualify, in their order, with
  the columns that were asked for (`Query.Answers`); if the test failed there may be a journal, and then it answers from
  the rows the header counts (`Executor.AsTheHeaderCounts`);
* an INSERT has an `Executor.Outcome`: the rows its writable open found, at a moment before it
  inserted anything, decide whether its id is new or a duplicate; acknowledged means that the
  table now shows these rows and the new one; refused as a duplicate means that it shows the
  same rows as before; no other insert is begun; and if no call fails during the statement,
  whatever failed before it, each of these statuses is returned exactly when it applies, and
  the index file is exact afterwards, unless it held a wrong index that looked right
  (`Executor.ExecuteAfterFailures`);
* a crash may come at any moment of a statement, but not before what the user has been told,
  and keeps everything acknowledged by then. What is shown after an INSERT was cut off is the
  rows it found, these and the new one, or all but one last row that was never acknowledged.

Files and classes follow the C files. While `Volume.reliable` is true no system call fails;
while it is false each may, at any time. It is a field that may be set between statements, so
what is promised of a statement in which nothing fails holds after any failures in earlier
ones. `Index.ample` says the same of memory and of reading the index file, for an index that
lives no longer than its statement. `Volume.reported` marks where in the history the last
statement began.

## What the proofs found

* **A handle that outlives a failed insert.** If the last call of an insert, the directory
  synchronisation after removing the journal, fails, the header already counts one row more
  than the handle. Using that handle for another insert is safe except when the handle's
  count ends in the byte 255: then recovery's header write carries out of the lowest byte,
  and a crash that tears it can leave a count 256 too small, losing rows that were
  acknowledged. `Protocol.Hazard` is a test a caller could make;
  `StaleHandle.SafeExactlyWithoutHazard` proves it exact, for every handle a run can produce,
  and `StaleHandle.HazardIsReachable` gives the run that leads to it. The theorems about
  whole runs carry the condition `Careful`, no insert on a hazardous handle. The executor
  opens the table for every statement, so its runs always meet it
  (`StaleHandle.FreshHandlesAreCareful`).
* **A row that is shown and taken back.** An insert whose last call fails returns an error
  with its journal gone, but not durably so. The next open, and a read-only open, show its row.
  If another insert begins and the power fails, the first journal can come back, and its
  recovery takes the row away again. `Atomicity.RowTakenBack` is that run; all its handles are
  fresh from an open, so opening the table for every insert does not rule it out. `Atomicity.AtomicExactlyIfJournalsAgree`
  proves when it cannot happen: from a fresh handle, later opens show the old rows or the old
  rows and the new one if and only if every journal a crash can still bring back asks for the
  handle's own count. `Atomicity.AtomicOnceSettled` shows that this is so after any successful
  directory synchronisation without a journal, an acknowledged insert and a completed recovery
  among them, until the next insert. Without the condition `Atomicity.LaterViewsInRuns` states
  what holds: one last row may be missing, and only a row no insert had acknowledged.
* **A journal that is overlooked.** A read-only open takes any failure of its test for the
  journal for an answer of no (src/storage.c:672). `BlindOpen.TornCountHidesRows` is the run
  where that matters: power fails while the header of a count that carries is being written,
  every byte but the lowest of the count is still the old one, and an open that overlooks the
  journal shows 255 rows fewer; `BlindOpen.AcknowledgedRowsHidden` reaches it from any settled
  table whose count ends in 255, and there these rows are acknowledged. `BlindOpen.BlindRightExactly`
  proves when it cannot happen: after an insert begins on a fresh handle, an open that does not
  see the journal shows the old rows or the old rows and the new one if and only if no journal
  disagrees with the handle, and its count does not end in the byte 255 or there is no room for
  the row. What SELECT, loading and rebuilding promise about the journal carries `tested`: the
  test could be made, as it always can while `reliable` holds.
* **A failed read can be called corruption.** A read error on the journal, on the table's
  header or in the index file is reported as TABLE_CORRUPT or INDEX_CORRUPT
  (src/storage.c:426-429, src/storage.c:492-500, src/index.c:323-330). The model keeps this;
  that nothing is ever reported as corrupt is proved of every statement in which no call fails.
* **An entry count is all that ties an index to its table.** `IndexFile.ConfirmedIndexIsExact`
  shows why that is enough for the executor: if every entry also points at a row with its key,
  the index is complete and the ids are unique. So the one-entry index an INSERT saves after a
  failed load is exact, or the next load refuses it (`Executor.KeepIndex`).
* **Unfinished is not always extendable.** A list that ends in a comma behind the tenth column is
  reported as unfinished, although no statement goes on from there; every other unfinished list
  is the beginning of one (`Refusals.ReadableExact`).
* The list of statement forms in the repository's README shows one column together with WHERE;
  the parser accepts several. The model follows the parser.

## Model

| member | source | states |
|---|---|---|
| Bytes.CheckedMul | src/util.c:35-44 | the division test refuses exactly the products above 2^64-1 |
| Bytes.CheckedAdd | src/util.c:46-55 | the subtraction test refuses exactly the sums above 2^64-1 |
| Bytes.GetPut | src/util.c:242-258 | a number that fits n bytes comes back from its little-endian bytes |
| Bytes.PutGet | src/util.c:268-291 | n bytes come back from the number they hold, which fits n bytes |
| Bytes.PutLeByte | src/util.c:242-258 | byte i of a field is the number divided by 256^i, modulo 256, so the lowest comes first |
| Bytes.FourBytes | src/util.c:242-247 | the four bytes of a 32-bit field, spelled out |
| Bytes.FieldsRoundTrip | src/util.c:242-309 | four-byte and eight-byte fields invert each other in both directions |
| Bytes.UpToNulOfPadded | src/storage.c:435-437 | a name without NUL, padded with zeros, reads back as itself |
| Layout.OffsetForRow | src/storage.c:69-102 | the checked computation gives the true offset, and fails exactly when it exceeds 2^64-1 |
| Layout.NextRowStarts | src/storage.c:65-102 | in plain numbers: the first row is at 64, and the next 36 bytes on if it still ends in the same page of 4096 bytes, else where the next page begins |
| Layout.OnlyLayout | src/storage.c:65-102 | no other layout has these steps |
| Layout.RowForOffsetExact | src/storage.c:104-139 | an offset has a row number exactly when it is some row's offset, and then that row |
| Layout.RowOfOffsetOfRow | src/storage.c:69-139 | row to offset to row is the identity wherever the first succeeds |
| Layout.OffsetsIncrease | src/storage.c:69-102 | offsets strictly increase with the row number, and slots do not overlap |
| Layout.SlotStaysInPage | src/storage.c:76-99 | a slot lies inside one page, past the header and before the page's padding |
| Layout.LogicalSize | src/storage.c:312-325 | the size a row count needs, failing exactly when it exceeds 2^64-1 |
| Layout.SizeBeforeNextRow | src/storage.c:312-325 | the old rows end at or before the next row's slot, so its size cannot overflow when that slot's offset exists |
| Layout.IsValidRowOffset | src/storage.c:141-162 | true exactly for the offsets of counted rows that lie wholly in the file |
| Journal.JournalChecksum | src/storage.c:296-310 | the loop computes FNV-1a over the journal with its checksum field read as zero |
| Journal.FnvStepInjective | src/storage.c:303-307 | one step is injective in the hash and in the byte modulo 2^32 |
| Journal.SingleByteChangeDetected | src/storage.c:296-310 | two journals that differ in exactly one byte never both pass the checksum test |
| Journal.ChecksumVectors | src/storage.c:296-310 | the published FNV-1a values of the empty string and of "a" |
| Journal.FieldsApart | src/storage.c:336-350 | the journal's fields do not overlap: each is in its own range of bytes |
| Journal.PreambleBytes | src/storage.c:341-344 | the first sixteen bytes of every journal, spelled out |
| Journal.DecodeEncode | src/storage.c:327-350 | a journal built for a table passes every check of recovery for it and gives back counts, offset, name and row |
| Journal.DecodeExact | src/storage.c:425-461 | the checks of recovery accept exactly the journals laid out like the ones that are built, for this table, with a size and next offset that exist |
| Journal.PutLeAt | src/storage.c:266-278 | the loop replaces exactly its n bytes of the buffer, by the number's little-endian form |
| Journal.GetLeAt | src/storage.c:280-294 | the loop computes the little-endian value of its n bytes |
| Journal.BuildJournal | src/storage.c:336-350 | the buffer filled in place is the encoded journal, every byte of it |
| Journal.DecodeJournal | src/storage.c:429-461 | the checks on the buffer accept what the decoding function accepts |
| Disk.TornWritesAreCrashImages | src/storage.c:763-778 | a crash may leave any subset of the writes since the last synchronisation, each torn anywhere |
| Disk.ReadBackHeader | src/storage.c:238-264 | a written header is accepted with its count, if the file is long enough for it |
| Disk.HeaderExact | src/storage.c:472-531 | the checks accept exactly the header that is written for the count, in a file that holds all its rows |
| Disk.HeaderBytes | src/storage.c:238-264 | the header of every table, spelled out |
| Disk.HeaderRefused | src/storage.c:472-531 | and why a header is refused: a file too long, no table of this kind, or a reserved field or row count that is wrong |
| Disk.CrashMixesHeaders | src/storage.c:238-264 | the headers of two neighbouring counts can be torn into nothing but one of the two, unless their counts carry |
| Disk.CarriedHeader | src/storage.c:238-264 | with a carry, one byte of the larger count over the smaller shows a count 256 below the larger |
| Disk.TornBetween | src/storage.c:238-264 | so a crash can tear the headers of such counts into that of neither |
| Disk.CrashKeepsRows | src/storage.c:763-792 | rows that every content since the last synchronisation holds survive any crash |
| Disk.PatchRowKeeps | src/storage.c:763-778 | writing a row, wholly or in part, leaves the earlier rows alone |
| Disk.ResizeKeeps | src/storage.c:463-464 | truncation to the logical size keeps every row it counts |
| Protocol.StepKeeps | src/storage.c:724-793 | every step of insert, recovery, open, close and crash keeps the invariant, gives up no guaranteed row and adds none but the one being inserted |
| Protocol.CrashKeeps | src/storage.c:724-793 | a crash at any step, with any surviving bytes and directory entry, keeps the invariant |
| Protocol.OpenKeeps | src/storage.c:665-683 | a writable open starts recovery or counts what the header counts, and keeps the invariant |
| Protocol.RestoreKeeps | src/storage.c:460-462 | rewriting the header during recovery keeps the invariant, torn or not |
| CrashSafety.NewTableIsInitial | src/storage.c:533-602 | a table as it is created is a state a run may start from, with no rows |
| CrashSafety.RunKeeps | src/storage.c:394-470 | over whole runs the invariant holds, guaranteed rows stay, and rows come only from the start or from inserts |
| CrashSafety.AcknowledgedRowsStay | src/storage.c:786-792 | durability: a row whose insert returned TABLE_OK is in every later view at its number with its bytes |
| CrashSafety.AcknowledgementsAreFinal | src/storage.c:786-792 | an acknowledged row number keeps its slot for the rest of the run |
| CrashSafety.NothingLooksCorrupt | src/storage.c:425-461 | no run leaves a journal or header that would be refused; a read-only open is refused exactly while recovery is due |
| CrashSafety.NoInventedRows | src/storage.c:724-793 | no view shows a row that was neither there at the start nor handed to an insert |
| CrashSafety.RecoveryCompletes | src/storage.c:460-469 | if its calls succeed, recovery ends with a handle on a settled table whose file ends with its rows |
| CrashSafety.ReopeningSucceeds | src/storage.c:604-688 | from wherever a run stops, a writable open whose calls succeed gives a handle on the header's own count; after a recovery nothing is left behind the rows |
| Atomicity.LaterViews | src/storage.c:724-793 | after an insert begins on any handle that is not hazardous, every later view is the guaranteed rows, these and the one row in doubt, or the handle's rows and the new one |
| Atomicity.LaterViewsOfFresh | src/storage.c:676-683 | on a handle fresh from an open these are the guaranteed rows, the handle's rows, or those and the new one |
| Atomicity.LaterViewsInRuns | src/storage.c:394-470 | over whole runs, later views of a fresh handle's insert are its rows, these and the new one, or its rows less one that was never acknowledged |
| Atomicity.OneInsertIsAtomic | src/storage.c:724-793 | if no journal disagrees with a fresh handle, every later view is the old rows or these and the new one, the latter once it was acknowledged |
| Atomicity.AtomicExactlyIfJournalsAgree | src/storage.c:786-788 | and it is so if and only if no journal that a crash can bring back disagrees with the handle's count |
| Atomicity.AtomicExactlyInRuns | src/storage.c:724-793 | the same on every fresh handle of every careful run |
| Atomicity.AtomicOnceSettled | src/storage.c:786-792 | after an acknowledged insert, a completed recovery or a directory synchronisation without a journal, the next insert is atomic |
| Atomicity.OldJournalReturns | src/storage.c:425-469 | a disagreeing journal comes back in a crash, and its recovery takes the handle's last row away |
| Atomicity.RowTakenBack | src/storage.c:786-788 | from any settled table, two inserts and a failing call lead to a row that opens show and later ones do not |
| BlindOpen.TwoHeadersStep | src/storage.c:724-793 | without a carry no event of an insert, of its recoveries and its crashes puts any header on the disk but those of the old and the new count, and the new one only once the row is there |
| BlindOpen.BlindIsRight | src/storage.c:672-683 | after an insert whose count does not carry, an open that overlooks the journal shows the old rows or those and the new one |
| BlindOpen.TornCountHidesRows | src/storage.c:672-683 | from any fresh handle whose count ends in 255, a run after which an open that overlooks the journal shows 255 rows fewer |
| BlindOpen.AcknowledgedRowsHidden | src/storage.c:672-683 | from any settled table whose count ends in 255, such a run with fresh handles only, and the rows that are not shown are acknowledged |
| BlindOpen.BlindRightExactly | src/storage.c:672-683 | overlooking the journal is harmless exactly if no journal disagrees with the handle and its count does not carry, or there is no room for the row |
| BlindOpen.BlindRightInRuns | src/storage.c:672-683 | the same on every fresh handle of every careful run |
| StatementRuns.AfterInsert | src/storage.c:724-793 | what the table shows after an insert, whatever followed it in the history, and that an acknowledged row is shown |
| StatementRuns.StillAcknowledged | src/storage.c:786-792 | what was acknowledged at one moment of a history still is at every later one |
| StatementRuns.LastInsertOf | src/storage.c:724-793 | at every point of a history, what is shown follows from the handle and the row of the last insert begun |
| StaleHandle.SafeExactlyWithoutHazard | src/storage.c:724-793 | an insert can cost no guaranteed row if and only if its handle is not the hazardous kind |
| StaleHandle.HazardLosesRows | src/storage.c:460-462 | on a hazardous handle there is a run that loses acknowledged rows |
| StaleHandle.HazardIsReachable | src/storage.c:784-788 | from any settled table whose count ends in 255, one failing call leaves a hazardous handle |
| StaleHandle.InsertCompletes | src/storage.c:724-793 | an insert whose calls all succeed is acknowledged and appends its row |
| StaleHandle.FreshHandleIsSafe | src/storage.c:676-683 | a handle that counts what the header counts is never hazardous |
| StaleHandle.FreshHandlesAreCareful | src/executor.c:227-249 | opening the table for every insert makes a run careful |
| Keys.DeserializeSerialize | src/storage.c:164-186 | a row whose name is a C string comes back from its slot |
| Keys.SlotLayout | src/storage.c:164-173 | each byte of a slot: the id in two's complement, lowest byte first, then the name |
| Keys.SerializeDeserialize | src/storage.c:164-185 | any slot comes back from its row, but for the last byte, which is forced to NUL |
| Keys.IdsStayUnique | src/executor.c:251-308 | looking an id up before inserting it, on a fresh handle, keeps ids distinct through every run of errors and crashes |
| Storage.Volume.RecoverInsertJournal | src/storage.c:394-470 | recovery is a run of the machine; on success no journal is left, and the table file is the old one with the header of the count the journal asks for and nothing behind its rows |
| Storage.Volume.Rollback | src/storage.c:460-469 | header, then truncation, then removal, each synchronised: what the table file holds afterwards, byte by byte |
| Storage.Volume.RestoreHeader | src/storage.c:460-462 | the old header is written and synchronised, or recovery ends with an error and the table closed |
| Storage.Volume.CutBack | src/storage.c:463-465 | on success the table file ends with its last row, durably |
| Storage.Volume.RemoveUndoneJournal | src/storage.c:466-469 | only then is the journal removed, durably, and the table open |
| Storage.Volume.OpenWritable | src/storage.c:604-688 | recovery first, then a handle on the header's count; over a journal, that is the count the journal asks for, in a file that ends with its rows; corruption is reported only for an unacceptable journal or header, or a failed read |
| Storage.Volume.OpenReadOnly | src/storage.c:672-683 | changes nothing, refuses while a journal is there if the test for it could be made, and otherwise counts what the header counts |
| Storage.Volume.ReplaceIndexFile | src/index.c:234-309 | the index file is the old or the new one, and the table and its journal are as before |
| Storage.Volume.PowerLoss | src/storage.c:724-793 | power may fail after any step of any operation; what is left is a state of the machine |
| Storage.Table.PersistInsertJournal | src/storage.c:327-392 | on success the journal of exactly this insert is durable, and no other entry; on failure the insert is over and no temporary file is left |
| Storage.Table.SaveTemp | src/storage.c:338-376 | on success exactly the journal's bytes are synchronised under a temporary name |
| Storage.Table.WriteSyncedRow | src/storage.c:756-773 | on success the row is synchronised in its slot; on failure the insert is over |
| Storage.Table.WriteSyncedHeader | src/storage.c:784-785 | on success the new count is synchronised; on failure the insert is over |
| Storage.Table.WriteCommitted | src/storage.c:756-792 | on success the row is in its slot, the new count in the header, nothing else is changed, all of it durable, and the journal gone for good |
| Storage.Table.InsertRow | src/storage.c:724-793 | begins this insert and no other, and returns TABLE_OK exactly when it acknowledges the row at the handle's old count; then the file is the old one with the row in its slot and the new header |
| Storage.Table.RemoveJournal | src/storage.c:786-792 | the commit point: the row is acknowledged exactly if both calls succeed |
| Storage.Table.FileSize | src/storage.c:708-722 | the file's length, failing only if a call does or it exceeds LONG_MAX |
| Storage.Table.ReadRowAtOffset | src/storage.c:795-820 | reads exactly the counted rows that are wholly in the file, each as its slot says |
| Storage.Table.FindId | src/storage.c:862-884 | the first row with the id, or none in the whole table |
| Storage.Table.SelectAllRows | src/storage.c:886-939 | all rows in order |
| Storage.RowScanner.Next | src/storage.c:832-860 | rows come in order with their own offsets, then the end; an accepted table is never corrupt to it |
| Storage.DecodedViews | src/storage.c:832-860 | what the scanner reads is what the crash theorems call the table's rows |
| HashIndex.UnhashHash | src/index.c:25-33 | the hash has an inverse: undoing each xor-shift and multiplication gives the key back |
| HashIndex.HashUnhash | src/index.c:25-33 | every 32-bit value is the hash of a key |
| HashIndex.MaskIsRemainder | src/index.c:131 | masking with a power of two less one is the remainder |
| HashIndex.CollisionsComeFromMasking | src/index.c:151 | distinct keys have distinct hashes, so they share a bucket only through the mask |
| ChainedIndex.BucketCountForEntries | src/index.c:39-55 | the least power of two from 16 up whose load limit admits the entries, or none a size_t can hold |
| ChainedIndex.ThreeQuarters | src/index.c:35-37 | the load limit is three entries to four buckets |
| ChainedIndex.Relink | src/index.c:129-134 | moving a node to the front of its bucket keeps the chains linked, placed and disjoint, and every other node |
| ChainedIndex.MoveChain | src/index.c:127-136 | taking one chain apart moves exactly its nodes |
| ChainedIndex.Index.MoveAll | src/index.c:126-137 | the new buckets hold every node, each in the chain its hash selects |
| ChainedIndex.Index.FindNode | src/index.c:151-160 | the walk along one chain finds the key's node exactly when the whole table has the key |
| ChainedIndex.Index.MakeRoom | src/index.c:162-168 | doubles the buckets exactly at the load limit, so that an entry may be added, or fails with nothing changed |
| ChainedIndex.Index.Resize | src/index.c:113-141 | relinking in place keeps the nodes, their contents and the map; failure changes nothing |
| ChainedIndex.Index.Insert | src/index.c:143-182 | the map gains, replaces or keeps the entry as the status says, and the invariant and load bound stay |
| ChainedIndex.Index.Lookup | src/index.c:184-199 | the map's value, or that there is none |
| ChainedIndex.OneNodePerKey | src/index.c:151-160 | no key occurs twice in the table |
| IndexFile.DecodeEncodeEntries | src/index.c:217-232 | entries with any signed keys and offsets come back in order from their bytes |
| IndexFile.LoadEncodeIndex | src/index.c:201-232 | a file written from distinct entries loads as their map when the table has as many rows |
| IndexFile.LoadRefusesOtherCounts | src/index.c:338-340 | for any other row count that file is refused |
| IndexFile.LoadExact | src/index.c:311-435 | loading accepts exactly the files that spell out entries with distinct keys, one for each row, as the map of those entries |
| IndexFile.LoadRefused | src/index.c:311-435 | and why a file is refused: there is none, it is no index file, or it does not fit the table or itself |
| IndexFile.IndexHeaderBytes | src/index.c:201-215 | the header of every index file, spelled out |
| IndexFile.EntryBytes | src/index.c:217-232 | each byte of an entry: the key and the offset in two's complement, lowest bytes first |
| IndexFile.CountingCompletes | src/index.c:588-613 | as many entries as rows, each pointing at a row with its key, are the exact index, and the ids are unique |
| IndexFile.ConfirmedIndexIsExact | src/index.c:417-435 | an index file that loads for a table and whose entries are all confirmed is the table's exact index |
| IndexFile.RebuiltMap | src/index.c:509-527 | inserting all rows fails exactly on a repeated id, and otherwise gives the exact index |
| IndexFile.ExactIndexUnique | src/index.c:476-538 | a table has only one exact index |
| IndexFile.MapOfEntries | src/index.c:412-435 | entering the file's entries one by one succeeds exactly when their keys are distinct, and gives each key its offset |
| IndexStore.WriteEntries | src/index.c:217-232 | every node is written once, whatever the buckets and chains, and the entries make up the index's map |
| IndexStore.WriteChain | src/index.c:222-229 | one chain's entries, in order, extend the map by exactly its nodes |
| IndexStore.Persist | src/index.c:234-309 | the file is the old one or one that loads back to this index's map |
| IndexStore.CreateSized | src/index.c:57-83 | an empty index large enough for its entries and no larger than needed |
| IndexStore.LoadFile | src/index.c:311-435 | accepts exactly the files the checks admit, as the map of their entries, in an index that never has to grow |
| IndexStore.Load | src/index.c:356-444 | the same through a read-only open of the table, whose row count the file must match; no journal is there if the test for it could be made |
| IndexStore.LoadEntries | src/index.c:412-435 | entry after entry until a key repeats; the buckets are never reallocated |
| IndexStore.InsertRows | src/index.c:509-527 | row after row until an id repeats; otherwise the exact index, never reallocated |
| IndexStore.Rebuild | src/index.c:476-565 | a repeated id is reported exactly when there is one, the old file then left alone; otherwise the exact index is on file; and where no call fails now one of the two is returned |
| IndexStore.LoadOrRebuild | src/index.c:567-586 | a file that loads is left alone and is the index; one that is refused is replaced by the exact index; the index has room for one more entry |
| IndexStore.ValidateLookup | src/index.c:588-613 | an entry is confirmed only by a row of the table with its key at its offset; without I/O errors always by such a row, and a row with another key is told apart |
| IndexStore.OneEntryIsExactOrRefused | src/executor.c:310-342 | an index file holding the newest row alone is the exact index if that is the only row, and is refused by the next load otherwise |
| IndexStore.GrownIsExactOrRefused | src/executor.c:322-342 | an exact index with the newest row's entry added is exact, or is refused by the next load |
| Query.ProjectsEachColumn | src/executor.c:30-56 | a validated column list prints one field for each column, in its order |
| Query.OnlyMatch | src/executor.c:58-77 | with unique ids, a row found by its id is the whole answer to the query for that id |
| Query.SameCStringExact | src/executor.c:73-75 | the comparison with the name is that of C strings: the same characters up to the first NUL |
| Query.AnswerMeans | src/executor.c:30-161 | the answer shows, in the order of the table, exactly the rows that qualify: all without a condition, those with the id or the name otherwise; for the star both columns, else the columns asked for |
| Query.ValidAnswerMeans | src/executor.c:30-161 | so it is for every query that passes validation |
| Query.SemanticExact | src/semantic.c:6-60 | an INSERT is always valid; a SELECT if its columns are id and name, at most ten, and its condition compares a column with a literal of its type |
| Executor.SelectWithIndex | src/executor.c:85-127 | what it prints is the plain scan's answer, for any bytes in the index file; without I/O errors it prints a row that is there unless the file holds a wrong index that looks right |
| Executor.SearchIndex | src/executor.c:96-119 | a row is found only if the table confirms it; without I/O errors it is found whenever it is there and the index file is exact or refused; the file is the old one or exact |
| Executor.SelectWithScan | src/executor.c:129-161 | the loop prints exactly the matching rows, projected, in order |
| Executor.ExecuteSelect | src/executor.c:163-213 | index transparency: the answer of the plain scan whatever the index file holds; which status an open that fails leads to; no journal is there if the test for it could be made |
| Executor.NewRowReadsBack | src/executor.c:291-296 | the row that is built has the id and name that were given, also after storing and reading |
| Executor.NewSlotExact | src/executor.c:291-296 | a row is built for exactly the names of at most 31 characters |
| Executor.FindDuplicate | src/executor.c:259-284 | finds the id exactly when a row has it, for any index |
| Executor.CheckNew | src/executor.c:251-289 | goes on only if no row has the id, stops as a duplicate only if one has; without I/O errors it goes on with an index that fits the table, and is exact if the file was exact or refused |
| Executor.InsertNew | src/executor.c:298-342 | committed exactly if the row is acknowledged and shown; otherwise what a failed insert may leave; without I/O errors and with room EXEC_OK, and the index file is exact if the index was |
| Executor.InsertChecked | src/executor.c:251-342 | after the open: each status says what the rows were, what is acknowledged, and what the table shows now |
| Executor.KeepIndex | src/executor.c:310-342 | the committed row and what the table shows stay as they are; the index file is the old one, is refused by the next load, or is the exact index; without I/O errors it is the exact index if the index was exact before |
| Executor.UpdateIndex | src/executor.c:322-342 | the map gains the row's entry, the file is the old one or holds that map, and the table is left alone; without I/O errors it is EXEC_OK |
| Executor.CommitRow | src/executor.c:298-308 | acknowledged, the table shows the old rows and this one; otherwise it shows what a failed insert may leave; no other insert is begun |
| Executor.ExecuteInsert | src/executor.c:215-351 | the rows its open found decide the status, the status says what the table shows afterwards, and only this row is inserted; which status an open that fails leads to; without I/O errors `Exact` and `Indexed` |
| Executor.SoundRows | src/executor.c:251-308 | along every run the table's ids are distinct and every acknowledged row is in its place |
| Executor.OpenNeverBlames | src/executor.c:232-242 | nothing a run leaves behind makes an open call the table corrupt |
| Executor.Start | src/storage.c:533-602 | an engine on a new table is sound, whatever is where its index file should be |
| Executor.SelectTells | src/executor.c:163-213 | the rows a SELECT answers from are distinct, include the acknowledged ones, and come only from the start or from inserts |
| Executor.OpenFinds | src/executor.c:227-249 | the rows a writable open finds include what was acknowledged, and are what was shown before if that could be read |
| Executor.Crash | src/storage.c:724-793 | a crash at any moment not before what the user was told, with any index file afterwards, leaves the engine sound and keeps what was acknowledged by then; what is shown follows from the last insert begun |
| Executor.Execute | src/executor.c:353-376 | the engine's guarantee for every statement of every run: `Answered` for SELECT if no journal was overlooked, `Outcome` for INSERT, and no corruption if no call fails in it |
| Executor.ExecuteAfterFailures | src/executor.c:353-376 | after any statements with any failures, a statement without failures has exactly the status it should: EXEC_OK for a new id and a name that fits, and then the index file is exact unless it held a wrong index that looked right |
| Tokenizer.KeywordOf | src/tokenizer.c:7-27 | a keyword is recognised exactly when the word equals it in any casing |
| Tokenizer.CopyWhile | src/tokenizer.c:91-98 | copies the longest run of one class of characters, or reports that a token cannot hold it |
| Tokenizer.ScanToken | src/tokenizer.c:61-132 | one round of the loop reads the token the text starts with, or fails as it must |
| Tokenizer.Tokenize | src/tokenizer.c:29-148 | the array receives the text's tokens and the EOF, and is never written past its end |
| Parser.EveryProperPrefixIsUnfinished | src/parser.c:72-77 | every proper prefix of an accepted list is an unexpected end |
| Parser.EveryExtensionIsTrailing | src/parser.c:175-178 | an accepted list with anything more is refused for its trailing tokens |
| Parser.GrammarExact | src/parser.c:79-267 | accepted with a statement exactly when the tokens are that statement's form and within the limits |
| Refusals.ReadableExact | src/parser.c:79-267 | what has not been refused is the beginning of a statement within the limits, or has a comma behind the tenth column |
| Refusals.RefusalExact | src/parser.c:72-267 | a list is refused exactly at the first token that cannot follow, for a reason that this token and the one before it decide |
| Refusals.StatusExact | src/parser.c:72-267 | so every status of the parser is determined by the statement forms |
| Parser.FeedReads | src/parser.c:79-243 | whatever has been read and not refused is the beginning of a statement within the limits |
| Parser.Parser.Advance | src/parser.c:14-50 | the cursor moves one token on, never past the first EOF or the end of the buffer |
| Parser.Parser.MissingTokenStatus | src/parser.c:72-77 | the end of the tokens is told from a wrong token |
| Parser.Parser.TakeName | src/parser.c:131-134 | a name that fits is taken and the cursor moves on; one that does not ends the parse with its own status |
| Parser.Parser.ParseColumns | src/parser.c:105-119 | the comma loop reads all names, at most ten, each within its limit |
| Parser.Parser.ParseSelect | src/parser.c:79-179 | returns the machine's verdict, and the query it read |
| Parser.Parser.ParseInsert | src/parser.c:181-243 | returns the machine's verdict, and the insert it read |
| Parser.ParseTokens | src/parser.c:245-267 | PARSE_OK exactly for the grammar within its limits, with the one statement the tokens spell |
| Lexemes.ClassCodes | src/tokenizer.c:53-128 | white space, digits, words and quoted text by the codes of their characters |
| Lexemes.KeywordExact | src/tokenizer.c:7-27 | a word is looked up as a keyword exactly if it has its letters in any casing |
| Lexemes.FirstTokenExact | src/tokenizer.c:61-128 | a token is read exactly where characters spell it and it ends |
| Lexemes.FirstTokenWrong | src/tokenizer.c:97-131 | and none exactly where a character starts nothing, a string is not closed, or more than 63 characters would be needed |
| Lexemes.LexExact | src/tokenizer.c:44-148 | a text is accepted with these tokens exactly if up to its NUL it consists of lexemes that spell them and white space |
| Lexemes.LexErrorExact | src/tokenizer.c:44-148 | and refused for a reason exactly if reading it comes to a place that is refused for that reason |
| SqlText.PrintedScans | src/tokenizer.c:44-148 | printed items with any spacing are lexemes for tokens that meet them |
| SqlText.LexJoined | src/tokenizer.c:44-148 | printed items with any spacing read back one by one |
| SqlText.RoundTrip | src/parser.c:79-267 | any printing of a statement, any keyword casing, number spelling and spacing, reads back as that statement |
| SqlText.ParseDecimalText | src/util.c:70-89 | every int32 printed in decimal parses to itself |
| Sql.ParseInt32Exact | src/util.c:70-89 | exactly the numerals with white space, a sign or none, and digits are read whose value is an int32, and as that value |
| Sql.DecimalOfOne | src/util.c:70-89 | the value of a digit is its code less that of zero |
| Sql.DecimalJoins | src/util.c:70-89 | each digit counts its power of ten, whatever zeros lead |
| Sql.CharacterCodes | src/tokenizer.c:47-128 | the character classes by code |
| SqlText.PrintReadsBack | src/parser.c:79-267 | every statement that can be written is read back from its printing |
| Cli.ReadStatement | src/cli.c:118-141 | returns a statement exactly if the text consists of lexemes for at most 63 tokens that are its form within the limits; so every way to write one within them reads as itself |
| Cli.ReadsExact | src/cli.c:118-141 | what the tokenizer and the grammar make of a text is what it reads as, lexeme by lexeme |
| Cli.HandleSqlInput | src/cli.c:118-148 | the statement of the line is the one executed, with all that execution guarantees |

## Left out

- Real system calls: `FILE` buffering, `errno`, permissions, symlinks and temporary names are
  abstract steps that succeed or fail. A call other than a write that fails is taken to have
  changed nothing, and a failed write to have written some first part of its bytes.
- The exemption at src/util.c:183-190, which treats EINVAL and ENOTSUP of a directory
  synchronisation as success: the model assumes that a synchronisation that succeeds is durable.
- Concurrent writers and several writable handles, which the repository does not support.
- Creating tables, table names and paths, and files removed by other programs. One volume is
  one existing table, so TABLE_NOT_FOUND does not occur and the table name of a statement is
  not looked at by the executor.
- TABLE_ALLOC_ERROR and the allocation of table handles and row arrays.
- Null-pointer arguments and the statuses that report them.
- Storage.Volume.WriteTable: a write happens in one piece before the crash that tears it. Four
  of the five fault points of src/storage.c:749-780 are instances of failing calls and are not
  named. The fifth, STORAGE_FAULT_DURING_METADATA_UPDATE, writes two zero bytes over the magic,
  which is no first part of a header and not what a failing write leaves; it is not modelled.
- Executor.SelectWithScan: rows that were printed before a read failed are not described.
- Executor.SelectWithIndex: for a table with repeated ids, which no run can produce, only that
  an error implies repeated ids is stated.
- IndexStore.Load: after a read error in the index file only the status is stated.
- Terminal output: a result is a sequence of rows of projected fields. Headers, escapes and the
  32-bit counter of printed rows are not modelled.
- Line reading, the test for SQL input and the meta commands of src/cli.c, and the tables of
  status texts are not modelled.
- `strtoimax` is specified as in section 7.8.2.3 of ISO/IEC 9899:2011: white space, a sign,
  decimal digits, and a range check. Character classes are those of the C locale, and text is
  a sequence of characters without encoding: each stands for the byte with its code.
- Sql.BytesOf: characters above 255 stand for no byte; they are all read as the byte 255.
- The type of a statement left in the AST after a parse error, which no caller reads.
- `size_t` is 64 bits wide and `long` and `off_t` are 64-bit signed.
