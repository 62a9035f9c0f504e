# ShovelerDB: a verified model

ShovelerDB is an embedded SQL engine: sessions read a captured generation and stage
writes, one commit sequencer publishes them, checkpoints write a snapshot file and a
vector overlay feeds a future index worker. This project models that core as the code
does it, together with the lock, cache, text-search and call-delivery test programs
kept under `references/mariadb`, and proves what they promise over every run. Where a
promise does not hold of the code, the project keeps the code, shows a run or an input
on which it fails, and proves exactly when it holds.

Run `dafny verify dfyconfig.toml` with Dafny 4.11.

## What is in it

| files | part of the system |
|---|---|
| `Values`, `Arithmetic`, `Catalog`, `TableRules`, `Rows`, `Transactions`, `Staging` | values, table definitions and what they accept, row stores, one table's staged writes and what their owner sees |
| `Engine`, `EngineInvariant`, `Statements`, `Outcomes`, `Tickets` | sessions, snapshot registry, commit sequencer, checkpoint ticket and overlay as one state machine, its invariant, and the exact effect of every statement, commit and ticket |
| `Snapshots`, `Effects`, `Replay`, `Generations`, `EagerRefinement` | snapshot isolation, what publishing changes, serial replay, the state of every generation, and the refinement of the clone-on-`BEGIN` machine |
| `VectorOverlay`, `VectorWrites`, `VectorLog`, `VectorIndex` | the overlay over whole runs: what a commit stamps and writes, when the overlay is a log of either, and when an index fed from it stays current |
| `Rounds`, `TornCommit`, `FailingRuns` | small runs step by step, a reachable torn commit, and a run for every promise that can fail |
| `Objects`, `DatabaseObject` | the same engine as objects updated in place, proved to take the machine's steps |
| `Codec`, `Checksum`, `Remainder`, `ChecksumValues`, `SnapshotFile`, `SnapshotHeader`, `FileLayout`, `Decoding`, `AtomicWrite`, `Durability`, `SnapshotLimits` | the snapshot file: codec, CRC-32 and the division it stands for, payload, header, the layout byte by byte, what any accepted file gives, atomic replacement, checkpoints over whole runs, and its limits |
| `Literals` | the quoted-token scanner and the string-literal decoder |
| `Locks`, `LockPrograms` | the S/U/X lock test programs, any number of threads |
| `IoCache`, `FtsVlc`, `Apc`, `DocIdTree`, `DocIdArc`, `HexWriter` | chunked cache copies, the document-id code, call delivery, id comparators and the trees filled under them, the bounded hex writer |

## Where the code and its documents disagree

- A commit over several tables is not atomic: when a later table's entry conflicts, the
  earlier ones are already published, the commit is refused and its session can no longer
  be ended (`TornCommit`, `Snapshots.TornSessionNeverEnds`). The engine's invariant, its
  snapshots, the refinement, the overlay and the file are proved over all runs, such
  commits included; each promise they can break comes with the exact condition under
  which it holds and a reachable run on which it fails (`FailingRuns`). Serial replay
  holds throughout a run if and only if none of them publishes anything with an effect
  (`Replay.RunsAreSerializable`).
- `docs/concurrency.md` lets only publishing commits take a sequence number; a write
  statement that matches no row takes one too (`Replay.SequenceAdvancesExactly`).
- The overlay is not a log of vector writes: every commit stamps every committed vector
  cell again, a delta that is still waiting is replaced in place, and nothing removes the
  delta of a deleted row. Over a run it is the log of what commits stamp if and only if no
  commit finds one of its cells still waiting, and the log of what they write if and only
  if moreover every commit touches every row that holds a vector
  (`VectorLog.OverlayLogsExactly`); `FailingRuns.WriteIsReplaced` is a run that loses a
  write and `FailingRuns.DrainedTwice` one that hands a cell out twice. A database opened
  from a file has an empty overlay until its first publishing commit.
- Row ids can be given out again, although the row store alone never does so
  (`src/db/row_store.zig:245-264`): a transaction opened before a row was committed and
  deleted numbers its own insert with the same id (`FailingRuns.RowIdComesBack`).
- A checkpoint ticket is tied to no file: completing it says nothing about what is on disk,
  and writing the file takes no ticket, so tickets do not keep two writers apart
  (`FailingRuns.CompletedWithoutAFile`).
- Rebuilding a table from itself can fail, so some tables cannot be retained, written or
  reopened (`Catalog.RebuildExactly`).
- The writer of the snapshot file has no size bound and the reader has one of 128 MiB, so
  a completed checkpoint can replace a good file by one that cannot be opened
  (`SnapshotLimits.SavedAndLost`).
- A reopened procedure has lost its parameters (`Durability.ReopenExactly`).
- `docs/concurrency.md:18-20` still speaks of eager snapshots; the code uses generation
  handles, and the model follows the code.

## Model

| member | source | states |
|---|---|---|
| Catalog.RebuildExactly | src/db/catalog.zig:198-238 | a built table rebuilds to itself if and only if its index names differ and no NOT NULL column defaults to NULL; otherwise the exact error |
| Catalog.ClashingIndexTable | src/db/catalog.zig:451-469 | two unnamed indexes on one column pass CREATE TABLE and make a table that cannot be rebuilt |
| Catalog.NullDefaultKeyTable | src/db/catalog.zig:225-235 | a primary index over a DEFAULT NULL column makes a table that cannot be rebuilt |
| TableRules.CheckRowExactly | src/db/row_store.zig:179-190 | a row is accepted if and only if it has one value per column, each NULL under a nullable column or of exactly its column's type and dimension; otherwise the exact first error |
| TableRules.CreatedExactly | src/db/catalog.zig:198-238 | CREATE TABLE succeeds if and only if every column, index and default is sound and no index is empty |
| TableRules.RefusedExactly | src/db/catalog.zig:441-469 | otherwise the error of the first unsound column, else index, else default, else of an empty index |
| TableRules.CreatedTable | src/db/catalog.zig:198-238 | every column and index of the result: nullable if and only if declared so and neither key, auto-increment nor named by a primary index |
| TableRules.NamesEqualExactly | src/db/catalog.zig:478-480 | names are equal if and only if they agree letter by letter, ASCII case aside |
| Rows.CloneExactly | src/db/snapshot.zig:27-43 | copying a store row by row reproduces it exactly, next id and order included, if and only if its table can be rebuilt; otherwise the exact error |
| Transactions.InsertKeeps | src/db/transaction.zig:73-83 | staging an insert keeps the transaction well formed: increasing own ids, no id both updated and deleted, valid rows |
| Transactions.UpdateKeeps | src/db/transaction.zig:85-104 | staging an update keeps the transaction well formed and its own ids as they were |
| Transactions.DeleteKeeps | src/db/transaction.zig:106-123 | staging a delete keeps it well formed |
| Staging.UpdateAcceptedExactly | src/db/transaction.zig:85-104 | an update of a row its owner sees is accepted if and only if the row is its own insert or still live and the values fit; otherwise the exact error |
| Staging.UpdateShows | src/db/transaction.zig:85-155 | over every base the owner then sees the same rows in the same order, with the new values in that one, however often it was updated before |
| Staging.DeleteAcceptedExactly | src/db/transaction.zig:106-123 | a delete of a row its owner sees is accepted if and only if the row is its own insert or still live |
| Staging.DeleteShows | src/db/transaction.zig:106-155 | over every base the owner then sees the same rows without that one, updated before or not |
| Staging.InsertShows | src/db/transaction.zig:73-155 | an insert is accepted if and only if its values fit, and then shows as the last row, under the next id, which moves on by one |
| Staging.UpdateRowExactly | src/db/row_store.zig:146-149 | a store refuses an update for an unknown row or when the changed store would not be valid, and changes nothing else |
| Staging.InsertWithIdExactly | src/db/row_store.zig:136-144 | a store refuses an insert for an id in use or values that do not fit; otherwise it appends the row and raises the next id above it if need be |
| Staging.DeleteRowExactly | src/db/row_store.zig:151-155 | a store's delete takes out that row only and keeps the next id |
| Transactions.ScanHasUniqueIds | src/db/transaction.zig:129-155 | the owner's view of a base plus its own writes never shows one id twice |
| Transactions.CommitMeaning | src/db/transaction.zig:157-180 | a commit succeeds if and only if every row it touches is still live, and then keeps every other live row, carries the updates, drops the deletes and appends every insert |
| Staging.PublishedIds | src/db/transaction.zig:157-180 | each published insert keeps its staged id unless a row before it has that id, and then takes the larger of the store's next id and one more than the largest id before it; the next id afterwards is the larger of the old one and one more than the largest published id |
| Staging.NextIsUnique | src/db/transaction.zig:171-174 | there is only one such number |
| Transactions.CommitPublishesWhatItsWriterSaw | src/db/transaction.zig:129-180 | a commit publishes the rows its owner saw over the base it reads, same order and ids, if and only if base and live store look the same through its writes and no surviving row has taken one of its ids |
| Transactions.InsertsKeepIdsExactly | src/db/transaction.zig:171-174 | staged inserts are published under their own ids if and only if none of those ids is taken |
| Transactions.CommitAllocatesFreshIdsExactly | src/db/transaction.zig:171-174 | committed row ids are never reused if and only if no staged id below the live next id is free |
| FailingRuns.RowIdComesBack | src/db/transaction.zig:171-174 | a run in which a committed row is deleted and the next committed row takes its id |
| EngineInvariant.StepKeeps | src/db/executor.zig:1270-1320 | every step keeps the invariant: valid stores, exact reference counts, rows retained for every generation in use, sequence equal to the last assigned one |
| EngineInvariant.RunKeeps | docs/concurrency.md:22-83 | the invariant holds after every run |
| EngineInvariant.CaptureExact | src/db/snapshot.zig:60-72 | capturing a generation copies all stores exactly if and only if every table can be rebuilt |
| EngineInvariant.PublishKeeps | src/db/executor.zig:1293-1295 | publishing entries, complete or cut short, keeps every store valid, never lowers a next id and leaves unreached entries and their stores untouched |
| Statements.InsertedIsSeen | src/db/executor.zig:396-407 | an INSERT has exactly the outcome its values decide, and is the last row of the session's next read of that table, no other read changing |
| Statements.UpdatedIsSeen | src/db/executor.zig:409-435 | an UPDATE of a row the session sees has exactly the stated outcome, and the next read shows the same rows with the new values in it |
| Statements.DeletedIsGone | src/db/executor.zig:437-454 | a DELETE of a row the session sees has exactly the stated outcome, and the next read shows the same rows without it |
| Statements.TouchedIsTheSame | src/db/executor.zig:409-454 | a statement that matches no row changes no read |
| Outcomes.CommitOutcomeExactly | src/db/executor.zig:1281-1310 | the outcome of every COMMIT in every reachable state, in order: no transaction, nothing written, no queue, rows others read that cannot be kept, the first entry that conflicts and why, done |
| Outcomes.RetentionExactly | src/db/executor.zig:715-733 | the current generation must be kept if and only if another active session reads it and it is not kept yet; then the limit and the tables decide, with the exact error |
| Outcomes.RefusedEarly | src/db/executor.zig:1270-1320 | the other refusals, each with its error and without any change |
| Outcomes.RollbackExactly | src/db/executor.zig:1312-1320 | a rollback stops at the first entry that is over; those before it are rolled back with nothing staged |
| Outcomes.SessionMoves | src/db/executor.zig:1270-1320 | what every command does to the session's transaction, generation and last commit |
| Outcomes.LastCommitExactly | src/db/executor.zig:1306 | after every run the last commit a session knows of is the sequence its own last completed commit left, unless it was closed since |
| Snapshots.OtherReadersUndisturbed | docs/concurrency.md:38-39 | no command of another session, no checkpoint and no drain changes what an active session reads, torn commits included |
| Snapshots.SnapshotStaysStable | docs/concurrency.md:36-47 | over any run of others an active session reads the same rows at the end as at the start |
| Snapshots.ActiveReadsExactly | src/db/executor.zig:1341-1360 | an active session reads a table if and only if its own entry for it is not already over, never for want of retained rows, and sees no id twice |
| Snapshots.RetainedExactlyWhileHeld | src/db/snapshot.zig:135-214 | the rows of an old generation are retained if and only if some active session holds it, within the retention limit |
| Snapshots.PublishExactly | src/db/executor.zig:1293-1295 | publishing a batch succeeds if and only if each entry on its own can be published to the stores as they are |
| Snapshots.RefusedCommitExactly | src/db/executor.zig:1281-1310 | a refused commit changes nothing observable, staged writes and every snapshot included, if and only if it is not torn |
| Snapshots.TornSessionNeverEnds | src/db/executor.zig:1281-1320 | in every run after a torn commit its session stays active on its generation and neither COMMIT nor ROLLBACK ends it |
| Effects.PublishChangesNothingExactly | src/db/transaction.zig:157-180 | publishing leaves a store exactly as it was if and only if the updates repeat live rows and the inserts repeat, id for id, the last rows, which are the ones deleted |
| Effects.BatchChangesNothingExactly | src/db/executor.zig:1293-1295 | publishing a batch up to its first conflict leaves all stores as they were if and only if the entries before that conflict have no effect |
| Effects.DeleteAndReinsert | src/db/transaction.zig:73-123 | a transaction opened before the last row was committed can delete that row and insert it again under its own id, without an effect |
| TornCommit.TornCommitIsReachable | src/db/executor.zig:1287-1299 | a run of two sessions after which a refused commit has nevertheless published an insert, under an unchanged sequence number |
| Replay.TornStepExactly | src/db/executor.zig:1287-1299 | after a torn commit the serial replay still describes the stores if and only if the entries before its first conflict have no effect |
| Replay.RunsAreSerializable | docs/concurrency.md:49-56 | at every point of a run the committed stores are the serial replay of the published batches, and the sequence number counts them, if and only if no torn commit of the run publishes anything with an effect |
| Replay.SnapshotIsSerialPrefix | docs/concurrency.md:26-29 | a session that captured generation g reads the replay of the first g batches under its own writes |
| Replay.SequenceAdvancesExactly | src/db/executor.zig:1286-1306 | the sequence grows by one exactly when a commit gets past queue and retention with at least one entry, each publishable to the live stores; nothing else moves it |
| Replay.EmptyCommitStillAdvances | src/db/executor.zig:1286-1299 | a commit that stages nothing changes no row and still takes a sequence number |
| Replay.QueueNeverFills | src/db/commit_queue.zig:22-40 | no reachable commit is refused for a full queue; the limit is refused exactly when it is zero |
| Generations.RunsKeepHistory | docs/concurrency.md:49-56 | every run keeps the record of what each generation was published as, and only adds to it |
| Generations.IntactExactly | src/db/executor.zig:1287-1299 | between publishing commits a step leaves the stores what their generation was published as if and only if it is no torn commit whose published part has an effect |
| Generations.IntactRunsExactly | docs/concurrency.md:49-56 | at every point of a run the stores are what their generation was published as if and only if no torn commit of the run publishes anything with an effect |
| Generations.StatesAreReplays | docs/concurrency.md:49-56 | in runs in which no torn commit publishes anything with an effect the state of every generation is the serial replay up to it |
| EagerRefinement.StepRefinesEager | docs/concurrency.md:36-47 | one step of the engine, torn commits included, is one step of the clone-on-BEGIN machine with the same outcome, or a commit turned away for capacity that changes nothing, unless it is a BEGIN while the current generation is unsettled |
| EagerRefinement.BeginRefinesExactly | src/db/executor.zig:1270-1279 | after BEGIN every read equals the full clone's if and only if the current generation's retained rows, if any, are the live rows |
| EagerRefinement.LazyRefinesEager | docs/acceptance-phase6-scalable-concurrency.md:33 | over every run, all sessions read throughout what full clones at BEGIN would give if and only if every BEGIN finds its generation settled |
| EagerRefinement.HarmlessRunsRefine | docs/acceptance-phase6-scalable-concurrency.md:33 | from opening, every run in which no torn commit publishes anything with an effect reads throughout what full clones would give |
| EagerRefinement.ShadowsRead | src/db/executor.zig:1421-1437 | related states give every session the same rows or the same error for every table |
| VectorOverlay.DrainConserves | src/vector/overlay.zig:117-151 | a drain loses, doubles and changes no delta |
| VectorOverlay.DrainTakesReady | src/vector/overlay.zig:131-148 | a drain takes at most the maximum, nothing newer than asked for, and stops short only when all that stays is newer |
| VectorOverlay.RecordAllLookup | src/vector/overlay.zig:84-103 | recording cells replaces exactly their deltas, keeps one delta per cell and leaves all others alone |
| VectorOverlay.DrainedIndexExactly | docs/concurrency.md:85-94 | from opening, over every run of commits, torn ones included, and drains: applying everything drained and then the backlog gives every committed vector cell its current vector if and only if no vector cell came in outside a publishing commit |
| VectorOverlay.IndexHoldsLastPublished | src/vector/overlay.zig:68-151 | the index holds a cell under the current generation exactly with its vector at the last publishing commit, and nothing before the first |
| VectorOverlay.StampedCellsExactly | src/vector/overlay.zig:68-82 | the deltas a commit stamps are all committed vector cells, whoever wrote them |
| VectorOverlay.EarlierDrainsAreStale | src/vector/overlay.zig:117-151 | a drain bounded by an earlier generation hands out only cells that no longer existed at the last publishing commit |
| VectorOverlay.PublishedOverlayKeys | src/vector/overlay.zig:68-103 | after a commit the overlay holds a cell if and only if it held it before or the cell is committed; deltas of deleted rows stay as they were |
| VectorOverlay.DrainedWithoutAWrite | src/db/executor.zig:735-739 | two transactions that write nothing make two drains hand out the same cell twice |
| FailingRuns.DrainedTwice | src/db/executor.zig:735-739 | one stored vector for which that happens |
| VectorWrites.StoreWritesExactly | src/vector/overlay.zig:68-82 | a published store's vector cells are the ones its transaction wrote if and only if it touches every row that held a vector |
| VectorWrites.PublishedCells | src/vector/overlay.zig:68-82 | the committed vector cells after a batch are the ones it writes and the ones of rows it leaves alone, and no cell is both |
| VectorWrites.OverlayIsALogExactly | src/vector/overlay.zig:68-103 | one commit stamps exactly the vector cells it wrote if and only if it updates or deletes every committed row that holds a vector |
| VectorLog.RecordAppendsExactly | src/vector/overlay.zig:84-103 | recording cells appends their deltas in order and does nothing else if and only if none of them is still waiting |
| VectorLog.DrainTakesFront | src/vector/overlay.zig:117-151 | a drain of an overlay in generation order takes a prefix of it |
| VectorLog.StampLogExactly | src/vector/overlay.zig:68-151 | over every run: everything drained and then the backlog is all cells every commit stamped, each once and in commit order, if and only if no commit finds one of its committed cells still waiting |
| VectorLog.WriteLogExactly | docs/concurrency.md:85-94 | over every run: everything drained and then the backlog is exactly the vector writes of all published commits, each once and in commit order, if and only if every commit touches every committed row that holds a vector and writes no cell still waiting |
| VectorLog.OverlayLogsExactly | docs/concurrency.md:85-94 | both, from opening a database |
| VectorIndex.IndexStepExactly | docs/concurrency.md:85-94 | a step leaves a current index current if and only if it is no torn commit, or one whose published entries write only vectors the index already holds |
| VectorIndex.IndexRunsExactly | docs/concurrency.md:85-94 | so over every run |
| FailingRuns.WriteIsReplaced | src/vector/overlay.zig:92-95 | two commits without a drain between them: the vector the first wrote is neither drained nor waiting |
| FailingRuns.BeginMissesCommittedRow | src/db/executor.zig:1270-1279 | after a tear that retained the current generation, a new session does not see a committed row a full clone would show |
| FailingRuns.IndexMissesTornVector | docs/concurrency.md:87-88 | after a tear a committed vector is missing from the index |
| Objects.SnapshotRegistry.Acquire | src/db/snapshot.zig:119-133 | counts one more holder of a generation |
| Objects.SnapshotRegistry.SweepReleased | src/db/snapshot.zig:202-214 | the in-place removal loop keeps exactly the generations somebody holds, in order |
| Objects.SnapshotRegistry.ReleaseGeneration | src/db/snapshot.zig:192-200 | drops one holder of a listed generation and then every generation nobody holds; an unlisted one changes nothing |
| Objects.SnapshotRegistry.RetainGeneration | src/db/snapshot.zig:147-163 | retains an exact copy, or reports the retention limit or the copy's error and retains nothing; a generation already retained is left alone |
| Objects.CommitQueue.Enqueue | src/db/commit_queue.zig:22-28 | takes a slot or reports why not; the depth never passes the limit |
| Objects.Overlay.RecordCommittedStore | src/vector/overlay.zig:68-82 | the nested loops record every vector cell of the store, row by row |
| Objects.Overlay.Drain | src/vector/overlay.zig:117-151 | the removal loop takes exactly what the drain specification takes and leaves the rest in order |
| Objects.CaptureStores | src/db/snapshot.zig:60-72 | copies store after store, stopping at the first that cannot be copied |
| Objects.PublishTransaction | src/db/transaction.zig:157-180 | the three loops on a copy compute the published store or the first error |
| DatabaseObject.Database.Begin | src/db/executor.zig:1270-1279 | takes the machine's BEGIN step in place and keeps the invariant |
| DatabaseObject.Database.PublishEntries | src/db/executor.zig:1293-1295 | publishes in place, entry by entry, up to the first failure |
| DatabaseObject.Database.Commit | src/db/executor.zig:1281-1310 | enqueue, retain, publish, complete, record and release together are the machine's COMMIT step, on every error path, and keep the invariant |
| DatabaseObject.Database.Rollback | src/db/executor.zig:1312-1320 | takes the machine's ROLLBACK step in place and keeps the invariant |
| DatabaseObject.Database.EntryIndex | src/db/executor.zig:1322-1334 | finds the session's entry for a table or opens one on the live store |
| DatabaseObject.Database.Scan | src/db/executor.zig:1421-1437 | the rows a statement sees are the machine's: the session's snapshot under its own writes, or the exact error |
| DatabaseObject.Database.Touch | src/db/executor.zig:409-454 | a statement that matches no row scans and opens an entry, as the machine does |
| DatabaseObject.Database.Insert | src/db/executor.zig:396-407 | stages one inserted row as the machine does and keeps the invariant |
| DatabaseObject.Database.Update | src/db/executor.zig:409-435 | scans first and stages one updated row, if the scan shows it, as the machine does and keeps the invariant |
| DatabaseObject.Database.Delete | src/db/executor.zig:437-454 | scans first and stages one deleted row, if the scan shows it, as the machine does and keeps the invariant |
| DatabaseObject.Database.RetainCurrentGeneration | src/db/executor.zig:715-733 | retains the current generation exactly when another session holds it and it is not retained yet |
| DatabaseObject.Database.RecordOverlay | src/db/executor.zig:735-739 | records the vector cells of every table, table by table |
| DatabaseObject.Database.BeginCheckpoint | src/db/checkpoint_worker.zig:43-51 | takes the one ticket for the current generation, or refuses a second |
| DatabaseObject.Database.CompleteCheckpoint | src/db/checkpoint_worker.zig:25-29 | closes the running ticket and records its generation; a closed one stays as it is |
| DatabaseObject.Database.FailCheckpoint | src/db/checkpoint_worker.zig:31-35 | closes the running ticket and leaves the completed generation alone; a closed one stays as it is |
| DatabaseObject.Database.DrainOverlay | src/db/executor.zig:687-694 | takes the machine's drain step in place and keeps the invariant |
| Checksum.MeetAgain | src/db/persistence.zig:167-188 | two registers fed at most 32 bits meet again only if they started apart by the difference of the messages |
| Checksum.BurstChangesChecksum | src/db/persistence.zig:188 | payloads that differ only inside four consecutive bytes never share a checksum |
| Remainder.ChecksumIsRemainder | src/db/persistence.zig:167-188 | for every payload the checksum is the complemented remainder of the message, its first 32 bits complemented and shifted by 32, modulo the polynomial with exponents 32, 26, 23, 22, 16, 12, 11, 10, 8, 7, 5, 4, 2, 1, 0 |
| Remainder.RemainderUnique | src/db/persistence.zig:167-188 | that remainder is unique |
| ChecksumValues.CheckValue | src/db/persistence.zig:167-188 | the checksum of the nine digits is 0xCBF43926 |
| Codec.LittleEndianInverse | src/db/persistence.zig:542-631 | every machine word reads back from its little-endian bytes |
| Codec.PrefixedReads | src/db/persistence.zig:524-598 | length-prefixed bytes read back and leave exactly what follows |
| Codec.ListReadsBack | src/db/persistence.zig:205-256 | a counted list of codes reads back element by element and leaves exactly what follows |
| Codec.ValueReads | src/db/persistence.zig:435-505 | every value but the empty vector reads back, whatever follows |
| Codec.EmptyVectorRefused | src/db/persistence.zig:495-505 | the empty vector, which can be written, is refused when it is read |
| FileLayout.ValueWritten | src/db/persistence.zig:21-33 | the bytes of a value are the tag of its kind and then its body, in a layout stated apart from the encoder |
| FileLayout.ValueOnly | src/db/persistence.zig:473-505 | the reader of values accepts nothing but such bytes |
| SnapshotFile.ColumnReads | src/db/persistence.zig:210-222 | a column reads back with type, default and flags |
| SnapshotFile.IndexReads | src/db/persistence.zig:352-369 | an index reads back as the specification its table is rebuilt from |
| SnapshotFile.RowsRead | src/db/persistence.zig:371-388 | rows inserted while they are read give the same store, order, ids and next id included |
| SnapshotFile.TableReads | src/db/persistence.zig:287-350 | a table reads back as itself if and only if it can be rebuilt; otherwise the exact error |
| SnapshotFile.PayloadRoundTrip | src/db/persistence.zig:197-285 | a database reads back as itself, nothing left over, if and only if every table can be rebuilt |
| SnapshotFile.ViewRegisteredExactly | src/db/catalog.zig:357-365 | a view is registered if and only if names stay apart with it; the error tells a second view from another object |
| SnapshotFile.ProcedureRegisteredExactly | src/db/catalog.zig:382-390 | so is a procedure |
| SnapshotFile.TableCreatedExactly | src/db/catalog.zig:332-340 | a table is created if and only if no object has its name and it can be built |
| FileLayout.FileWritten | src/db/persistence.zig:157-256 | every written file is, byte for byte, signature, version, length, checksum and the payload's fields in their places |
| FileLayout.ColumnOnly | src/db/persistence.zig:301-319 | the reader of columns accepts nothing but encodings of columns |
| FileLayout.IndexOnly | src/db/persistence.zig:352-369 | nor the reader of indexes anything but indexes |
| FileLayout.RowOnly | src/db/persistence.zig:371-388 | nor the reader of rows anything but rows |
| Decoding.RowsOnly | src/db/persistence.zig:343-346 | reading n rows gives a valid store with exactly those n rows, in order |
| Decoding.AcceptedIsSound | src/db/persistence.zig:173-285 | every file that is accepted, whoever wrote it, gives a database of valid stores under built tables with names apart |
| SnapshotHeader.FileRoundTrip | src/db/persistence.zig:157-195 | decoding an encoded database gives it back if and only if every table can be rebuilt |
| SnapshotHeader.EmptyDatabaseReads | src/db/persistence.zig:157-195 | the file of an empty database is readable and reads back |
| SnapshotHeader.DamageIsRefused | src/db/persistence.zig:173-188 | a readable file damaged in one header field or four consecutive payload bytes is refused with that place's error |
| SnapshotHeader.ChangedByteIsRefused | src/db/persistence.zig:173-188 | no single changed byte anywhere in the file goes unnoticed, and the error names its field |
| SnapshotHeader.TruncatedIsRefused | src/db/persistence.zig:174-185 | every proper prefix of a readable file is refused, with the error its length decides |
| SnapshotHeader.ExtendedIsRefused | src/db/persistence.zig:185 | a readable file with anything appended is refused |
| SnapshotHeader.PaddedIsRefused | src/db/persistence.zig:190-194 | so is a payload with anything behind it under a header that fits it |
| AtomicWrite.Directory.WriteSnapshot | src/db/persistence.zig:113-144 | whichever calls fail and wherever the machine stops, a restart finds the complete old file or the complete new one, never the old one after the new one; success means the new one |
| Durability.RebuildExact | src/db/executor.zig:157-236 | exporting or importing a database reproduces it if and only if every table can be rebuilt |
| Durability.FileIsACommittedState | docs/concurrency.md:75-83 | over every run, torn commits included, the file holds the complete committed stores of one moment, whose generation never goes back |
| Durability.FileIsOnePastGeneration | docs/concurrency.md:77-80 | at every point of a run the file holds the state of exactly one past generation if and only if every checkpoint installed in it found the stores intact |
| Durability.EverySaveHoldsExactly | docs/concurrency.md:77-80 | wherever checkpoints are installed among the commands of a run the file holds one past generation throughout, if no torn commit of the run publishes anything with an effect, and only then as long as a checkpoint can be written at all |
| Durability.HarmlessFileIsReplay | docs/concurrency.md:75-83 | in runs in which no torn commit publishes anything with an effect the file holds the serial replay up to the generation it was saved at |
| FailingRuns.FileHoldsNoGeneration | docs/concurrency.md:77 | a checkpoint after a tear leaves a file that holds the state of no generation |
| Durability.CheckpointsAreInvisible | docs/concurrency.md:78-83 | whatever checkpoints are started, refused, failed or completed, the engine is where its own commands take it |
| Durability.ReopenExactly | src/abi/handles.zig:134-140 | a saved file reopens to the stores committed when it was saved if and only if it is at most 134217728 bytes long, and to the saved database if and only if moreover no procedure has a parameter |
| Durability.EverySavedFileReopens | src/db/persistence.zig:146-155 | from opening to any point of any run, a saved file reopens if and only if it is within the reader's bound, and is refused as too big otherwise |
| Durability.Checkpoint | src/abi/handles.zig:134-140 | a checkpoint through the directory ends in the state before or the state after, and so does any moment the machine may stop in |
| SnapshotLimits.PayloadEncodesExactly | src/db/persistence.zig:533-536 | a database can be encoded if and only if every count fits its 32-bit word, and is refused as too large otherwise |
| SnapshotLimits.SavesExactly | src/db/executor.zig:203-236 | a checkpoint gets as far as writing the file if and only if every table can be rebuilt and every count fits |
| SnapshotLimits.BigBlobIsUnreadable | src/db/persistence.zig:152 | a saved database with a blob beyond the reader's bound cannot be reopened |
| SnapshotLimits.SavedAndLost | src/db/persistence.zig:113-155 | such databases exist: opened, saved successfully, never opened again |
| Durability.CompletedNeverGoesBack | src/db/checkpoint_worker.zig:43-73 | the completed generation of the ticket, which is tied to no file, never goes back and never passes the sequence |
| Tickets.RunningExactly | src/db/checkpoint_worker.zig:25-73 | after every run a ticket is running for a generation if and only if a begin took it there and nobody has completed or failed it since |
| Tickets.BeginRefusedExactly | src/db/checkpoint_worker.zig:43-51 | from opening, a begin is refused if and only if such a ticket is running, and otherwise takes one for the current sequence |
| Tickets.ClosedTicketLetsBegin | src/db/checkpoint_worker.zig:61-73 | completing or failing always lets the next begin through |
| Durability.WorkerStep | src/db/checkpoint_worker.zig:43-73 | only completing the one running ticket moves the completed generation; an overlapping begin changes nothing |
| FailingRuns.CompletedWithoutAFile | src/db/checkpoint_worker.zig:43-73 | a run that completes a ticket for generation 1 with no file ever written |
| Durability.ReloadedExactly | src/db/executor.zig:194-197 | the procedures a reopen gives back are the ones that were saved if and only if none has a parameter |
| Literals.Tokenizer.ReadQuoted | src/sql/tokenizer.zig:118-146 | the scanning loop returns the exact lexeme, its offset and explicit evidence of termination |
| Literals.LiteralEndsAtFirstOddRun | kitty-specs/sql-literal-escaping-hardening-01KY0P89/data-model.md:14-23 | a single-quoted literal ends at the end of the first odd maximal run of quotes, and is unterminated if and only if there is none |
| Literals.DecodeInterior | src/sql/parser.zig:1146-1161 | the decode loop into a fixed buffer computes the decoded text, never longer than the interior |
| Literals.CloneStringLiteral | src/sql/parser.zig:1141-1166 | an unterminated single-quoted token has no value, every other token its decoded text |
| Literals.ValueExactlyWhenTerminated | src/sql/parser.zig:1141-1145 | a scanned single-quoted token has a value if and only if it is terminated |
| Literals.OtherQuotesVerbatim | src/sql/parser.zig:1164-1165 | a token in other quotes has everything between its first and last byte as its value |
| Literals.QuotedTextReadsBack | kitty-specs/sql-literal-escaping-hardening-01KY0P89/data-model.md:32-41 | any text, quoted and doubled, is scanned to exactly its closing quote and decodes to itself |
| Literals.LexemeReadsBack | kitty-specs/sql-literal-escaping-hardening-01KY0P89/data-model.md:55-69 | quoting the value of any terminated lexeme gives the lexeme back |
| Literals.OneMoreQuoteUnterminates | kitty-specs/sql-literal-escaping-hardening-01KY0P89/plan.md:71-77 | a terminated literal followed by one more quote is unterminated although it ends in a quote |
| Literals.BaselineAgreesExactly | kitty-specs/sql-literal-escaping-hardening-01KY0P89/plan.md:55-59 | the backslash-skipping scanner finds the same end and termination if and only if every quote of the lexeme follows an even number of backslashes |
| Literals.BaselineParts | kitty-specs/sql-literal-escaping-hardening-01KY0P89/plan.md:55-59 | with a backslash before the closing quote the two scanners part |
| Locks.StepKeeps | references/mariadb/storage/innobase/unittest/innodb_sync-t.cc:46-161 | every step of every thread keeps the holds compatible, the programs disciplined and the critical flag equal to somebody being inside |
| Locks.GrantedExactly | references/mariadb/storage/innobase/unittest/innodb_sync-t.cc:46-161 | a call is granted if and only if what its thread would then hold goes with what everybody else holds |
| Locks.HoldsConserved | references/mariadb/storage/innobase/unittest/innodb_sync-t.cc:46-161 | locking adds one hold, unlocking takes one away, conversions add and lose none |
| Locks.ChecksPass | references/mariadb/storage/innobase/unittest/innodb_sync-t.cc:67-161 | a thread about to assert that nobody is inside finds the flag clear, and one at the end of a round holds nothing |
| Locks.NoDeadlock | references/mariadb/storage/innobase/unittest/innodb_sync-t.cc:67-115 | with an unfinished thread some thread can step |
| Locks.EveryRunEnds | references/mariadb/storage/innobase/unittest/innodb_sync-t.cc:171-211 | no interleaving goes on for ever, and one that cannot go on has finished every thread with nothing held |
| LockPrograms.MutexClosed | references/mariadb/storage/innobase/unittest/innodb_sync-t.cc:32-42 | the mutex program is disciplined for every number of rounds |
| LockPrograms.SrwClosed | references/mariadb/storage/innobase/unittest/innodb_sync-t.cc:46-63 | so is the read-write lock program |
| LockPrograms.SsuxClosed | references/mariadb/storage/innobase/unittest/innodb_sync-t.cc:67-115 | so is the update lock program, upgrade attempts included |
| LockPrograms.SuxClosed | references/mariadb/storage/innobase/unittest/innodb_sync-t.cc:119-161 | so is the recursive lock program: all re-entries, upgrades and downgrades return to nothing held |
| LockPrograms.TestsPass | references/mariadb/storage/innobase/unittest/innodb_sync-t.cc:163-215 | any number of threads running the test programs, in any interleaving, pass every check, never deadlock and finish |
| IoCache.CopyInFragments | references/mariadb/unittest/sql/mf_iocache-t.cc:423-449 | whenever twice the total reaches the number of fragments, for all random values no divisor is zero, every fragment but the last fits, and the file equals the cache even when the last count wraps |
| IoCache.DivisorPositiveExactly | references/mariadb/unittest/sql/mf_iocache-t.cc:433 | a divisor is not zero if and only if twice what is left reaches the fragments left, so smaller totals fail at once |
| IoCache.Mdev10963 | references/mariadb/unittest/sql/mf_iocache-t.cc:390-457 | the test's own sizes copy completely for all random values |
| IoCache.ReadChunk | references/mariadb/unittest/sql/mf_iocache-t.cc:345-379 | each chunk is read contiguously and the total meets the end of file |
| IoCache.Mdev17133 | references/mariadb/unittest/sql/mf_iocache-t.cc:334-382 | the end of file strictly grows within the buffer and the reads cover it, every byte once, to the full size |
| IoCache.CheckBufferFitsExactly | references/mariadb/unittest/sql/mf_iocache-t.cc:349-374 | the last read fits the block-sized comparison buffer if and only if the random values add up to at most 110592 |
| IoCache.CheckBufferOverrun | references/mariadb/unittest/sql/mf_iocache-t.cc:349-374 | random values for which it does not fit |
| IoCache.OtherReadsFit | references/mariadb/unittest/sql/mf_iocache-t.cc:349-374 | every other read fits |
| FtsVlc.CodeDecodes | references/mariadb/storage/innobase/unittest/innodb_fts-t.cc:43-47 | decoding a code followed by anything returns the value and consumes exactly the code |
| FtsVlc.ListDecodes | references/mariadb/storage/innobase/unittest/innodb_fts-t.cc:43-47 | any concatenation of codes decodes back to its list |
| FtsVlc.CodeLength | references/mariadb/storage/innobase/unittest/innodb_fts-t.cc:13-35 | a code of n bytes is used exactly for the values that need n groups |
| FtsVlc.AtMostTenBytes | references/mariadb/storage/innobase/unittest/innodb_fts-t.cc:5-10 | no 64-bit value needs more than ten bytes |
| FtsVlc.FewestBytes | references/mariadb/storage/innobase/unittest/innodb_fts-t.cc:13-47 | no shorter byte string decodes to the same value |
| FtsVlc.TableRows | references/mariadb/storage/innobase/unittest/innodb_fts-t.cc:15-33 | the first and last value of every length encode as the table says |
| FtsVlc.LargestRow | references/mariadb/storage/innobase/unittest/innodb_fts-t.cc:34 | so does the largest 64-bit value |
| FtsVlc.CheckRow | references/mariadb/storage/innobase/unittest/innodb_fts-t.cc:39-51 | encoding into the buffer and decoding through the moving position agree for every value |
| Apc.EveryCallIsAccounted | references/mariadb/unittest/sql/my_apc-t.cc:200-220 | in every run no error is reported and no call is missed, and once all requestors are joined the counters add up to the calls |
| Apc.OneOutcomeEach | references/mariadb/unittest/sql/my_apc-t.cc:125-175 | a waiting call ends once, served or timed out, and its destination is written only when served |
| Apc.OutcomeIsCounted | references/mariadb/unittest/sql/my_apc-t.cc:125-175 | accounting for a call records an error if and only if its destination is wrong, and counts the call once |
| DocIdTree.TruncatedAgreesExactly | references/mariadb/storage/innobase/unittest/innodb_rbt-t.cc:26-38 | the truncating comparator agrees with the real one if and only if the distance modulo 2^32 lies on the right side of 2^31 |
| DocIdTree.TruncatedRanges | references/mariadb/storage/innobase/unittest/innodb_rbt-t.cc:34-38 | it agrees within 2^31 and inverts from 2^31 up to 2^32 |
| DocIdTree.Populate | references/mariadb/storage/innobase/unittest/innodb_rbt-t.cc:42-50 | under any rotations and any comparator that orders the ids the filled tree holds exactly these ids, in order |
| DocIdTree.PopulateThenSearch | references/mariadb/storage/innobase/unittest/innodb_rbt-t.cc:58-77 | every id is found after populating under any comparator that orders the ids |
| DocIdTree.ComparatorsOrder | references/mariadb/storage/innobase/unittest/innodb_rbt-t.cc:26-38 | the real comparator orders all ids, the truncating one all ids pairwise less than 2^31 apart |
| DocIdTree.TruncatedLosesAnId | references/mariadb/storage/innobase/unittest/innodb_rbt-t.cc:34-77 | three ids in a circle, of which one rotation loses one |
| DocIdArc.TruncatedWorksExactly | references/mariadb/storage/innobase/unittest/innodb_rbt-t.cc:34-77 | for any distinct ids: under the truncating comparator the filled tree holds all ids and finds each, whatever the rotations, if and only if modulo 2^32 they are distinct and lie on an arc shorter than 2^31 |
| HexWriter.Str2Hex | references/mariadb/unittest/strings/strings-t.c:735-746 | writes inside the destination only, the hex of the longest prefix the guard admits, terminated, the rest untouched |
| HexWriter.UnhexUndoesHex | references/mariadb/unittest/strings/strings-t.c:735-746 | the written text gives the prefix back |
| HexWriter.HexAt | references/mariadb/unittest/strings/strings-t.c:742 | byte i is written as its high and then its low digit, in upper case |

## Left out

- DDL during a run: the set of tables, views and procedures is fixed once a run starts; CREATE and DROP while sessions are open are not modelled.
- SQL above the row level: parsing beyond quoted tokens, expressions, joins, aggregates, views and the procedure interpreter; a write statement is a sequence of operations on rows its session's scan shows, or a touch when it matches no row.
- Names inside the engine: tables and vector cells are addressed by index there; case-insensitive names are modelled in the catalog and the file.
- Machine width in the engine: row ids and sequence numbers are unbounded there; the file format's 64-bit row ids appear as `IdsFit` in `Durability`.
- Allocation failure, the spin lock around commits and unlocked concurrent reads: every engine operation is one atomic step.
- Floating point: float and vector values are carried as bit patterns; vector search and distances are not modelled.
- The cursor and byte list of the codec as mutable objects: readers return the rest of their input instead. Whether the standard library's bounded read accepts a file of exactly 128 MiB: here it does.
- Overlay backlog and configuration diagnostics: the code reports them and enforces nothing.
- Lock words, wait queues and spinning: each lock call is one guarded step, and `s_x_upgrade` tries for U or gives S up.
- The IO_CACHE buffer, the red-black colours, `rbt_populate2` and the call target's mutex are abstracted as each file says; marking used cache bytes is not modelled.
- Real time, sleeps, encryption stubs and test reporting.
- AtomicWrite.Directory.WriteSnapshot: takes a rename that returned to survive a stop; the code forces the temporary file to the disk and never the directory, so on some file systems a stop can still bring the complete old file back.
- Decoding.AcceptedIsSound: lets the next id be 2^64, which a file whose row carries the largest id asks for; the code's addition overflows there.
- Durability.ReopenExactly: asks that row ids fit their 64-bit words, as they do in the code's own types; so does EverySavedFileReopens.
