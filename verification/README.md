# ant-db: a verified model

ant-db is a small SQL engine with multi-version concurrency control. This project models the parts of it
where mistakes are hard to see, and proves what they promise:

- **Transactions over version chains.** A state machine over begin, insert, update, delete, commit,
  rollback, vacuum and restart, interleaved freely between transactions, against a simple store (one
  committed table plus each transaction's own unfinished writes).
- **The column index**, which has to agree with a scan through all of that, and UNIQUE on top of it.
- **Paged tables**: resident pages, a page file behind them, dirty bits, LRU eviction, row locations,
  overflow chains, vacuum and compaction, against a plain map of rows.
- **The page file**: an append-only file of bytes with a movable index, against a map of pages, with crashes.
- **Access paths and joins**: index forms against full scans and nested loops, conditions against the values they
  compare, ORDER BY, OFFSET and LIMIT.
- **The COPY text format**: printer against parser, and both against a description of the format.
- **Connections**: who owns which transaction, and what the others read when a statement or transaction ends.

`Machine` puts the layers together: transactions over version chains, an index per indexed column, the page
cache and the bytes of the page file behind it. From an empty table, after any interleaving of transactions with
eviction, loading, flushing, vacuum, rollback and restart, a read that goes to a row's page returns the
transaction's own latest write, or else the latest committed value (`Engine.PagedReadsAreSimpleReads`); the indexes
are complete, so that index searches find what scans find (`Machine.ReachableSearchesAgree`); and the file opens to
what the cache relies on (`Machine.FileStaysReadable`). The runs leave out the steps at which the code can fail,
listed below with their exact conditions.

## How to read it

Values and functions carry the specifications (`Db`, `Cache`, `File`, `Index`); classes hold the fields the
engine updates in place, and each of their methods is tied to such a function. Runs are sequences of steps, and
the main theorems quantify over all of them. In the transaction runs one step is one public operation; in the
cache runs an operation is several steps (an insert registers pages, places its row, reserves and links
continuations; evictions and loads may come between them).

| files | component |
|---|---|
| `Transactions`, `Rows`, `MvccStore`, `MvccProofs`, `MvccTheorems`, `SecondWriter`, `Database` | versions, snapshot, lifecycle |
| `ColumnIndex`, `IndexedStore`, `IndexTheorems` | index completeness and uniqueness |
| `Pages`, `PageCache`, `Eviction`, `TableMaintenance`, `Vacuum`, `CacheRuns`, `CacheFailures`, `Compaction`, `PagedTable` | paged tables |
| `PageBytes`, `PageFile`, `PageCrash`, `PageTorn`, `PageRuns`, `PageStore` | page file |
| `SearchExpressions`, `Conditions`, `ScanOrder`, `RowOrder`, `AccessPaths`, `SearchFailures`, `Joins` | queries |
| `CopyFormat`, `CopyText`, `CopyValues`, `CopyCodec`, `CopyRoundTrip` | COPY |
| `Connections`, `Engine`, `Durable`, `Machine`, `Prelude`, `Values` | connections, composition, shared vocabulary |

## Where the code falls short of its promise

Each of these is stated as an exact condition ("if and only if"), with the code as it is, and with a failing run
or input:

- Commit assigns `last_possible_transaction_id` instead of taking a maximum. A commit out of id order can hide
  committed rows: `LateCommitHidesRow` is such a run, `CommitKeepsRowIff` the exact condition for every row and
  every other transaction. The runs in `RunRefinesSimpleStore` therefore commit a transaction only when its id is
  above every committed writer's.
- A second writer of a row overwrites `deleted_by`. For a row the writer sees, every legal continuation reads as
  the simple store if and only if no other active transaction has written the row: `SoleWriterIff`.
  `SecondWriteReadsIff` is the case of the reads right after the write: they are wrong exactly when the first writer
  has deleted a committed row, as in `SecondDeleteRevivesRow`. In `CommittedDeletionIsLost` and, with all reads right
  after the write still correct, in `LaterCommitsLoseDeletion` a committed deletion is gone for good. The runs above
  have no two active writers on one row.
- Reloading counts every id handed out as committed, so unfinished writes become visible:
  `RestartExposesUnfinishedWrites`, `RestartPreservesReadsIff`.
- A rolled-back transaction removes index entries it re-added, even if another version needs them:
  `RollbackKeepsIndexIff`, and `RewriteThenRollbackBreaksUnique` is a run in which a duplicate follows from it.
- UNIQUE is checked against what the writing transaction sees, so two active transactions may insert the same value:
  `TwoInsertersBreakUnique` is such a run, `BothCommitUniqueIff` the exact condition for two transactions.
- A page registered for a new row can be evicted before the row is put on it; the row then has a location and
  no page: `PagedTable.Table.InsertRow`, `PagedTable.FirstPageOpensIff`.
- Rollback visits only resident pages: `RollbackUndoesIff`, `RollbackMissesEvictedPage`. It does not mark pages
  dirty, so a page saved before the rollback comes back unrolled once it has left memory: `EvictAfterRollbackIff`,
  `EvictionRevivesRolledBackRow`.
- Compaction drains only resident pages, and the loads of a vacuum evict pages under a memory limit, before and
  after they were pruned. `VacuumOutcome` gives the exact condition on the state before the vacuum under which the
  rows are exactly the pruned rows; in `VacuumLosesRow` a row is lost because the pages push each other out.
- A table emptied by vacuum comes back with the rows of leftover pages after a restart:
  `RestartPreservesViewIff`; in `EmptiedTableComesBack` new transactions read a row whose deletion had committed.
- A crash during the first merge of a new file leaves a file that does not open: `MergeIsCrashAtomic`. The header
  is written in five pieces; a crash between them yields the old store after at most two, the new one after five,
  and in between possibly a store whose next merge overwrites live pages: `TornHeaderOpensIff`,
  `TornHeaderEndangers`.
- An equality with NULL through an index or a join probe misses rows that lack the column, and the order of an
  index search differs from the scan's when the rows found do not lie in id order along the pages:
  `IndexFindsSameRowsIff` with `NullLookupMissesRow`, `ProbeEqualsNestedLoopIff` with `NullProbeMissesRow`,
  `IndexAgreesIff` with `IndexOrderDiffers`. Where UNIQUE holds the order cannot differ: `UniqueSearchesAgree`.
- A single column written by COPY as nothing is not read back, nor is the first row after an unnamed header, and
  the default null string is misread: `CopyRoundTripIff`, `DefaultNullIsMisread`.

## Model

| member | source | states |
|---|---|---|
| `Rows.VisibleIndex` | src/backend/core/row.rs:265-270 | the newest version visible to the transaction: visible itself, nothing newer is |
| `Rows.PruneChainIsSubsequence` | src/backend/core/row.rs:238-243 | vacuum keeps versions in their old order and invents none |
| `Rows.KeptSurvivesPrune` | src/backend/core/row.rs:238-243 | no version the rule keeps is lost |
| `Rows.Row.Remove` | src/backend/core/row.rs:206-213 | exactly the version the transaction sees is stamped deleted |
| `Rows.Row.Update` | src/backend/core/row.rs:215-236 | the seen version is stamped and a new one appended |
| `Rows.Row.Prune` | src/backend/core/row.rs:238-243 | the chain becomes the pruned chain |
| `Rows.Row.RollbackTransaction` | src/backend/core/row.rs:245-259 | the transaction's versions and deletions are undone along the whole chain |
| `Rows.Row.GetVersionedRow` | src/backend/core/row.rs:265-270 | reads what the chain shows the transaction |
| `MvccProofs.VisibleExactly` | src/backend/core/transaction.rs:35-71 | under the invariant a version is visible exactly when it is the reader's own current one, or committed and not overwritten by the reader |
| `MvccProofs.ReadsAgree` | src/backend/core/transaction.rs:35-71 | a read through the chain is a read of the simple store |
| `MvccProofs.AtMostOneVisible` | src/backend/core/transaction.rs:35-71 | no transaction sees two versions of a row |
| `MvccProofs.StepInsert` | src/backend/core/row.rs:187-204 | insert keeps chains and simple store related |
| `MvccProofs.StepUpdate` | src/backend/core/row.rs:215-236 | update does |
| `MvccProofs.StepDelete` | src/backend/core/row.rs:206-213 | delete does |
| `MvccProofs.StepBegin` | src/backend/core/database.rs:213-224 | begin does |
| `MvccProofs.StepCommit` | src/backend/core/database.rs:226-262 | an in-order commit publishes exactly the transaction's writes |
| `MvccProofs.StepRollback` | src/backend/core/database.rs:264-289 | rollback drops exactly the transaction's writes |
| `MvccProofs.StepPrune` | src/backend/core/database.rs:291-300 | vacuum leaves the simple store as it is |
| `MvccProofs.NotDeadIsKept` | src/backend/core/row.rs:238-243 | vacuum keeps every version someone may still see |
| `MvccProofs.Step` | src/backend/core/database.rs:213-300 | every legal operation keeps chains, watermarks and simple store related |
| `MvccTheorems.RunRefinesSimpleStore` | src/backend/core/transaction.rs:35-71 | in every legal interleaved run a transaction sees at most one version per row: its own latest write or else the latest committed one |
| `MvccTheorems.RunKeepsWatermarks` | src/backend/core/database.rs:226-289 | the smallest-active mark never exceeds an active id, committed writers stay below the last-possible mark, an active creator's version is deleted by nobody else |
| `MvccTheorems.PrunedIsInvisibleForever` | src/backend/core/row.rs:238-243 | what vacuum removes, no active or later transaction could see in any continuation |
| `MvccTheorems.ReclaimedIff` | src/backend/core/row.rs:238-243 | the next commit and vacuum take away a version if and only if its deleter is below every id that is then active, or below the committing one if none is |
| `MvccTheorems.NothingInvented` | src/backend/core/database.rs:291-300 | they invent no version, and a row of which no version is left is gone |
| `MvccTheorems.PrunedRunsReadTheSame` | src/backend/core/database.rs:291-300 | runs with and without their vacuum steps give the same reads |
| `MvccTheorems.RollbackLeavesNoTrace` | src/backend/core/database.rs:264-289 | others read what they would have read had the transaction written nothing |
| `MvccTheorems.RolledBackNeverVisible` | src/backend/core/row.rs:245-259 | a rolled-back version is invisible in every later reachable state |
| `MvccTheorems.RestartExposesUnfinishedWrites` | src/backend/core/database.rs:115-123 | after a reload a new transaction reads every unfinished write |
| `MvccTheorems.RestartPreservesReadsIff` | src/backend/core/database.rs:115-123 | a reload preserves reads if and only if no unfinished write changes a row |
| `MvccTheorems.CommitKeepsRowIff` | src/backend/core/database.rs:226-262 | for every row and every other transaction, active or later: the exact condition under which assigning the last-possible mark leaves it seeing the right version |
| `MvccTheorems.LateCommitHidesRow` | src/backend/core/database.rs:232-235 | a run in which a late commit hides a committed row |
| `SecondWriter.SecondWriteReadsIff` | src/backend/core/row.rs:206-236 | right after a write to a row another active transaction has written, all reads are as the simple store says if and only if that transaction has not deleted a committed row |
| `SecondWriter.SoleWriterIff` | src/backend/core/row.rs:206-259 | writing a row one sees keeps every legal continuation in agreement with the simple store if and only if no other active transaction has written the row |
| `SecondWriter.SecondDeleteRevivesRow` | src/backend/core/row.rs:206-213 | a run in which a second deletion shows the row to the first deleter again |
| `SecondWriter.CommittedDeletionIsLost` | src/backend/core/row.rs:206-259 | the run goes on: the second deleter rolls back, the first commits, and the row is still there |
| `SecondWriter.LaterCommitsLoseDeletion` | src/backend/core/row.rs:206-236 | a run in which all reads are right after the second write, both writers commit in order, and the deletion is lost |
| `DatabaseLifecycle.SmallestActive` | src/backend/core/database.rs:247-261 | the least active id, or the fallback |
| `DatabaseLifecycle.Database.CreateTransaction` | src/backend/core/database.rs:213-224 | a new id becomes active; the invariant is kept |
| `DatabaseLifecycle.Database.CommitTransaction` | src/backend/core/database.rs:226-262 | the whole new snapshot; a legal commit keeps the invariant |
| `DatabaseLifecycle.Database.RollbackTransaction` | src/backend/core/database.rs:264-289 | every row rolled back and both marks set; the invariant is kept |
| `DatabaseLifecycle.Database.RemoveStrayVersions` | src/backend/core/database.rs:291-300 | every row pruned at the smallest-active mark; the invariant is kept |
| `DatabaseLifecycle.Database.Reload` | src/backend/core/database.rs:115-123 | the watermarks of a loaded snapshot |
| `DatabaseLifecycle.Database.ReadRow` | src/backend/core/row.rs:265-270 | the value read is the simple store's |
| `ColumnIndex.Column.UpdateIndex` | src/backend/core/column.rs:168-181 | adds one entry and overwrites who added it |
| `ColumnIndex.Column.RemoveEntries` | src/backend/core/column.rs:183-200 | exactly the named entries go, and keys with their last row |
| `ColumnIndex.Column.RollbackIndexTransaction` | src/backend/core/column.rs:202-230 | exactly the entries last added by the transaction go |
| `ColumnIndex.Column.Prune` | src/backend/core/column.rs:232-265 | exactly the entries of dead rows go |
| `ColumnIndex.Column.UniqueViolated` | src/backend/core/column.rs:286-309 | a clash is reported exactly when another row under the key shows the value |
| `ColumnIndex.WithoutHolds` | src/backend/core/column.rs:202-265 | removal takes the named entries, nothing else, and leaves no empty key |
| `Values.KeysAreExact` | src/backend/core/row.rs:91-138 | two integers of one type up to 64 bits, two timestamps or two booleans have the same key only if they are equal |
| `IndexedStore.IndexFindsVisible` | src/backend/core/table.rs:993-1011 | a row a transaction reads is under the key of the value it reads |
| `IndexedStore.StepKeepsIndex` | src/backend/core/table.rs:1013-1031 | every operation keeps the index complete and free of dangling entries |
| `IndexedStore.RollbackKeepsIndexIff` | src/backend/core/column.rs:202-230 | rollback keeps the index complete if and only if it was not the last to add an entry others need |
| `IndexedStore.PruneKeepsIndex` | src/backend/core/table.rs:1864-1880 | vacuum keeps the index complete and leaves no entry to a missing row |
| `IndexTheorems.IndexStaysComplete` | src/backend/core/column.rs:168-265 | the index is complete at the end of every run with safe rollbacks |
| `IndexTheorems.ProbeEqualsScan` | src/backend/core/table.rs:993-1011 | in every reachable state a probe finds the rows a scan finds, whatever collides |
| `IndexTheorems.VacuumIsInvisible` | src/backend/core/table.rs:1864-1908 | pruning versions and index changes no read and keeps the index sound |
| `IndexTheorems.AcceptedWriteIsUnique` | src/backend/core/column.rs:286-309 | an accepted write creates no duplicate in its transaction's view |
| `IndexTheorems.AbsentChecksNull` | src/backend/core/table.rs:940-980 | a row without the column is validated like one that says NULL in it |
| `IndexTheorems.UniqueOverSerialRuns` | src/backend/core/table.rs:940-980 | with one transaction at a time nobody ever reads one value in two rows |
| `IndexTheorems.LostEntryAdmitsDuplicate` | src/backend/core/column.rs:286-309 | a row whose entry is gone no longer blocks its value |
| `IndexTheorems.UnsafeRollbackBreaksUnique` | src/backend/core/column.rs:202-230 | an unsafe rollback lets the next transaction see a value twice |
| `IndexTheorems.RewriteTakesEntryOver` | src/backend/core/table.rs:1355-1375 | rewriting a row with its own value makes the writer the last to have added its entry |
| `IndexTheorems.PartialUpdateTakesEntryOver` | src/backend/core/table.rs:1343-1378 | an update that leaves the column out is validated with, and takes over the entry of, the value the transaction reads in it |
| `IndexTheorems.RewriteThenRollbackBreaksUnique` | src/backend/core/column.rs:202-230 | the whole run from an empty table: a rewrite, its rollback, and the value inserted again |
| `IndexTheorems.BothCommitUniqueIff` | src/backend/core/column.rs:286-309 | two transactions that each see the column unique keep it so for later ones if and only if they have not written the same value |
| `SearchFailures.TwoInsertersBreakUnique` | src/backend/core/column.rs:286-309 | a run in which two active transactions insert the same value and a later one sees both |
| `Compaction.Repack` | src/backend/core/table.rs:1934-1991 | the loop computes the packing |
| `Compaction.BuildChain` | src/backend/core/table.rs:1946-1971 | the head and linked continuations of an oversized row |
| `Compaction.PackIsExact` | src/backend/core/table.rs:1934-1991 | every live row is on exactly the page its location names, in id order |
| `Compaction.CompactionSpaceBound` | src/backend/core/table.rs:1934-1991 | no bytes are lost and n pages hold more than floor(n/2) page sizes |
| `Compaction.OversizedRowsOwnChains` | src/backend/core/table.rs:1946-1971 | an oversized row keeps a chain of exactly ceil(size/page size) linked pages, whatever is packed later |
| `Pages.SpanIsCeiling` | src/backend/core/table.rs:1231-1262 | the number of pages a row spans is its size in pages, rounded up |
| `Compaction.ChainIsClosed` | src/backend/core/table.rs:168-170 | no page of such a chain has room for a row |
| `PageCache.EvictKeeps` | src/backend/core/table.rs:487-504 | eviction of a page that is written first or current on disk loses no row |
| `PageCache.LoadKeeps` | src/backend/core/table.rs:558-595 | a page that holds rows can be loaded, and loading changes no row |
| `PageCache.PlaceKeeps` | src/backend/core/table.rs:172-176 | appending adds exactly the new row |
| `PageCache.RewriteKeeps` | src/backend/core/table.rs:1328-1378 | changing a row on its page changes exactly that row |
| `PageCache.RegisterKeeps` | src/backend/core/table.rs:1117-1137 | a fresh page holds no located row and changes none |
| `PageCache.MisplacedIsLost` | src/backend/core/table.rs:1208-1226 | a row located on a page that has left is found nowhere |
| `CacheFailures.RollbackMissesEvictedPage` | src/backend/core/table.rs:2016-2029 | a run in which a rolled-back row survives on an evicted page |
| `CacheFailures.EvictionRevivesRolledBackRow` | src/backend/core/table.rs:487-504 | a run in which a saved page comes back unrolled after its eviction |
| `CacheFailures.VacuumLosesRow` | src/backend/core/table.rs:1883-1930 | a run in which the pages a vacuum loads push each other out and a row is lost |
| `CacheFailures.EmptiedTableComesBack` | src/backend/core/table.rs:356-363 | a run after which every new transaction reads a row whose deletion had committed and been vacuumed away |
| `Eviction.OldestNested` | src/backend/core/table.rs:473-485 | sets of least recently used pages are nested: eviction has no choice |
| `Eviction.ShedRound` | src/backend/core/table.rs:517-556 | one round evicts the least recently used unpinned page, keeps every row and counts bytes modulo 2^64 |
| `Eviction.SurvivesIff` | src/backend/core/table.rs:517-556 | an unpinned page survives the loop if and only if less recently used ones suffice |
| `CacheRuns.CacheStepRefines` | src/backend/core/table.rs:487-671 | every cache step, under the exact condition it needs, does to the rows what it means |
| `CacheRuns.CacheRunRefinesMap` | src/backend/core/table.rs:1117-1378 | over any run the table's rows are those of a plain map under the same writes |
| `CacheRuns.StepKeepsLeaving` | src/backend/core/table.rs:487-504 | pages may leave freely after every step, except exactly after a rollback that changed a clean saved page |
| `CacheRuns.ShutForever` | src/backend/core/table.rs:168-170 | until the table is repacked no row is ever put on a page of an oversized row's chain |
| `CacheRuns.LargeInsertIsARun` | src/backend/core/table.rs:1231-1262 | inserting an oversized row is a run of allowed steps that adds the row and builds its chain of linked, closed pages |
| `CacheRuns.QuietRunKeepsOrder` | src/backend/core/table.rs:1173-1226 | while nothing is evicted, rows stay in id order along the pages |
| `TableMaintenance.FlushKeeps` | src/backend/core/table.rs:622-671 | flushing changes no row and leaves the cache sound |
| `TableMaintenance.FlushWrites` | src/backend/core/table.rs:622-671 | every resident page is afterwards in the file and clean, other pages of the file as they were |
| `TableMaintenance.RestartKeeps` | src/backend/core/table.rs:347-373 | a flushed table that has rows, or left none behind, restarts to the same rows |
| `TableMaintenance.EmptyRestartShows` | src/backend/core/table.rs:356-363 | an emptied table restarts to the rows of leftover pages |
| `TableMaintenance.RestartPreservesViewIff` | src/backend/core/table.rs:347-373 | restart preserves the rows if and only if some row is located or no leftover page holds rows |
| `TableMaintenance.RollbackUndoesIff` | src/backend/core/table.rs:2008-2030 | rollback undoes the transaction everywhere if and only if it left nothing on evicted pages |
| `TableMaintenance.RollbackKeepsLeavingIff` | src/backend/core/table.rs:2016-2029 | every page may still leave memory after a rollback if and only if it changed no clean saved page |
| `TableMaintenance.EvictAfterRollbackIff` | src/backend/core/table.rs:487-504 | evicting a page after a rollback keeps the rows if and only if the rollback did not make its disk copy stale |
| `TableMaintenance.VacuumKeepsCache` | src/backend/core/table.rs:1883-2006 | a vacuumed table is sound, fully resident and in id order along its pages |
| `TableMaintenance.VacuumPrunesIff` | src/backend/core/table.rs:1864-2006 | pruning and repacking the resident pages does to the table what pruning does to its rows if and only if every surviving row is resident; otherwise rows are lost but none is altered |
| `TableMaintenance.PackRowsShows` | src/backend/core/table.rs:1910-2006 | repacking shows exactly the rows drained, sound, resident and in id order along the pages |
| `Vacuum.BroughtInKeeps` | src/backend/core/table.rs:558-595 | bringing a page in, with the evictions that takes, changes no row and leaves the page resident |
| `Vacuum.JustUsed` | src/backend/core/table.rs:558-595 | the page asked for, resident or not, becomes the most recently used, the others that stay keep their order |
| `Vacuum.JustUsedIsSpared` | src/backend/core/table.rs:473-485 | it is the next to be evicted only if there is no other page |
| `Vacuum.BroughtInCounts` | src/backend/core/table.rs:558-595 | the bytes of a loaded page are counted and those of the pages evicted for it taken off, modulo 2^64, until the limit is met or only it is left |
| `Vacuum.VacuumOutcome` | src/backend/core/table.rs:1883-1908 | a whole vacuum under any limit, index lookups included: the rows are exactly the pruned rows if and only if every row was resident and pruned when repacking started; no row is invented, one that is there is as it was or pruned |
| `Vacuum.VacuumReachesIff` | src/backend/core/table.rs:917-929 | without indexes that is: every row that keeps a version is resident once all pages were asked for |
| `Vacuum.VacuumCompletesResident` | src/backend/core/table.rs:917-929 | without a limit, or with every page resident beforehand, it always is |
| `Engine.VacuumedRowsReadTheSame` | src/backend/core/table.rs:1883-1908 | a row that is still there after any vacuum reads as before to every transaction |
| `PagedTable.Table.PickVictim` | src/backend/core/table.rs:473-485 | the least recently used unpinned page, none only if there is no other |
| `PagedTable.Table.FlushAndEvict` | src/backend/core/table.rs:487-504 | the page leaves, written first if dirty or not on disk |
| `PagedTable.Table.MaybeEvict` | src/backend/core/table.rs:517-556 | the loop is the function that evicts the least recently used unpinned page until the limit is met; it ends within the limit or with only the pinned page, no page more than needed leaves, and no row is lost |
| `PagedTable.Table.EnsureResident` | src/backend/core/table.rs:558-595 | the page is resident with its current contents, rows unchanged, and nothing moves if it was there already |
| `PagedTable.Table.PageForRow` | src/backend/core/table.rs:1295-1304 | finds the page of every stored row and fails for no other; the page is then the most recently used |
| `PagedTable.Table.GetRow` | src/backend/core/table.rs:1380-1387 | reading through the cache reads the plain map |
| `PagedTable.Table.DeleteRow` | src/backend/core/table.rs:1328-1341 | the rows change as in the transaction model |
| `PagedTable.Table.UpdateRow` | src/backend/core/table.rs:1343-1378 | the rows change as in the transaction model |
| `PagedTable.Table.RegisterPage` | src/backend/core/table.rs:1117-1137 | exactly when the fresh page is still there afterwards |
| `PagedTable.Table.InsertIntoPage` | src/backend/core/table.rs:1173-1226 | stored exactly when the tail has room or a fresh page survives, on the tail if it has room, else on the fresh page, which is then the most recently used |
| `PagedTable.Table.InsertOverflow` | src/backend/core/table.rs:1231-1262 | a chain of as many pages as the row spans, each resident page of it as the chain has it: head, links, continuations; stored exactly when the head survives |
| `PagedTable.Table.InsertRow` | src/backend/core/table.rs:1264-1293 | exactly when the row is stored; otherwise it is lost and the contents are unchanged |
| `PagedTable.FirstPageOpensIff` | src/backend/core/table.rs:1117-1137 | on an empty table: exactly when the memory limit admits an empty page |
| `PagedTable.Table.PersistDirty` | src/backend/core/table.rs:597-620 | dirty pages are on disk as they are, with the locations; other pages of the file and the rows unchanged |
| `PagedTable.Table.FlushAll` | src/backend/core/table.rs:622-671 | the file holds every page, resident ones clean, and every page may leave again |
| `PagedTable.Table.RollbackTransaction` | src/backend/core/table.rs:2008-2030 | rolls back the rows of resident pages; exactly when that undoes the transaction, and exactly when pages may still leave |
| `PagedTable.Table.MaterializeAll` | src/backend/core/table.rs:917-929 | every page asked for in page order, rows unchanged; all resident without a limit or if none was missing |
| `PagedTable.Table.PruneResident` | src/backend/core/table.rs:1864-1897 | loads, version pruning and the lookups of index pruning, up to what repacking finds in memory |
| `PagedTable.Table.Compact` | src/backend/core/table.rs:1910-2006 | exactly the rows with versions on resident pages, repacked |
| `PagedTable.RebuildRuntime` | src/backend/core/table.rs:407-440 | page and LRU maps over the new pages, and the saturating sum of their bytes |
| `PagedTable.Table.Vacuum` | src/backend/core/table.rs:1883-1908 | the vacuum function of the state before, index lookups included: sound, resident, in id order and on disk; exactly when the rows are the pruned rows, and that a row there is as it was or pruned |
| `PagedTable.Table.RestoreFromDisk` | src/backend/core/table.rs:347-373 | the restarted cache |
| `PagedTable.RebuildLocations` | src/backend/core/table.rs:356-363 | each row is located on the last page of the file that holds it |
| `PageBytes.LeRoundTrip` | src/backend/core/page_store.rs:45-95 | little-endian numbers read back |
| `PageBytes.LeastFirst` | src/backend/core/page_store.rs:45-95 | byte i of a number counts 256^i times |
| `PageBytes.HeaderRoundTrip` | src/backend/core/page_store.rs:45-95 | a written header reads back, whatever follows it |
| `PageBytes.HeaderLayout` | src/backend/core/page_store.rs:45-59 | which bytes of the header hold the letters ANTPG, the version and each of the three numbers |
| `PageFile.FrontKept` | src/backend/core/page_store.rs:469-485 | appends leave the bytes before them alone |
| `PageFile.ReadBack` | src/backend/core/page_store.rs:254-264 | every write of a chain of appends reads back |
| `PageFile.LegacyOpens` | src/backend/core/page_store.rs:156-166 | a file with an index in the older form opens to its pages, without row locations |
| `PageFile.OpensIff` | src/backend/core/page_store.rs:183-240 | which files open |
| `PageFile.MergeRefines` | src/backend/core/page_store.rs:451-510 | a merge stands for updating the page map, records stay apart and in bounds |
| `PageFile.MergeTiles` | src/backend/core/page_store.rs:469-502 | a merge leaves no gaps: records end to end from the append offset, then the index; a fresh store appends right behind the header |
| `PageCrash.MergeIsCrashAtomic` | src/backend/core/page_store.rs:451-510 | a merge cut short anywhere before its header write leaves exactly the old pages if and only if the file had a header or nothing was written |
| `PageTorn.TornHeaderOpensIff` | src/backend/core/page_store.rs:45-59 | a header torn after any of its five pieces: the old store exactly after at most two, the new one exactly after five |
| `PageTorn.TornHeaderEndangers` | src/backend/core/page_store.rs:45-59 | in between: the new pages under the old append offset, where the next merge overwrites them |
| `PageCrash.SamePrefixSameStore` | src/backend/core/page_store.rs:183-240 | bytes past the append offset do not matter |
| `PageCrash.RecordReadsBackIff` | src/backend/core/page_store.rs:469-485 | a record reads back if and only if its length fits 32 bits |
| `PageCrash.CompactRefines` | src/backend/core/page_store.rs:266-381 | a compact file holds exactly the given pages |
| `PageCrash.CompactTiles` | src/backend/core/page_store.rs:266-381 | a compact file has no gaps |
| `PageRuns.FileRunRefinesMap` | src/backend/core/page_store.rs:266-523 | after any history of merges, crashes and compact rewrites the file opens and every page reads back as last completed |
| `PageStore.AppendPages` | src/backend/core/page_store.rs:469-485 | the loop's writes and locations |
| `PageStore.Publish` | src/backend/core/page_store.rs:469-502 | records, then index, then header |
| `PageStore.Store.LoadState` | src/backend/core/page_store.rs:210-240 | the in-memory state is the file's |
| `PageStore.Store.ReadPage` | src/backend/core/page_store.rs:512-523 | the last page written under the id, or none |
| `PageStore.Store.MergePages` | src/backend/core/page_store.rs:451-510 | the page map is updated and the file changes only as a merge does |
| `PageStore.Store.WriteAll` | src/backend/core/page_store.rs:327-381 | the page map is replaced |
| `SearchExpressions.LookupIsTheCondition` | src/backend/core/search.rs:219-258 | a recognised equality lookup says exactly what the condition evaluates to |
| `SearchExpressions.RecognisedIff` | src/backend/core/search.rs:240-260 | exactly a single equality between a column and a literal, on either side, is recognised as a lookup |
| `SearchExpressions.OrderIsTotal` | src/backend/core/search.rs:175-184 | the order behind comparisons is total and strict |
| `SearchExpressions.ComparisonsComplement` | src/backend/core/search.rs:175-184 | each comparison is the negation of its opposite, and the mirror image of the one with sides exchanged |
| `Conditions.IntegersCompare` | src/backend/core/search.rs:175-184 | integers of one type compare as numbers, under all six operators |
| `Conditions.TimestampsCompare` | src/backend/core/search.rs:175-184 | timestamps compare as numbers |
| `Conditions.BooleansCompare` | src/backend/core/search.rs:175-184 | false is below true |
| `Conditions.TextsCompare` | src/backend/core/search.rs:175-184 | a text is below another if and only if it is a proper prefix of it or smaller at the first character that differs |
| `Conditions.BytesCompare` | src/backend/core/search.rs:175-184 | byte strings compare in the same way |
| `Conditions.NullIsLeast` | src/backend/core/search.rs:175-184 | NULL equals only itself and is below everything else |
| `Conditions.KindsCompare` | src/backend/core/row.rs:41-61 | values of different kinds compare by kind alone, in the order in which the kinds are declared |
| `Conditions.ComparisonIsTransitive` | src/backend/core/search.rs:175-184 | the order is transitive across kinds |
| `Conditions.ColumnComparison` | src/backend/core/search.rs:226-230 | a column against a literal integer, on either side, compares the row's number with it |
| `Conditions.AtomsMean` | src/backend/core/search.rs:192-230 | as a condition a value must be a boolean and a column must exist; a condition cannot be a side of a comparison |
| `Conditions.ConnectivesMean` | src/backend/core/search.rs:231-235 | AND, OR and NOT are true, and false, exactly when their operands say so; a side that is not needed cannot make them fail |
| `Conditions.DeMorgan` | src/backend/core/search.rs:231-235 | negating AND and OR exchanges them, errors included |
| `ScanOrder.ScanMeetsAll` | src/backend/core/table.rs:812-842 | a full scan meets every row |
| `ScanOrder.ScanAllInOrder` | src/backend/core/table.rs:812-842 | a full scan meets rows page by page and never twice |
| `ScanOrder.ScanIsSortedIff` | src/backend/core/table.rs:812-842 | a scan meets rows in id order if and only if later rows are never on earlier pages |
| `ScanOrder.CollectScan` | src/backend/core/table.rs:812-842 | pages ascending, rows ascending within a page |
| `RowOrder.BeforeIff` | src/backend/core/table.rs:1808-1829 | the first ORDER BY column in which two rows differ decides, upwards or downwards as it asks |
| `RowOrder.ArrangedInTurn` | src/backend/core/table.rs:1808-1829 | ORDER BY returns every row found once, in that order, ties in the order they were found |
| `RowOrder.OnlyArrangement` | src/backend/core/table.rs:1808-1829 | and no other arrangement does |
| `RowOrder.Unordered` | src/backend/core/table.rs:1808 | without ORDER BY rows stay as found |
| `AccessPaths.MatchRows` | src/backend/core/table.rs:1754-1807 | the rows that pass, in order, or the first error |
| `AccessPaths.MatchingIsHits` | src/backend/core/table.rs:1754-1807 | without errors exactly the passing rows |
| `AccessPaths.ScanReturnsExactly` | src/backend/core/table.rs:1755-1806 | a scan returns a row if and only if it is stored, visible and the filter is true of it, each once; without a filter it never fails |
| `AccessPaths.RowNames` | src/backend/core/table.rs:1755-1771 | a filter may name the visible columns in any case, an absent field being NULL, and nothing else |
| `AccessPaths.FirstFailure` | src/backend/core/table.rs:1755-1806 | a search fails as its filter does on the first row on which it fails, and only then |
| `AccessPaths.LookupCandidates` | src/backend/core/table.rs:1551-1577 | the visible rows under the key, none if the index does not know it, an error for the first unlocated row |
| `AccessPaths.IndexFindsSameRowsIff` | src/backend/core/table.rs:1551-1807 | both paths return the same rows if and only if the literal is not NULL or NULL is covered |
| `AccessPaths.IndexAgreesIff` | src/backend/core/table.rs:1551-1807 | the same sequence if and only if, besides, the rows found lie in id order along the pages |
| `AccessPaths.ChosenPathSameRowsIff` | src/backend/core/plan/optimize.rs:73-102 | wherever the rows lie, the planner's path finds the scan's rows, each once, if and only if NULL is covered |
| `AccessPaths.ChosenPathAgreesIff` | src/backend/core/plan/optimize.rs:73-102 | the exact condition for the same sequence |
| `AccessPaths.ChosenPathAgrees` | src/backend/core/plan/optimize.rs:73-102 | for a literal other than NULL and rows in id order along the pages the planner's choice never changes the result |
| `AccessPaths.PlannerRefusesIff` | src/backend/core/plan/optimize.rs:73-102 | the planner refuses exactly an equality on an unknown column, which a scan refuses too at every visible row |
| `AccessPaths.CountIsLength` | src/backend/core/table.rs:1597-1680 | COUNT(*), counted by its own loop over its own candidates, is the length of the planned search's unlimited result, errors included |
| `AccessPaths.CountIsScanned` | src/backend/core/table.rs:1597-1680 | where NULL is covered it is the number of rows a full scan finds |
| `AccessPaths.CountRows` | src/backend/core/table.rs:1606-1630 | the loop counts the passing rows or returns the first error |
| `AccessPaths.Count` | src/backend/core/table.rs:1597-1680 | refuses ORDER BY, picks candidates or the scan, and counts |
| `AccessPaths.Search` | src/backend/core/table.rs:1579-1860 | an unknown ORDER BY column is refused; otherwise candidates or scan, filter, ORDER BY, then OFFSET rows are skipped and at most LIMIT returned: element i is element OFFSET + i of the whole result |
| `SearchFailures.NullLookupMissesRow` | src/backend/core/table.rs:1551-1577 | a reachable table on which an equality with NULL finds a row by a scan and not through the index |
| `SearchFailures.IndexOrderDiffers` | src/backend/core/table.rs:1551-1807 | a reachable table on which the index path returns the scan's rows in another order |
| `SearchFailures.NullTableHides` | src/backend/core/table.rs:1551-1577 | a reachable table with a row that lacks the column and is not under the NULL key |
| `SearchFailures.NullProbeMissesRow` | src/backend/core/query.rs:287-366 | on such a table a join probe for NULL and the nested loop disagree |
| `Joins.BuildRowContext` | src/backend/core/query.rs:443-470 | the names a joined row answers to |
| `Joins.NewBindingNames` | src/backend/core/query.rs:443-470 | a new table answers to its alias and leaves other aliases alone |
| `Joins.BareNames` | src/backend/core/query.rs:443-470 | a bare name stands for the column of the one table that has it; if several have it, or none, for nothing |
| `Joins.ProbeIsEquality` | src/backend/core/search.rs:262-292 | for a probed left row the join condition is equality with the probe value |
| `Joins.ProbeJoinsSameRowsIff` | src/backend/core/query.rs:287-334 | wherever the rows lie: the probe joins the nested loop's right rows, each once, if and only if NULL is covered; in its order under the exact condition |
| `Joins.ProbeEqualsNestedLoop` | src/backend/core/query.rs:287-366 | for a non-NULL value, an existing column and rows found in id order along the pages, the probe branch yields the nested loop's rows in order |
| `Joins.ProbeYieldsSameRows` | src/backend/core/query.rs:287-366 | for a non-NULL value and an existing column it yields the nested loop's rows, wherever they lie: the same multiset |
| `Joins.ProbeEqualsNestedLoopIff` | src/backend/core/query.rs:287-366 | the exact condition for the same rows in the same order, padding included |
| `Joins.JoinIsNestedLoop` | src/backend/core/query.rs:247-370 | a whole join is the nested loop: the same rows in the same order, or the same error |
| `Joins.JoinYieldsSameRows` | src/backend/core/query.rs:247-370 | wherever the right rows lie, a whole join fails as the nested loop does and yields the same multiset of rows |
| `Joins.NestedLoopYields` | src/backend/core/query.rs:338-366 | for one left row: itself beside each visible right row with which the join's condition holds, once each; if there is none, beside a row without fields for LEFT OUTER, and nothing otherwise |
| `Joins.SharedMatchIff` | src/backend/core/query.rs:401-434 | USING goes by the first named column on which the two do not agree: no match if both have it, an error if one lacks it, a match if there is none |
| `Joins.UsingMatches` | src/backend/core/query.rs:401-434 | where both have every named column: a match exactly if the fields are equal in all of them, and no error |
| `Joins.UsingYields` | src/backend/core/query.rs:336-434 | a USING join of such tables joins exactly the visible right rows that share every named column, and never fails |
| `Joins.CrossMeetsAll` | src/backend/core/query.rs:264-280 | CROSS joins a left row with every visible right row and never fails |
| `Joins.LeftRowsInOrder` | src/backend/core/query.rs:282-370 | the rows of a join are those of its left rows, one left row after the other |
| `Joins.ProbeRefuses` | src/backend/core/query.rs:285-300 | a probe for a column the right table lacks is refused, as the condition is at every visible right row |
| `Joins.OuterKeepsLeftRow` | src/backend/core/query.rs:338-366 | LEFT OUTER keeps a left row once per joining right row, or exactly once with an empty right side |
| `Joins.OuterJoinKeepsLeftRow` | src/backend/core/query.rs:287-366 | the same of the operation itself, probed or not, wherever the right rows lie |
| `Joins.LookupRowsByColumnValue` | src/backend/core/table.rs:1470-1499 | index candidates or a filtered scan |
| `Joins.JoinCandidates` | src/backend/core/query.rs:305-334 | the block of one left row, padded if empty |
| `Joins.ApplyJoin` | src/backend/core/query.rs:247-370 | the blocks of all left rows in order, or the first error |
| `CopyText.EscapeCopyField` | src/backend/core/copy.rs:227-243 | the field as the format writes it, character by character |
| `CopyText.SplitCopyFields` | src/backend/core/copy.rs:186-225 | the fields the line stands for in the format |
| `CopyText.SplitIsDenoted` | src/backend/core/copy.rs:186-225 | in the format, described piece by piece (control letters, octal codes, escaped and plain characters, delimiters), a line stands for the fields the splitter reads and no others |
| `CopyText.WrittenFieldsDenote` | src/backend/core/copy.rs:186-243 | with a plain delimiter, fields written as the format says stand for themselves and nothing else |
| `CopyText.FieldsRoundTripIff` | src/backend/core/copy.rs:186-243 | escaping, joining and splitting returns every list of fields if and only if the delimiter is plain |
| `CopyText.RawReadsIff` | src/backend/core/copy.rs:186-225 | an unescaped null string reads as itself if and only if it has no backslash and no delimiter |
| `CopyValues.IntRoundTrip` | src/backend/core/copy.rs:278-355 | integers of every width print and parse back |
| `CopyValues.IntegerReadsIff` | src/backend/core/copy.rs:295-334 | a text is read as a number if and only if it is its digits by place value, perhaps after a sign, a minus only for signed types, and in range |
| `CopyValues.Ranges` | src/backend/core/copy.rs:295-334 | the ranges of the ten types |
| `CopyValues.BooleanWords` | src/backend/core/copy.rs:288-294 | four words each for true and false, in any case, and nothing else |
| `CopyValues.FieldReads` | src/backend/core/copy.rs:278-355 | the null string reads as NULL in any column, integers as they are spelt, texts as they are |
| `CopyValues.Rendered` | src/backend/core/copy.rs:245-276 | booleans are written as t and f, integers in decimal without leading zeros, texts as they are |
| `CopyValues.ValueRoundTripIff` | src/backend/core/copy.rs:245-355 | a value survives if and only if its text is not the null string |
| `CopyCodec.LinesRoundTrip` | src/backend/core/copy.rs:99-143 | lines without breaks survive joining and splitting |
| `CopyCodec.LineBreaks` | src/backend/core/copy.rs:116 | a line ends at a line feed, a carriage return before it belongs to the break |
| `CopyCodec.FieldsMustMatch` | src/backend/core/copy.rs:125-132 | a line that stands for another number of fields than there are columns is refused, with both numbers |
| `CopyCodec.EncodeCopyPayload` | src/backend/core/copy.rs:145-184 | the loop writes the header and one line per row |
| `CopyCodec.ParseCopyRows` | src/backend/core/copy.rs:99-143 | the loop parses every non-empty line or returns the first error |
| `CopyRoundTrip.CopyRoundTripIff` | src/backend/core/copy.rs:99-276 | parsing the payload returns the rows if and only if there are none, or two or more columns, or one column that is never written as nothing and whose header, if written, has a name |
| `CopyRoundTrip.CopyRoundTrip` | src/backend/core/copy.rs:99-276 | with two or more columns it always does |
| `CopyRoundTrip.LineSplits` | src/backend/core/copy.rs:167-181 | a written line has one field per column, in order: the rendered value, or the null string |
| `CopyRoundTrip.DefaultNullIsMisread` | src/backend/core/copy.rs:186-225 | the default null string comes back as the text N |
| `Connections.StepKeepsAccounts` | src/backend/core/pg_wire.rs:414-525 | every step keeps each active id held by exactly one connection |
| `Connections.OthersUntouched` | src/backend/core/pg_wire.rs:414-525 | a step leaves other connections alone |
| `Connections.ActiveIsOwned` | src/backend/core/pg_wire.rs:399-525 | after any interleaving the active set is exactly the owned ids plus those of running auto-commit statements, disjoint and owned once |
| `Connections.OnlyActiveIdsAct` | src/backend/core/pg_wire.rs:414-525 | every write, commit and rollback names an active id: none ends twice |
| `Connections.ErrorLeaksNothing` | src/backend/core/pg_wire.rs:500-525 | a failed statement leaves no transaction behind and rolls its rows back |
| `Connections.WriteIsOwn` | src/backend/core/pg_wire.rs:500-525 | a write inside a statement is read by its own transaction, at the row it names, and changes no other read |
| `Connections.CommitPublishes` | src/backend/core/pg_wire.rs:440-451 | after COMMIT every other transaction, active or later, reads what the block's transaction read, except rows it has written itself |
| `Connections.RollbackWithdraws` | src/backend/core/pg_wire.rs:460-471 | after ROLLBACK every other transaction reads what it read before |
| `Connections.StatementEnds` | src/backend/core/pg_wire.rs:500-525 | a successful statement outside a block is committed, a failed one withdraws its transaction's writes, a successful one inside a block changes nothing |
| `Connections.UncommittedLeavesNoTrace` | src/backend/core/pg_wire.rs:460-525 | after ROLLBACK, after a failed statement and after a successful one inside a block, everyone else reads what they would have read without the transaction's writes |
| `Connections.PgWireHandler.CreateConnectionTransaction` | src/backend/core/pg_wire.rs:414-431 | begins and owns a transaction, or refuses |
| `Connections.PgWireHandler.CommitConnectionTransaction` | src/backend/core/pg_wire.rs:440-451 | commits and disowns, after which every other transaction reads what the committed one read, or refuses |
| `Connections.PgWireHandler.RollbackConnectionTransaction` | src/backend/core/pg_wire.rs:460-471 | rolls back and disowns, after which every other transaction reads what it read before, or refuses |
| `Connections.PgWireHandler.TransactionForQuery` | src/backend/core/pg_wire.rs:480-491 | the block's transaction, or a new one that ends with the statement |
| `Connections.PgWireHandler.FinishStatement` | src/backend/core/pg_wire.rs:500-525 | publishes the writes of a successful statement outside a block, leaves the database as it is inside one, withdraws the whole transaction of a failed one |
| `Engine.EngineStepKeeps` | src/backend/core/table.rs:1264-1378 | every operation keeps pages, chains and simple store in agreement |
| `Engine.PagedReadsAreSimpleReads` | src/backend/core/table.rs:1295-1304 | in every run a read through a page is a read of the simple store |
| `Durable.StepStaysBacked` | src/backend/core/table.rs:455-465 | every cache step keeps the bytes of the file in agreement with what the cache takes to be on disk |
| `Machine.MachineStepKeeps` | src/backend/core/table.rs:1264-1378 | every operation keeps engine, indexes and file in agreement |
| `Machine.ReachableIsSound` | src/backend/core/table.rs:1551-1577 | in every reachable state locations are exact and every index is complete |
| `Machine.ReachableSearchesAgree` | src/backend/core/plan/optimize.rs:73-102 | in every reachable state the planner's path finds the scan's rows and COUNT(*) counts them |
| `Machine.ReachableJoinsAgree` | src/backend/core/query.rs:247-370 | in every reachable state a join yields the nested loop's rows, or fails as it does |
| `Machine.QuietSearchesAgree` | src/backend/core/plan/optimize.rs:73-102 | while nothing was evicted or restarted it returns the scan's very sequence |
| `Machine.UniqueSearchesAgree` | src/backend/core/plan/optimize.rs:73-102 | on a column whose values the transaction sees only once it does so wherever the rows lie |
| `Machine.VacuumIsInvisible` | src/backend/core/table.rs:1862-2006 | vacuum of versions, indexes and pages together: no read changes, locations stay exact, no index entry dangles |
| `Machine.FileStaysReadable` | src/backend/core/page_store.rs:183-240 | at every point of every run the file opens to the pages and locations the cache relies on |

## Left out

- Wire protocol messages, statement dispatch, COPY sessions and SHOW TABLES: input and output.
- SQL parsing and binding, DML literals, timestamps and coercion: thin translation, mostly single-branch facts.
- Row loops of DELETE, UPDATE and INSERT execution: they repeat search and the row operations.
- Floating-point values: equal zeros have different index keys.
- COPY of bytes and timestamps, binary COPY and UTF-8 decoding: text is a sequence of characters.
- bincode, the hasher and row sizes are parameters: an encoder with a decoder that undoes it, any hash function,
  a positive size per row and any byte count per page.
- Identifier counters, page byte counts and row ids are unbounded numbers; only the memory counter wraps at 2^64,
  and the 2^32 record length is truncated as in the code.
- Lock interleavings inside one operation, lock poisoning, I/O errors, logging and configuration.
- A tear inside one of the five pieces of the header; everything before the header may be torn at any byte.
- PageFile.MergeRefines: this and the page-file runs assume non-empty records shorter than 2^32 and header fields
  within their widths; distinct page ids in one merge come from the ordered map the code passes.
- Several tables: rows of all tables form one map of version chains; indexes are treated column by column.
- Column versions, CREATE/DROP INDEX, foreign keys, CHECK and AUTO_INCREMENT: each column has one visible version.
- PagedTable.Table.InsertOverflow: the location of an oversized row is recorded before its continuation pages
  instead of after them, which only an eviction that saves the location map in between could tell.
- PagedTable.Table.InsertIntoPage: the second attempt on the tail page is left out; without concurrency it
  repeats the first.
- PagedTable.Table.Vacuum: the rows index pruning looks up are a parameter; which entries it removes is in
  `IndexedStore`. The vacuum step of the cache runs is one whose lookups evict nothing.
- The set of evicted page ids: the code writes it and never reads it.
- AccessPaths.Search: returns rows with all the data read; picking and naming the projected columns is left out.
- Joins.ApplyJoin: WHERE, ORDER BY and LIMIT after the joins are left out, as is COUNT(*) over joins, which the
  code ignores; names are pairs of alias and column, so a dot inside a quoted identifier is not modelled.
- PagedTable.Table.InsertRow: validation and index maintenance of the same function are in `IndexedStore` and `Machine`.
- PagedTable.Table.UpdateRow: validation and index maintenance of the same function are in `IndexedStore` and `Machine`.
- PagedTable.Table.RollbackTransaction: the rollback of the column indexes in the same function is in `ColumnIndex`.
- PagedTable.Table.MaterializeAll: promises residency only without a limit or if no page was missing, because a
  smaller limit evicts pages while others are loaded.
- IndexTheorems.VacuumIsInvisible: speaks of versions and index; pages and compaction are in `Machine.VacuumIsInvisible`.
- CopyCodec.EncodeCopyPayload: rows hold NULL, boolean, integer and text values only.
- CopyCodec.ParseCopyRows: columns have boolean, integer and text types only.
- Crashes of the whole engine: the file survives them as stated, but there is no log, so what was not written is gone.
- Connections.StepKeepsAccounts: a connection runs one statement at a time.
