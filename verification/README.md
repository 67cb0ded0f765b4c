# Verified model of the B+ tree storage engine

This project models the storage engine of the repository, and two functions of its planner, in Dafny,
and proves what they promise. Its parts, from the files up:

- **Bytes** (`LittleEndian`, `Headers`, `PageBytes`, `SlottedPage`, `HeapPages`, `WalRecords`):
  headers, slotted pages, heap pages and log records as bytes, changed in place in arrays, with round trips
  and with proofs that they stand for the pages and records the other parts use.
- **Log** (`WalLog`, `LogRefinement`): the log file and its buffer, flushes up to an LSN, readers in both
  directions, reopening; and that the bytes stand for the log that recovery works on.
- **Pages** (`BufferPool`, `PageFile`, `Heap`): the pool with pins and least-recent-use eviction, page files
  behind it, and chains of heap pages.
- **Tree** (`IndexPages`, the files beginning with `Tree`, `BplusTree`): the B+ tree as an object over a map
  of pages. A ghost map gives each page of the tree a key range and a height. "In order" means: sorted cells
  inside the range, children that cover the parts of the range, disjoint ranges on each level, leaves linked
  to the leaf where their range ends, the true least numbers of cells, a root that covers every key.
- **Recovery** (`Records`, the files beginning with `Engine`, `CrashSafety`, `RedoReplay`, `Checkpoints`,
  `Overwrites`, `ReusedIds`, `Unrepairable`, `BlindPages`, `Scenarios`, `Pager`): the engine as a state machine over
  log, pool and files, with theorems over all of its runs, and the recovery loops as methods that carry out its
  steps.
- **Planner** (`Like`, `Values`, `Rounding`): the LIKE matcher, and the order of mixed values.

`dafny verify dfyconfig.toml` checks everything.

## Conditions, and where the code is weaker than its comments

Crash safety needs three conditions on the callers. In the state machine, `Possible` says what the program itself
can do, and `Enabled` adds the three: `RespectsWrites`, `RespectsIds`, `RespectsUndo`. For each there is a run in
which it is broken and recovery leaves a byte wrong, and the exact extent of the damage over all runs.

- No transaction overwrites a byte last written by another open one. Without it, recovery is right about
  exactly the bytes that no kept record overwrote after a loser, up to coinciding values
  (`RightUnlessClobbered`; run: `CommitOverwritten`).
- Transaction ids are not used again after Commit or Abort. Without it, recovery rolls back exactly the ended
  transactions whose id was used again and left open (`RolledBackAlthoughEnded`; run: `CommitUndone`).
- After a recovery, pages that undo changed and redo did not are written before normal work resumes.
  `recover` leaves them dirty with recLSN 0, so that the next change sets a recLSN beyond the compensation
  record. Resuming is safe if and only if there is no such page (`ResumeIsSafeIff`; run: `BlindPageReached`).

An abort only logs: a transaction with an Abort record counts as ended, not as rolled back
(src/storage/engine/bplus_tree/wal.rs:317-322). Recovery's own aborts follow the compensation of every update.

The comments of the tree say that a page never overflows and that the first key of a leaf is its separator.
The code is modelled as it is: an internal merge of 101 and 102 cells fails, an internal page can rest with 203
cells after a merge of 203, and a later split below it fails. `Insert` and `Delete` say exactly when that happens
and what lookups then find. `MergeLimits` gives the one failing pair, and `TreeLimits` holds trees in order on
which it happens. In a tree that has seen only insertions none of this happens.

Records inserted into a heap page with the primary flag set are appended to the chain at its pointer, which is
page 0 on a new page (`FlaggedPageRoundTrip`, `PrimaryMisplaces`).

## Model

| member | source | states |
|---|---|---|
| `CrashSafety.RecoveryIsCorrect` | src/storage/engine/bplus_tree/pager.rs:222-371 | For every run of the storage engine from a fresh database that meets the conditions above, with begins, logged updates, commits, aborts, checkpoints, log flushes, page flushes, evictions and crashes in any order: when the system is down at one moment and a recovery has finished at a later one, however often it was interrupted by further crashes, every byte of every page equals replaying, from the log that was durable at the first moment, only transaction 0 and the transactions with a durable Commit or Abort |
| `CrashSafety.StepTracks` | src/storage/engine/bplus_tree/pager.rs:195-371 | Every step, also one by which callers overwrite each other, keeps what is known of the whole state and of every byte: replayed, in the redo range, or a loser's, according to the phase |
| `CrashSafety.StepHolds` | src/storage/engine/bplus_tree/pager.rs:195-371 | Every enabled step, normal or of a recovery, keeps the invariant of the whole state and of every byte; no step of a recovery, and no crash in one, changes what the durable log demands of any byte |
| `CrashSafety.RecoverAgain` | src/storage/engine/bplus_tree/pager.rs:275-360 | A second completed recovery leaves every byte as the first one did, with any crashes between them, at any point of redo, undo, compensation or abort |
| `CrashSafety.NothingToUndo` | src/storage/engine/bplus_tree/pager.rs:223-267 | After a completed recovery the analysis of the log finds no transaction to undo |
| `CrashSafety.CommitIsDurable` | src/storage/engine/bplus_tree/wal.rs:310-315 | Once a commit has returned, every record its transaction wrote is in the log file at every later moment of every run, and counts as effective |
| `CrashSafety.PageWrittenAfterLog` | src/storage/engine/bplus_tree/index.rs:89-166 | Whenever a dirty page goes to its file, by flush or eviction, all records up to its page LSN are in the log file, and in normal operation so is every record that ever touched the page |
| `CrashSafety.RunHolds` | src/storage/engine/bplus_tree/pager.rs:195-371 | The invariant holds after any number of steps of any run |
| `CrashSafety.LogKept` | src/storage/engine/bplus_tree/wal.rs:387-448 | The log file only grows, over any part of any run, crashes included |
| `RedoReplay.RedoIsFullReplay` | src/storage/engine/bplus_tree/pager.rs:269-323 | Stop any run at any moment of normal operation, by a crash or in the middle of a checkpoint, and let analysis and redo happen with any page traffic before and between: although redo starts at the oldest recLSN and repeats records already on disk, every byte then equals replaying the whole durable log from the allocated pages |
| `RedoReplay.StopIsRedoing` | src/storage/engine/bplus_tree/pager.rs:195-267 | At such a stop every byte on disk is as the durable log has it, or lies in the range that redo will write |
| `Records.UndoneIsEffective` | src/storage/engine/bplus_tree/pager.rs:325-353 | When no transaction overwrites bytes of another open one, putting back the before-images of all losers over the full replay gives exactly the replay of the kept records |
| `EngineLog.LosersAreOpen` | src/storage/engine/bplus_tree/pager.rs:223-267 | Analysis from the last checkpoint finds as losers exactly the transactions that appear in the log and have no Commit or Abort |
| `EngineLog.RedoableIsInRedo` | src/storage/engine/bplus_tree/pager.rs:243-267 | A record is redone exactly when its page is in the checkpoint table with no greater recLSN, or first appears after the checkpoint |
| `EngineRecover.RedoTracks` | src/storage/engine/bplus_tree/pager.rs:275-323 | Repeating one record in redo keeps the invariant: a byte is right, or still in the redo range, or a loser's |
| `EngineRecover.UndoTracks` | src/storage/engine/bplus_tree/pager.rs:325-353 | Undoing one record with its compensation record keeps the invariant, whether or not earlier recoveries undid it already |
| `EngineRecover.CompensationReplays` | src/storage/engine/bplus_tree/pager.rs:329-353 | Replaying a log with one more compensation record gives what undoing from one record further back gives |
| `EngineEnd.EndKeepsEffect` | src/storage/engine/bplus_tree/pager.rs:355-360 | Logging the Abort of a loser whose updates are all compensated changes the demanded content of no byte |
| `EngineFlush.WriteBackTracks` | src/storage/engine/bplus_tree/index.rs:152-166 | Forcing the log up to the page LSN and then writing the page keeps the invariant in every phase |
| `EngineUp.CheckpointTracks` | src/storage/engine/bplus_tree/pager.rs:195-220 | A fuzzy checkpoint in the middle of anything keeps the invariant: recovery may start from it |
| `Pagers.PageDiff` | src/storage/engine/bplus_tree/pager.rs:372-389 | None exactly for equal pages; otherwise the tightest range: it begins and ends with differing bytes, and splicing the new bytes in, or the old ones back, gives the one page from the other |
| `Pagers.Pager.Recover` | src/storage/engine/bplus_tree/pager.rs:222-371 | The recovery loops, over the fields of the pager, carry out a run of recovery steps: from any crashed state that keeps the invariant, with any clean pages already fetched, they end recovered, every byte is what the durable log demands, and the report gives the number of records in the redo range, the number of updates by transactions left open, and exactly these transactions |
| `Pagers.Pager.AnalysisPass` | src/storage/engine/bplus_tree/pager.rs:223-267 | The analysis loop over the log computes the tables that the scan from the checkpoint defines |
| `Pagers.Pager.RedoPass` | src/storage/engine/bplus_tree/pager.rs:269-323 | The redo loop keeps the invariant, ends at the start of undo, and counts exactly the redoable records |
| `Pagers.Pager.UndoPass` | src/storage/engine/bplus_tree/pager.rs:325-353 | The backward loop keeps the invariant, ends with every loser's update compensated, and counts exactly these updates |
| `Pagers.Pager.AbortLosers` | src/storage/engine/bplus_tree/pager.rs:355-360 | Every loser gets its Abort, in whatever order, and the demanded content of every byte stays |
| `Pagers.ReportIs` | src/storage/engine/bplus_tree/pager.rs:243-371 | Of any log that keeps the invariant, the two counters of the recovery count each record once: those in the redo range, and the updates of the transactions left open |
| `Pagers.Pager.Update` | src/storage/engine/bplus_tree/pager.rs:153-193 | A page change through a guard and its logged difference is the update step of the state machine and keeps the invariant; an unchanged page logs nothing, a changed one exactly one record, whose images are the old and the new bytes of the tightest range outside which the page stays |
| `Pagers.Pager.FuzzyCheckpoint` | src/storage/engine/bplus_tree/pager.rs:195-220 | A checkpoint is the checkpoint step of the state machine and keeps the invariant; all that was buffered and one record more are in the log file, and that record lists exactly the dirty pages, each with its frame's recLSN, and the active transactions |
| `Checkpoints.CheckpointLists` | src/storage/engine/bplus_tree/pager.rs:195-220 | The record that a checkpoint writes at any point of any run lists exactly the dirty pages, each with the LSN of the first change logged, or repeated by redo, since its frame was fetched or last written to its file, or 0 if there was none; and exactly the transactions that the log leaves open, each with the LSN of its last record |
| `Checkpoints.RecLsnIsFirst` | src/storage/engine/bplus_tree/buffer_pool.rs:93-102 | At every moment of every run, a frame's recLSN is the LSN of the first such change since then, and 0 if there was none |
| `Checkpoints.RunActive` | src/storage/engine/bplus_tree/wal.rs:276-322 | At every moment of every run, the LSN kept for an active transaction is that of its last record in the log |
| `Pagers.Pager.CommitTransaction` | src/storage/engine/bplus_tree/wal.rs:310-315 | A commit is the commit step of the state machine and keeps the invariant; the log file then holds all that was logged, and the Commit last |
| `Pagers.Pager.AbortTransaction` | src/storage/engine/bplus_tree/wal.rs:317-322 | An abort is the abort step of the state machine and keeps the invariant; the log file then holds all that was logged, and the Abort last, and no page changes |
| `Pagers.Pager.FlushPageFrame` | src/storage/engine/bplus_tree/pager.rs:83-99 | A page flush is the flush step of the state machine and keeps the invariant; a dirty page is in its file afterwards, and every record up to its page LSN is in the log file |
| `Overwrites.RecoveryUndoes` | src/storage/engine/bplus_tree/pager.rs:269-360 | In every run whose callers overwrite each other at will, a recovery that no crash interrupts leaves every byte as undoing, over the full replay of the log it found, every update of every loser |
| `Overwrites.RightUnlessClobbered` | src/storage/engine/bplus_tree/pager.rs:325-353 | Such a recovery is right about every byte that no kept record overwrote after a loser, and about any other exactly when the before-image of the losers' first update is the content of the last kept write |
| `Overwrites.NotClobberedIsRecovered` | src/storage/engine/bplus_tree/pager.rs:325-353 | Over any log: undo over full replay gives what the log demands of each byte that no kept record overwrote after a loser |
| `Overwrites.ClobberedByte` | src/storage/engine/bplus_tree/pager.rs:325-353 | Over any log: on a byte that a kept record did overwrite after a loser, it gives the before-image of the losers' first update, where the log demands the last kept write |
| `Scenarios.CommitOverwritten` | src/storage/engine/bplus_tree/pager.rs:325-353 | A run, for any database, page and byte: transaction 2 overwrites a byte of the open transaction 1 and commits; after a crash the recovery restores transaction 1's before-image |
| `ReusedIds.LosersAreLeftOpen` | src/storage/engine/bplus_tree/pager.rs:223-267 | From any checkpoint whose table was true at its place, the losers are exactly the ids whose last record in the log is no Commit or Abort |
| `ReusedIds.ReusedIdIsRolledBack` | src/storage/engine/bplus_tree/pager.rs:223-267 | From any such checkpoint, an id with a Commit or Abort in the log is a loser if and only if it was used again afterwards and left open |
| `ReusedIds.RolledBackAlthoughEnded` | src/storage/engine/bplus_tree/pager.rs:223-267 | In every run of the program, with ids and writes chosen at will: whenever the system is down, the recovery that follows rolls back an ended transaction exactly when its id was used again and left open |
| `ReusedIds.StepTables` | src/storage/engine/bplus_tree/pager.rs:195-371 | Every step of the program, whatever its callers do, keeps the table of active transactions and the checkpoint in the header true of the log |
| `ReusedIds.CheckpointTables` | src/storage/engine/bplus_tree/pager.rs:195-220 | The table that a checkpoint writes is true at its place, ids reused or not |
| `ReusedIds.UndoReverts` | src/storage/engine/bplus_tree/pager.rs:325-353 | Undo reverts a record exactly when it is an update of an id that the log leaves open, also one written before that id's Commit |
| `Scenarios.CommitUndone` | src/storage/engine/bplus_tree/pager.rs:325-353 | A run, for any database, page and change: transaction 1 changes the page and commits, its id is begun again, the system crashes; the log demands the change and the recovery undoes it |
| `Unrepairable.UnrepairableStaysWrong` | src/storage/engine/bplus_tree/pager.rs:222-371 | When a crash finds a byte neither as the durable log has it, nor in the redo range, nor a loser's, no recovery run ever gets it right |
| `Unrepairable.RecoveryCompletes` | src/storage/engine/bplus_tree/pager.rs:222-371 | From every state in which the system is down, a recovery that is not interrupted completes |
| `BlindPages.ResumeIsSafeIff` | src/storage/engine/bplus_tree/pager.rs:329-371 | From a recovered state, resuming is safe if and only if no page is dirty with recLSN 0 and different from its file: if none is, every recovery that any continuation completes is right; if one is, some continuation of normal steps completes a recovery that leaves a byte wrong |
| `BlindPages.DoomedRun` | src/storage/engine/bplus_tree/pager.rs:329-371 | That continuation as steps of the machine: resume, one logged change of the page, a checkpoint, a crash |
| `BlindPages.BlindResumeLosesUndo` | src/storage/engine/bplus_tree/pager.rs:329-371 | It leaves a rolled back byte in the file that is outside the redo range and no loser's, although the log demands the restored content |
| `Scenarios.BlindPageReached` | src/storage/engine/bplus_tree/pager.rs:329-371 | A run from any fresh database to such a page: a change is flushed with its page, a checkpoint is taken, the system crashes, and recovery undoes the change without a recLSN |
| `IndexPages.Constants` | src/storage/engine/bplus_tree.rs:33-35 | A page holds at most 203 cells and 102 is the least after which a page is not short |
| `IndexPages.AddAllAppends` | src/storage/engine/bplus_tree/slotted_page.rs:154-191 | Adding sorted cells one by one to smaller ones appends them, and fails exactly when they are more than fit |
| `IndexPages.RebuildHolds` | src/storage/engine/bplus_tree/slotted_page.rs:154-191 | A rebuild from sorted cells succeeds exactly when there are at most 203, and then holds exactly these |
| `IndexPages.RebuildKeeps` | src/storage/engine/bplus_tree/slotted_page.rs:154-191 | A rebuild from more sorted cells leaves the first 203 of them in the page |
| `IndexPages.RemoveHolds` | src/storage/engine/bplus_tree/slotted_page.rs:193-217 | Removing a cell always succeeds and leaves the others in order |
| `BplusTrees.BplusTree.constructor` | src/storage/engine/bplus_tree.rs:66-83 | The empty tree is in order, stands for the empty map, and every page has room |
| `BplusTrees.BplusTree.Get` | src/storage/engine/bplus_tree.rs:121-170 | On every tree in order the descent ends and gives the records of exactly the keys that are in the map, and the error for all others |
| `BplusTrees.BplusTree.Breadcrumbs` | src/storage/engine/bplus_tree.rs:1261-1310 | The trail is the path from the root to the one leaf whose range covers the key, and the flag says exactly whether the key is in the map |
| `BplusTrees.BplusTree.Insert` | src/storage/engine/bplus_tree.rs:172-227 | Succeeds if and only if the key is new, its records fit one heap page, and every page that must take a cell has room; then the tree is in order and the map gains exactly this entry. With room in every page it always succeeds and leaves room in every page. When the leaf is full nothing changes; when a parent is full, lookups miss all keys of a range, one of them stored, and find all others |
| `BplusTrees.BplusTree.HandleOverfull` | src/storage/engine/bplus_tree.rs:238-440 | Any chain of splits, up to a new root, succeeds exactly when each parent that must take a separator has room; the tree is in order, the contents are unchanged, and every page has room again if only the first one was full |
| `BplusTrees.BplusTree.SplitPage` | src/storage/engine/bplus_tree.rs:238-337 | The two rebuilds of a split cannot fail and move exactly the upper half to the new page |
| `BplusTrees.BplusTree.AddSeparator` | src/storage/engine/bplus_tree.rs:339-388 | The parent gets the separator between the halves, or, when full, is left with the new page in the old one's place |
| `BplusTrees.BplusTree.GrowRoot` | src/storage/engine/bplus_tree.rs:389-411 | A new root with the one separator stands above the two halves |
| `BplusTrees.BplusTree.AddRecords` | src/storage/engine/bplus_tree/slotted_page.rs:288-294 | Records go behind those on a heap page exactly when all of them and their slots fit in 8171 bytes; otherwise a prefix of them is added |
| `BplusTrees.BplusTree.Delete` | src/storage/engine/bplus_tree.rs:442-484 | Succeeds if and only if the key is in the map and every merge of the cascade fits; then the tree is in order and the map loses exactly this key. When a merge does not fit the key is gone all the same and every other key is still found |
| `BplusTrees.BplusTree.PropagateKeyUpdate` | src/storage/engine/bplus_tree.rs:490-553 | The tree stays in order, no ancestor separates at the deleted key any more, and no page gains or loses a cell |
| `BplusTrees.BplusTree.HandleUnderfull` | src/storage/engine/bplus_tree.rs:555-640 | A short page is repaired by borrowing or merging up any number of levels, down to a root collapse; this fails exactly when a merge on the way does not fit in one page, and then lookups still find exactly the contents. A page without ancestors is left as it is |
| `BplusTrees.BplusTree.FindSiblings` | src/storage/engine/bplus_tree.rs:645-692 | The position of the child under its parent and the neighbours on both sides, where they exist |
| `BplusTrees.BplusTree.RedistributeFromLeft` | src/storage/engine/bplus_tree.rs:694-813 | The left neighbour's last cell, or last child with the separator, moves over; the tree is in order again |
| `BplusTrees.BplusTree.RedistributeFromRight` | src/storage/engine/bplus_tree.rs:815-908 | The right neighbour's first cell, or first child with the separator, moves over; the tree is in order again |
| `BplusTrees.BplusTree.MergeWithLeft` | src/storage/engine/bplus_tree.rs:910-1056 | Succeeds exactly when the cells fit and the parent can be repaired; the tree is then in order |
| `BplusTrees.BplusTree.MergeWithRight` | src/storage/engine/bplus_tree.rs:1058-1216 | Succeeds exactly when the cells fit and the parent can be repaired; the tree is then in order |
| `BplusTrees.BplusTree.CheckParentUnderfull` | src/storage/engine/bplus_tree.rs:1218-1259 | An empty root gives way to its only child, any other short parent is repaired; the tree is in order |
| `TreeInv.OneParent` | src/storage/engine/bplus_tree.rs:353-365 | In a tree in order every page is the child of one page only, at one place only, so that redirecting every pointer to a page redirects one |
| `TreeInv.DescendCovers` | src/storage/engine/bplus_tree.rs:1261-1310 | The child chosen for a key has a range that covers the key, one level down |
| `TreeSplit.SplitUnderParent` | src/storage/engine/bplus_tree.rs:238-388 | Splitting a full page under a parent with room keeps order, ranges, heights, parents, the leaf links and the least numbers of cells |
| `TreeSplit.SplitRoot` | src/storage/engine/bplus_tree.rs:389-411 | Splitting the root under a new one keeps all of it, one level higher |
| `TreeSplit.LeftShaped` | src/storage/engine/bplus_tree.rs:256-269 | The left half of a full page has 102 cells and is in order |
| `TreeSplit.RightShaped` | src/storage/engine/bplus_tree.rs:256-269 | The right half has 101 cells in a leaf and 100 above, the true least numbers |
| `TreeContents.InsertIntoLeaf` | src/storage/engine/bplus_tree.rs:203-213 | Adding the new key to its leaf keeps the tree in order, and the contents gain exactly it |
| `TreeContents.RemoveFromLeaf` | src/storage/engine/bplus_tree.rs:455-465 | Removing the key from its leaf takes exactly it from the contents; only that leaf may now be short |
| `TreeContents.SplitHolds` | src/storage/engine/bplus_tree.rs:281-337 | A split moves cells, not contents |
| `TreeShift.ShiftOk` | src/storage/engine/bplus_tree.rs:694-908 | Moving the boundary between two neighbours to any separator between their outer bounds keeps the tree in order |
| `TreeShift.JoinOk` | src/storage/engine/bplus_tree.rs:910-1216 | Making one page of two neighbours keeps the tree in order, but the parent may be short |
| `TreeShift.CollapseOk` | src/storage/engine/bplus_tree.rs:1224-1244 | A root without separators can be replaced by its only child |
| `TreeBorrow.BorrowFromLeft` | src/storage/engine/bplus_tree.rs:694-813 | Borrowing from the left repairs a short page on any level and changes no contents |
| `TreeBorrow.BorrowFromRight` | src/storage/engine/bplus_tree.rs:815-908 | Borrowing from the right repairs a short page on any level and changes no contents |
| `TreeMerge.MergeOk` | src/storage/engine/bplus_tree.rs:910-1216 | Merging two neighbours that fit keeps the tree in order and the contents, but the parent may be short |
| `TreeMerge.LeafMergeFits` | src/storage/engine/bplus_tree.rs:935-953 | Two leaves, one short and the other with none to spare, always fit in one page |
| `TreeMerge.InnerMergeFits` | src/storage/engine/bplus_tree.rs:993-1019 | An internal merge can be rebuilt if and only if the two counts plus one are at most 203 |
| `TreeRelabel.RenameOk` | src/storage/engine/bplus_tree.rs:490-553 | Replacing a deleted separator by the first key of the leaf that begins there keeps order, ranges and contents |
| `TreeRelabel.OneSeparator` | src/storage/engine/bplus_tree.rs:546-548 | A key separates in one page only, at one place only, in the whole tree |
| `TreeRelabel.NoBoundInside` | src/storage/engine/bplus_tree.rs:497-508 | No page begins or ends strictly inside the range of a page on its level or below |
| `TreeSteps.SearchStep` | src/storage/engine/bplus_tree.rs:128-168 | One step of a descent goes to the covering child, or at the leaf decides membership |
| `TreePath.RoomyFits` | src/storage/engine/bplus_tree.rs:203-225 | With room in every page an insertion goes through along any path |
| `TreePath.RepairByMerge` | src/storage/engine/bplus_tree.rs:586-637 | When neither neighbour has a cell to spare, the cascade goes through exactly when the merge with the left one, or else with the right one, does |
| `TreeRepair.MergeSteps` | src/storage/engine/bplus_tree.rs:910-1216 | The rebuild of a merge succeeds exactly when the cells of both, above the leaves with the separator, are at most 203 |
| `TreeRepair.LeafGives` | src/storage/engine/bplus_tree.rs:442-484 | What removing a key leaves of its leaf, and what the trail above then allows |
| `TreeFind.FindIsHeld` | src/storage/engine/bplus_tree.rs:121-170 | A lookup below any page finds exactly what the contents hold in its range |
| `TreeFind.StuckLoses` | src/storage/engine/bplus_tree.rs:376-388 | After a split whose parent was full, lookups miss exactly the keys below the separator that the split page had, at least one of which is stored |
| `TreeFind.MergeDoesNotFit` | src/storage/engine/bplus_tree.rs:993-1019 | Only an internal merge can fail; the left page is then as the failed rebuild leaves it, with the first 203 cells, and lookups still find exactly the contents |
| `TreeFacts.HeightBound` | src/storage/engine/bplus_tree.rs:33-35 | A tree of h levels, h at least 2, holds at least 2 * 101^(h-1) keys |
| `TreeFacts.FillBelow` | src/storage/engine/bplus_tree.rs:555-640 | Below a page of height h other than the root lie at least 101^(h+1) keys |
| `TreeFacts.MergeLimits` | src/storage/engine/bplus_tree.rs:586-637 | Of the merges that are attempted, leaf merges always fit, and an internal one fails exactly for 101 with 102 cells |
| `TreeFacts.LeafChain` | src/storage/engine/bplus_tree.rs:281-324 | From the first leaf, following the leaf pointers as often as there are leaves visits every leaf once, in key order, and reads exactly the map in strictly ascending key order |
| `TreeFacts.LeavesFollow` | src/storage/engine/bplus_tree.rs:935-953 | The same from any leaf on, for the keys from its first bound on |
| `TreeLimits.FullLeafTakesNothing` | src/storage/engine/bplus_tree.rs:203-213 | The tree of one leaf with 203 cells is in order, and no insertion into it succeeds |
| `TreeLimits.LeavesFromInsertions` | src/storage/engine/bplus_tree.rs:238-388 | Inserting the keys 0 to 203 in order splits the root leaf once and leaves two leaves of 102 cells |
| `TreeLimits.FullLeafFromDeletion` | src/storage/engine/bplus_tree.rs:910-953 | Deleting key 0 from there merges them into that full leaf, which replaces the root |
| `TreeLimits.PairDoesNotMerge` | src/storage/engine/bplus_tree.rs:993-1019 | A tree of three levels in order from which key 0 cannot be deleted: its deletion leaves internal pages of 101 and 102 cells to merge |
| `LittleEndian.DecodeEncode` | src/storage/engine/bplus_tree/header.rs:36-55 | Little-endian bytes decode to the number, up to what the width cuts off |
| `LittleEndian.EncodeDecode` | src/storage/engine/bplus_tree/header.rs:36-55 | Any bytes are the encoding of what they decode to |
| `LittleEndian.EncodeAt` | src/storage/engine/bplus_tree/header.rs:36-55 | Byte i of an encoding is digit i of the number in base 256 |
| `Headers.IndexRoundTrip` | src/storage/engine/bplus_tree/header.rs:36-55 | An index header within its field widths decodes to itself |
| `Headers.IndexDecodes` | src/storage/engine/bplus_tree/header.rs:13-45 | Bytes decode exactly when the kind byte is at most 2, and then encode back to themselves |
| `Headers.IndexLayout` | src/storage/engine/bplus_tree/header.rs:13-55 | In an index header the id lies at byte 0, the bounds of the free space at 8 and 10, the kind at 12 as 0, 1 or 2, the flags at 13, the pointer at 14, lowest bytes first |
| `Headers.HeapRoundTrip` | src/storage/engine/bplus_tree/header.rs:119-136 | A heap header within its field widths decodes to itself |
| `Headers.HeapDecodes` | src/storage/engine/bplus_tree/header.rs:119-136 | Any heap header bytes encode back from what they decode to |
| `Headers.HeapLayout` | src/storage/engine/bplus_tree/header.rs:119-136 | In a heap header the id lies at byte 0, the bounds of the free space at 8 and 10, the flags at 12, the pointer at 13, lowest bytes first |
| `Headers.WalRoundTrip` | src/storage/engine/bplus_tree/header.rs:185-201 | A log file header within its field widths decodes to itself, whatever follows |
| `Headers.WalLayout` | src/storage/engine/bplus_tree/header.rs:185-201 | In a log file header the last checkpoint lies at byte 0, the last record's offset at 8 and length at 16, the next LSN at 20, lowest bytes first |
| `SlottedPages.SlottedPage.Add` | src/storage/engine/bplus_tree/slotted_page.rs:52-125 | Binary search, slot shift and three writes in place decode to the sorted insertion; the page stays compact, no slot or cell overlaps; overflow exactly at 203 cells, and neither error changes the decoded page |
| `SlottedPages.SlottedPage.Search` | src/storage/engine/bplus_tree/slotted_page.rs:84-103 | Halving the slots finds the place between smaller and greater keys, or that the key is there |
| `SlottedPages.SlottedPage.GetCells` | src/storage/engine/bplus_tree/slotted_page.rs:14-50 | The slots decode to the cells in key order |
| `SlottedPages.SlottedPage.RebuildFromCells` | src/storage/engine/bplus_tree/slotted_page.rs:154-191 | The bytes after a rebuild decode to the rebuilt page, or the same error is given |
| `SlottedPages.SlottedPage.RemoveAt` | src/storage/engine/bplus_tree/slotted_page.rs:193-217 | The bytes after a removal decode to the page without the cell, which is returned; an index beyond the cells is an error |
| `SlottedPages.SlottedPage.SetPtr` | src/storage/engine/bplus_tree/slotted_page.rs:219-224 | Only the header pointer of the decoded page changes |
| `SlottedPages.SlottedPage.SetKind` | src/storage/engine/bplus_tree/slotted_page.rs:226-238 | The kind changes, and a page that was on the leaf level keeps the root-leaf flag exactly when it becomes the root |
| `PageBytes.AddedIs` | src/storage/engine/bplus_tree/slotted_page.rs:52-125 | The bytes after writing cell, slots and header are a compact page again and decode to the page with the cell inserted |
| `PageBytes.CellWritten` | src/storage/engine/bplus_tree/slotted_page.rs:56-69 | Writing into the free space disturbs no slot and no cell, and reads back |
| `PageBytes.SlotWritten` | src/storage/engine/bplus_tree/slotted_page.rs:106-117 | Shifting the later slots by one keeps every cell and its order, with the new slot in between |
| `PageBytes.PageLayout` | src/storage/engine/bplus_tree/slotted_page.rs:20-46 | In an index page, slot i at byte 22 + 4i gives the offset of cell i, where its key lies and, 8 bytes on, its pointer, lowest bytes first |
| `HeapPages.HeapPageData.Add` | src/storage/engine/bplus_tree/slotted_page.rs:296-328 | A record is appended exactly when it and its slot fit in the free space; otherwise the page is unchanged |
| `HeapPages.HeapPageData.AddRecords` | src/storage/engine/bplus_tree/slotted_page.rs:288-294 | All records are appended exactly when together they fit |
| `HeapPages.HeapAddedIs` | src/storage/engine/bplus_tree/slotted_page.rs:296-328 | The bytes after an addition decode to the old records and the new one, and stay compact |
| `HeapPages.HeapPageLayout` | src/storage/engine/bplus_tree/slotted_page.rs:296-328 | In a heap page, slot i at byte 21 + 4i gives the offset and the length of record i, whose bytes lie there |
| `HeapPages.HeapPageData.New` | src/storage/engine/bplus_tree/heap.rs:189-243 | The bytes of a newly allocated heap page stand for an empty page with its flags |
| `HeapPages.NewPageIs` | src/storage/engine/bplus_tree/header.rs:142-160 | A page with the header of a new page is empty, with 8171 bytes free, whatever its other bytes are |
| `HeapPages.HeapPageData.SetHasOverflow` | src/storage/engine/bplus_tree/heap.rs:275-281 | The page points to the overflow page and says so; its records stay |
| `HeapPages.HeapHeaderChanged` | src/storage/engine/bplus_tree/heap.rs:275-281 | Writing a header with the same bounds of the free space moves no record |
| `Heaps.Heap.GetRecord` | src/storage/engine/bplus_tree/heap.rs:88-114 | Gives the records of the page and of all its overflow pages, in order |
| `Heaps.Heap.CollectOverflowRecords` | src/storage/engine/bplus_tree/heap.rs:116-142 | The walk along a chain of any length ends and collects all its records in order |
| `Heaps.Heap.FindTailId` | src/storage/engine/bplus_tree/heap.rs:347-360 | Finds the last page of the chain |
| `Heaps.Heap.FreeChain` | src/storage/engine/bplus_tree/heap.rs:363-379 | Lists the pages of the chain: the given page first, each next one is where the page before points, and the last points nowhere |
| `Heaps.Heap.InsertRecords` | src/storage/engine/bplus_tree/heap.rs:245-293 | Fails exactly on a record longer than 8167 bytes; other pages are unchanged, and what the chain then reads is given exactly |
| `Heaps.PlainPageRoundTrip` | src/storage/engine/bplus_tree/heap.rs:245-293 | On a page without flags the records read back, in order, behind those that were there, over any number of overflow pages |
| `Heaps.FlaggedPageRoundTrip` | src/storage/engine/bplus_tree/heap.rs:257-259 | On a page with the primary flag they read back if and only if there are none or the chain at the pointer ends at this very page |
| `Heaps.SecondInsertion` | src/storage/engine/bplus_tree/heap.rs:268-288 | A second insertion into a page that overflows puts the records before the overflow, or drops the overflow altogether |
| `Heaps.BothFlagsRoundTrip` | src/storage/engine/bplus_tree/heap.rs:257-288 | On a page with both flags the records read back behind all that were there |
| `Heaps.PrimaryMisplaces` | src/storage/engine/bplus_tree/heap.rs:194-293 | With a page 0 allocated first, a record inserted into a newly allocated primary page is on page 0, and the primary page reads back empty |
| `Heaps.ChainAscends` | src/storage/engine/bplus_tree/heap.rs:270-288 | Chains are acyclic: they visit pages in ascending order, each once, up to the tail; the records of a chain are those of its pages, one page after the other |
| `Heaps.ChainLeads` | src/storage/engine/bplus_tree/heap.rs:363-379 | Each page of a chain points to the next one, and the last to none |
| `WalRecords.HeaderRoundTrip` | src/storage/engine/bplus_tree/wal.rs:109-133 | A record header within its field widths decodes to itself, whatever follows |
| `WalRecords.HeaderLayout` | src/storage/engine/bplus_tree/wal.rs:40-133 | In a record header the LSN lies at byte 0, the predecessor's length at 8, the transaction at 12, the type at 20 as 1 to 6, the page file at 21, the page at 22, the payload's length at 30, the page offset at 34 |
| `WalRecords.UpdateRoundTrip` | src/storage/engine/bplus_tree/wal.rs:142-174 | Undo and redo images come back from their payload if and only if both are shorter than 65536 bytes |
| `WalRecords.UpdateLayout` | src/storage/engine/bplus_tree/wal.rs:142-174 | In the payload of an update each image lies behind its 16-bit length, the undo image first |
| `WalRecords.CheckpointRoundTrip` | src/storage/engine/bplus_tree/wal.rs:176-217 | The two tables of a checkpoint come back from its payload, for any number of entries within the counters |
| `WalRecords.CheckpointLayout` | src/storage/engine/bplus_tree/wal.rs:176-217 | In the payload of a checkpoint each table lies behind its 32-bit counter, the dirty pages first, entry i of 17 bytes and entry j of 16 bytes at their places in the table |
| `WalRecords.EntryLayout` | src/storage/engine/bplus_tree/wal.rs:176-217 | A dirty page entry holds the page file, the page and its recLSN; an active transaction entry the transaction and its last LSN |
| `WalRecords.ParseCheckpoint` | src/storage/engine/bplus_tree/wal.rs:176-217 | The parsing loops give the tables, or nothing exactly when the payload ends too early |
| `WalRecords.ReadWritten` | src/storage/engine/bplus_tree/wal.rs:646-660 | A well-formed record is read back where it was written, with the offset after it |
| `WalLogs.WalInner.WriteRawRecord` | src/storage/engine/bplus_tree/wal.rs:230-274 | The record is appended with the next LSN and its predecessor's length; file and buffer together hold all records, every buffer entry names its record's LSN and file offset, and a full buffer is flushed first |
| `WalLogs.WalInner.WriteRecord` | src/storage/engine/bplus_tree/wal.rs:276-302 | The update is appended and its images can be parsed back; its transaction is active with this LSN unless it is 0 |
| `WalLogs.WalInner.WriteClr` | src/storage/engine/bplus_tree/wal.rs:324-352 | The compensation is appended and parses to an empty undo image and the redo image |
| `WalLogs.WalInner.WriteCheckpoint` | src/storage/engine/bplus_tree/wal.rs:354-377 | Everything is in the file, whose header names the checkpoint, whose tables parse back |
| `WalLogs.WalInner.BeginTransaction` | src/storage/engine/bplus_tree/wal.rs:304-308 | The transaction is active from its Begin record on |
| `WalLogs.WalInner.CommitTransaction` | src/storage/engine/bplus_tree/wal.rs:310-315 | When commit returns, the file alone holds every record up to the Commit |
| `WalLogs.WalInner.AbortTransaction` | src/storage/engine/bplus_tree/wal.rs:317-322 | When abort returns, the file alone holds every record up to the Abort |
| `WalLogs.WalInner.FlushUpTo` | src/storage/engine/bplus_tree/wal.rs:387-448 | Exactly the buffered records with LSNs up to the target move to the file; afterwards the file is a complete log of them, with a header that points at the last |
| `WalLogs.WalInner.FlushedIsFiled` | src/storage/engine/bplus_tree/wal.rs:387-448 | "Flushed up to an LSN" means: the log file holds every record up to that LSN |
| `WalLogs.WalInner.FlushPrefix` | src/storage/engine/bplus_tree/wal.rs:409-446 | A partial flush moves exactly the first entries, and what stays buffered begins with the next LSN |
| `WalLogs.WalInner.ReadAllRecords` | src/storage/engine/bplus_tree/wal.rs:667-683 | Reads exactly the records that were flushed, in order |
| `WalLogs.WalInner.ReadRecordsBackward` | src/storage/engine/bplus_tree/wal.rs:693-715 | Succeeds if and only if nothing is buffered, and then gives record n-1-i of the log at place i, for all n records; the walk ends |
| `WalLogs.WalInner.Reopen` | src/storage/engine/bplus_tree/wal.rs:491-524 | A file with a whole header is opened as it is; reopening the file of any log gives a log in order that holds exactly its records, all of them flushed |
| `WalLogs.Open` | src/storage/engine/bplus_tree/wal.rs:478-526 | An empty file becomes a new log, any file with a whole header is opened by it, and a cut header is the only error; the file of a log is opened as that log |
| `WalLogs.FlushedFile` | src/storage/engine/bplus_tree/wal.rs:409-446 | Writing the first buffered records and a header to the end of a log file gives the log file of the longer log |
| `WalLogs.ReadsRecord` | src/storage/engine/bplus_tree/wal.rs:646-660 | Every record of a log file is read at its own offset |
| `LogRefinement.SeenIsWritten` | src/storage/engine/bplus_tree/wal.rs:142-217 | Every kind of record, written as the log writes it, is seen by recovery as the record that was logged, with checkpoint tables listed in any order |
| `LogRefinement.RunIsLogged` | src/storage/engine/bplus_tree/wal.rs:230-526 | For every run of the machine from a fresh database, through crashes and recoveries, the byte log that takes the calls its steps make holds after every step what the machine's log holds: the same records, as many of them in the file, the same LSN counters in memory and in the file, the same checkpoint and the same active transactions |
| `LogRefinement.CallCoupled` | src/storage/engine/bplus_tree/wal.rs:230-526 | One step of the machine, of any kind, and the call it makes keep the two logs together |
| `LogRefinement.RoomIsFlush` | src/storage/engine/bplus_tree/wal.rs:230-274 | Flushing a full buffer to make room for a record is one log flush of the machine |
| `LogRefinement.TablesAgain` | src/storage/engine/bplus_tree/pager.rs:243-267 | A table listed in any order fills the same table again |
| `LogRefinement.ReachAgrees` | src/storage/engine/bplus_tree/wal.rs:387-448 | A flush of the byte log moves exactly the records that the flush of the state machine moves |
| `LogRefinement.FileIsSeen` | src/storage/engine/bplus_tree/wal.rs:646-683 | Reading a log file from record to record sees exactly the records that were logged |
| `BufferPools.BufferPool.Touch` | src/storage/engine/bplus_tree/buffer_pool.rs:171-174 | The id becomes the most recently used; no id is twice in the order, which stays the order of the last uses |
| `BufferPools.BufferPool.Get` | src/storage/engine/bplus_tree/buffer_pool.rs:40-43 | Gives the page of the frame, if there is one, and counts as a use of the id either way |
| `BufferPools.BufferPool.EvictOne` | src/storage/engine/bplus_tree/buffer_pool.rs:176-203 | The victim is the unpinned frame whose last place in the sequence of all uses is the earliest, returned with its page, LSNs and dirty mark; exactly it leaves the order of use; there is none exactly when every frame is pinned |
| `BufferPools.BufferPool.Insert` | src/storage/engine/bplus_tree/buffer_pool.rs:45-72 | A new page enters clean and is the latest use, before it a full pool gives up its victim; a known page is only used; it fails, and changes nothing, exactly when the page is new and every frame of a full pool is pinned; there are never more frames than allowed |
| `BufferPools.BufferPool.UpdatePage` | src/storage/engine/bplus_tree/buffer_pool.rs:74-83 | A frame's page is replaced and dirty, and used; without a frame the page that makes room is dropped, even when dirty, and the new one is used, or dropped when every frame is pinned |
| `BufferPools.BufferPool.UpdateLsn` | src/storage/engine/bplus_tree/buffer_pool.rs:93-102 | The page LSN follows every change, the recLSN stays at the first change since the page was clean; the id is used, with or without a frame |
| `BufferPools.BufferPool.ClearDirty` | src/storage/engine/bplus_tree/buffer_pool.rs:139-144 | No page is dirty and every recLSN is 0, pages and pins stay |
| `BufferPools.TouchOrdered` | src/storage/engine/bplus_tree/buffer_pool.rs:171-174 | Moving an id to the end keeps the list duplicate-free and in the order of the last uses |
| `PageFiles.PageFile.Fetch` | src/storage/engine/bplus_tree/index.rs:109-135 | Gives the content last written to the page, through any evictions; a page in the pool only counts as used, any other enters clean from the file, for the least recently used unpinned page of a full pool; a file page changes only if it was dirty in the pool, and then the log is flushed up to its LSN; fails exactly when the page is not in the pool and every frame of a full pool is pinned |
| `PageFiles.PageFile.FetchMut` | src/storage/engine/bplus_tree/index.rs:137-146 | The guard's copy is the content last written, and its frame is pinned once more and dirty; a file page changes only after the log up to its LSN |
| `PageFiles.PageFile.DropGuard` | src/storage/engine/bplus_tree/index.rs:39-44 | The guard's page is now the page's content, dirty and unpinned once; nothing else changes |
| `PageFiles.PageFile.Allocate` | src/storage/engine/bplus_tree/index.rs:70-107 | The new page has the next id, is in the pool, dirty, and its bytes stand for an empty page of the kind with all its space free; every other page reads as before; a file page changes only after the log up to its LSN |
| `PageFiles.BlankPageIs` | src/storage/engine/bplus_tree/index.rs:77-87 | The bytes written for a new page are a whole page: empty, of its kind, with pointer and flags 0 and all space behind the header free |
| `PageFiles.PageFile.Flush` | src/storage/engine/bplus_tree/index.rs:152-166 | A dirty page's content is in the file, the log is flushed up to the page's LSN, and the page is clean with recLSN 0; nothing else changes, and nothing at all for a page that is not dirty in the pool |
| `PageFiles.PageFile.FlushAll` | src/storage/engine/bplus_tree/index.rs:168-183 | Afterwards the file equals the content of every page, no page is dirty and every recLSN is 0; the log is flushed up to the LSN of each page that was dirty |
| `PageFiles.PageFile.Admit` | src/storage/engine/bplus_tree/heap.rs:157-172 | The page takes the place of the least recently used unpinned page, which is written back exactly if it was dirty, with the log flushed up to its LSN |
| `PageFiles.AgreeInsert` | src/storage/engine/bplus_tree/index.rs:89-134 | A clean frame equals its file content, before and after any page displaces another |
| `Like.LikeMatch` | src/planner/value.rs:266-300 | The loop with one remembered star returns true if and only if the folded text matches the folded pattern by the recursive definition of % and _; it always ends |
| `Like.MatchesIsCut` | src/planner/value.rs:266-300 | A text matches a pattern if and only if it can be cut into pieces, one for each pattern character: any piece for %, any one character for _, the character itself for any other |
| `Like.NewStar` | src/planner/value.rs:282-285 | At a new star the older one is never needed again |
| `Like.TextDone` | src/planner/value.rs:299-299 | At the end of the text it only matters whether the rest of the pattern is stars |
| `Values.LessMeans` | src/planner/value.rs:317-374 | Which of two values comes first, for each pair of kinds: null before false before true before numbers before texts; integers and floats by size, NaN after every number, an integer before the floats that its cast does not exceed; texts by proper prefix or the smaller character at the first difference |
| `Values.TextLess` | src/planner/value.rs:370-370 | Of two texts one comes first exactly if it is a proper prefix of the other, or has the smaller character where they first differ |
| `Values.CompareTransitive` | src/planner/value.rs:362-374 | The order that LessMeans gives is transitive across all kinds of values, also integers and floats, for every monotone rounding |
| `Values.TransitiveIffMonotone` | src/planner/value.rs:362-374 | It is transitive if and only if the cast from integer to float is monotone |
| `Values.CompareReverses` | src/planner/value.rs:362-374 | Exchanging the operands reverses the result |
| `Values.EqualAgrees` | src/planner/value.rs:328-354 | Equal in the order is the same as equal as values, and equal values feed the hasher alike |
| `Values.HashedAlikeIsEqual` | src/planner/value.rs:307-354 | What is fed to the hasher is the same exactly for equal values, if the bits tell floats apart |
| `Values.CompareIsLexicographic` | src/planner/value.rs:302-305 | Numbers compare lexicographically: first where they round to, NaN last, then integers before floats, then the integers |
| `Values.MonotoneNeeded` | src/planner/value.rs:368-369 | Two integers that a cast exchanges make a cycle with a float between their images |
| `Rounding.CastIsMonotone` | src/planner/value.rs:368-369 | Rounding to 53 significant bits, ties to even, keeps the order of all integers, is exact up to two to the 53rd, and not beyond |
| `Rounding.NearestIsNearest` | src/planner/value.rs:368-369 | No representable multiple is nearer than the rounded one |
| `Rounding.CastIsNearest` | src/planner/value.rs:368-369 | The cast has 53 significant bits; no number with 53 significant bits, of any scale, is nearer to the integer, and if one is as near, the last bit of the cast is even |
| `Rounding.CastIsSymmetric` | src/planner/value.rs:368-369 | A negative integer is cast to the negative of what its magnitude is cast to |
| `Rounding.ValuesInOrder` | src/planner/value.rs:362-374 | With the real cast the order of values is transitive |

## Left out

- Files, fsync, directory sync and set_len: a file is a byte sequence or a sequence of pages; writing a page, or a flushed part of the log with its header, is one durable step.
- Torn flushes: a crash between the log bytes and the log header of one flush. A checkpoint whose record is durable but whose header is not is a step of its own.
- Threads, locks and atomics: operations on the tree are sequential, as its lock makes them.
- A page change and its log record are one step in the state machine; a redistribution from the left on internal pages logs its left page last, after its parent.
- A flush that a full log buffer forces is a separate log flush step in the state machine; in `WalLog` it is part of the write (`RoomIsFlush`).
- Overwrites.RecoveryUndoes: of recoveries that a crash interrupts in runs whose callers overwrite each other, nothing is said; ending some losers before the crash changes what the rest restores.
- The root is carried as state: finding it again by scanning for the first page of kind Root, on opening and after recovery, is not part of this model, because a collapsed root keeps its kind.
- Page allocation headers are not logged: in the recovery model an allocated page is the page's base image.
- The tree's pages are values in a map here; that their bytes and the pool behave like this is proved in `SlottedPage` and `PageFile`, and the log calls between page changes are left to `Pager`.
- A crash inside one call of `PageFile` is not a state of its own there: `WritePage` requires the flushed log, the calls promise it on return, and the machine's crashes between any two steps are in `PageWrittenAfterLog`.
- Heap pages in `Heap` are values with their records; that their bytes behave like this is proved in `HeapPages`. A tree's records are on one heap page, as `insert` stores them.
- BplusTrees.BplusTree.Insert: after a parent without room, says what lookups find, not which pages are in order.
- BplusTrees.BplusTree.Delete: after a merge that does not fit, says what lookups find, not which pages are in order.
- BplusTrees.BplusTree.Get: requires a tree in order; what a lookup does on the trees that failed operations leave is stated with `Find`, which follows the same path over at most as many levels as the tree has.
- Panics on a pool whose frames are all pinned (`expect` in index.rs and in allocation) are modelled as errors.
- Log sequence numbers, file offsets and page ids stay below 2^64: `CanGrow` says so for the log, elsewhere they are unbounded. A record longer than 2^32 bytes is not written.
- Hash map iteration order: tables are maps and sets; loops over them take an arbitrary element.
- Heaps.Heap.InsertRecords: requires a page with the primary flag to point at a page that exists, as reading it would fail otherwise.
- WalLogs.Open: of a file with a whole header that is not the file of a log, says only what the opened log's fields are, not what its readers make of the rest.
- Floats are the numbers of the extended real line with negative zero and NaNs; float arithmetic, casts to integers, display and the three-valued logic are left out, and so is Unicode case folding, which is any function on strings.
- The SQL parser and its syntax trees, plan expressions, catalog, schemas and types: conversions and lookups that would only add easy members.
