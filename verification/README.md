# chickenDB: a verified model of the engine's core

chickenDB is a small SQL engine. This project models the parts of it that keep state or transform programs, and
proves what they promise. `dafny verify dfyconfig.toml` checks everything.

| part | modules | the simple thing it must agree with |
|---|---|---|
| disk B+ tree | `DiskPage`, `DiskTreePages`, `DiskTreeSteps`, `DiskTreeStates`, `DiskTreeWalk`, `EqualKeys`, `DiskTreeChanges`, `DiskBPlusTree`, `DiskTreeRuns`, `EqualKeyRuns`, `IndexKeys` | an ascending list of pairs, and a sorted map when keys are distinct |
| in-memory B+ tree, bitmap index | `Buckets`, `MemTreeNodes`, `MemTreeStates`, `MemBPlusTree`, `BitmapIndex`, `OrderedIndexRuns` | a map from keys to buckets |
| transactions, versions, log, recovery | `Versions`, `TxnLog`, `TxnManager`, `Recovery`, `TxnSystem`, `Snapshots`, `DeleteMarks`, `Statements`, `Sessions` | running the committed transactions one after the other |
| buffer pool | `ClockSweep`, `BufferPool`, `BufferClients` | a plain map from pages to bytes |
| query rewriting | `Expressions`, `Plans`, `ConstantFolding`, `PushdownRows`, `PredicatePushdown`, `NullTests` | the rows the plan denotes |
| data pages, insert, scan | `ByteCodec`, `ColumnVectors`, `VarcharCodec`, `TablePages`, `DataPageView`, `TableColumns`, `InsertColumns`, `TableInsert`, `TableScan`, `TableRuns` | a list of rows with addresses |
| operators | `LikeMatcher`, `Sorting`, `ExternalSort`, `Joins` | pattern meaning, ordered permutation, bag of joined rows |

`OrderedMap` holds sorted entry lists and the finite maps they stand for. `BTreeTheory` and `BTreeSteps` hold the
mathematics of B+ trees that both trees are proved with: a tree with a hole, and the rewriting of the one node in it.

Objects of the source are classes here, with their fields. The heaps and page tables they change are also looked at
as values (`DiskTreeStates.Store`, `MemTreeStates.Heap`, `TxnSystem.Sys`), so that what an operation does is a lemma about
values and the method only has to show which value it leaves behind.

## What was found

Some promises do not hold as stated. Each has a proof of when they do.

* **Recovery does not undo.** A comment in `src/transaction/recovery_manager.cpp` says that writes of uncommitted transactions
  are discarded. Their rows stay in the data pages without a version record, and rows without a record are visible, so they come
  back after a crash, unless a committed transaction of the kept log deleted them: `Snapshots.UncommittedReappears`, with a
  complete run in `Snapshots.AbortedReappears`. `Snapshots.RecoveredView` says exactly which rows a transaction sees after recovery.
* **Overwritten delete marks.** `OnDelete` does not look at an earlier mark, and the visibility test before it does not either. A
  transaction that marks a registered row it sees keeps every snapshot and every committed delete safe, in all continuations,
  exactly if the row carried no mark (`DeleteMarks.MarkDecides`). Otherwise committed deletes get lost, in whichever order the two
  transactions end: `DeleteMarks.UnguardedDeletesLose`, with three complete runs in `DeleteMarks.DeletesLost`. The results on
  snapshots are therefore about runs that mark only unmarked rows.
* **Deletes of rows without a version record.** Such rows are visible and may be deleted, but there is nothing to mark: the delete
  takes effect exactly if the row has a record (`DeleteMarks.DeleteTakesEffect`). Until the next crash everybody goes on seeing the
  row (`DeleteMarks.UnregisteredStays`), and after it nobody does (`DeleteMarks.DeleteLostUntilCrash`).
* **Beginning inside a commit.** The commit timestamp is published before the rows are stamped. A transaction that begins in
  between has its view of a row changed by the stamping exactly if the committing transaction inserted or deleted the row, but not
  both (`Snapshots.BeginInsideCommit`).
* **The victim search can spin for ever.** It ends exactly when some frame that needs fewer sweeps than all earlier frames is
  unpinned (`ClockSweep.SearchEndsIff`); a pinned frame 0 with a low counter starves every other frame
  (`ClockSweep.FrameZeroStarves`), and three operations on a new pool of two frames get there (`BufferClients.Starve`).
* **LIKE and '%' in the text.** The matcher tries equality before the wildcard, so a '%' in the text uses up a '%' of the pattern. It is right for
  all patterns exactly on texts without '%' (`LikeMatcher.MatcherRightIff`).
* **Misdirected predicates above joins.** Collecting table references stops at unary operators, so `right.c IS NULL` counts as
  naming no table and is pushed to the left input, where the column is missing. The optimized query fails exactly if some row
  meets a predicate that was sent to an input without its columns (`PredicatePushdown.OptimizeIs`), which a look at the plan rules
  out when every conjunct sent to a side reads only that side's columns (`PredicatePushdown.AimedNeverHits`).
  `NullTests.NullTestMisplaced` is the smallest failing query.
* **Null tests and joins.** A join copies values only and emits every cell as valid, so a null test sees no NULL above a join and
  sees them below it. Pushing `left.c IS NULL` to the left table changes the rows, although nothing fails: with one join of two
  tables they stay the same exactly if no row with a NULL in the column has a join partner (`NullTests.NullTestSame`, a run in
  `NullTests.NullTestRun`). This holds for both bound tests; the transformer makes a `NON_NULL` of SQL's `IS NULL`. In general the
  optimized query's rows are those that each null test accepts by the bits it finds where it was put (`PredicatePushdown.OptimizeIs`), and
  are unchanged when the tests sent below joins meet no NULL (`PredicatePushdown.OptimizeSame`).
* **Sorting forgets NULL.** The sort operators keep values only as well: NULL comes out as the stored value. The output is a
  permutation of the input rows exactly if none has a NULL, and always one of their values (`ExternalSort.ExternalSort`).
* **Equal keys in the disk tree.** The header promises non-unique keys. A descent goes behind every separator that equals the key, so
  pairs in front of it are missed. All searches are complete exactly if every leaf's keys lie strictly below its upper
  separator (`DiskBPlusTree.DiskBPlusTreeIndex.SearchesComplete`). Splitting a leaf between two equal keys breaks this, borrowing the first of
  two equal keys breaks it, merging does not (`DiskTreeChanges.GrownClean`, `DiskTreeChanges.RebalancedClean`); runs of a new
  index of any page layout that break it are `EqualKeyRuns.OneKeyTooOften` and `EqualKeyRuns.BorrowedAway`. Once it is broken, a later split
  may not find the parent page any more, and the program goes on with page -1: `EqualKeyRuns.ParentLost`, for every even
  number of slots, such as the 13106 of an index on one column. With distinct live keys nothing of this happens.
* **An insert can stop half way.** When a row does not fit on a page of its own, the exception leaves the rows before it in the table,
  registered under their transaction, and an empty page behind them (`TableInsert.ExecuteInsert`).

Two comments of the source are not followed, because the code does not follow them: the page diagram in
`src/include/buffer/table_data_page.h` puts a checksum at the end of a page, where the code keeps it in the header; and
`src/buffer/table_scan_iterator.cpp` says that a page has at most 2048 rows, which nothing enforces.

## Reading the contracts

* `Holding`, `Overfull`, `Halves` in the two tree modules are the states of an insertion: at rest, one node too large, two halves of which
  the parent knows one. A tree at rest has ordered keys (strictly in memory, on disk with equal keys allowed on both sides of a
  separator), uniform leaf depth, at most the capacity in each node, the right child (and parent) pointers, and a next-leaf chain that is the
  in-order list of leaves.
* `Entries()` of the disk index is the list of its pairs in key order; `Unbroken()` says that no separator cuts a run of equal keys;
  `Seen(tree, key)` are the entries a descent for the key and the walk behind it can reach, `Skipped(tree, key)` the others.
  `Grown` and `Shrunk` are the whole tree after an insertion and an erasure, page numbers included.
* `Model()` of the in-memory tree is the finite map of its buckets; `Listing(m)` is a map in key order.
* `Sys`, `Tested`, `Enabled` and `Apply` in `TxnSystem` are the transaction system as steps: `Tested` is what the program checks
  before a step, `Enabled` adds that a deleted row with a version record is unmarked. Sessions interleave steps freely. A step joins several locked
  sections of the program: `DoBegin` allocates the id and appends the log record, `DoInsert` and `DoDelete` append the record, change
  the version record and extend the write set, `DoCommit` takes and publishes the timestamp, appends the record and stamps all rows,
  `DoAbort` appends the record and undoes all of them. `Crash(n)` restarts on the first `n` log records.
* `Effect` says what each kind of SQL statement leaves in the log, in the running transactions and in what they and the next
  transaction see, without the steps it is made of.
* Orders and operators are said in their own words next to the functions that compute them: `TextBefore`, `Before` and `InPlace` by
  the first difference, `AsRequested` by the literals of the statement, `Appends` and `Drops` by the rows of every key.
* `View()` of the buffer manager is the content of every live page as clients see it: the frame if resident, else the file.
* `Denote(env, plan)` is the sequence of rows of a plan, or a failure. `Traced` follows the optimized plan's rows with the NULL bits
  their cells had below the joins; `Shown` is how the plan puts them out.
* `Listing(contents)` is the list of a table's rows with their addresses; `contents[p]` are the rows that the bytes of page `p` stand for
  (`TableColumns.Stores`: the page's bytes are exactly the layout of these rows).

## Model

| member | source | states |
|---|---|---|
| DiskTreeRuns.Serve | src/index/disk_b_plus_tree.cpp:146-518 | every run of insert, erase, find, range and scan, equal keys included, answers like the ascending list of the pairs inserted and not erased, up to and with the first operation that cuts a run of equal keys; after its last operation every search is complete exactly if no operation of the run did; runs with distinct live keys never do |
| DiskTreeRuns.RunIsMapRun | src/index/disk_b_plus_tree.cpp:146-518 | as long as nobody inserts a key that is in the index, the list is the listing of a sorted map, in every answer and at the end |
| DiskTreeRuns.GetFollows | src/index/disk_b_plus_tree.cpp:146-444 | what the list answers to a point query: after an insertion of its key the rows before with the new one behind them, after an erasure the rows without the first such one, which the erasure reports, and the same after everything else |
| DiskTreeRuns.Step | src/index/disk_b_plus_tree.cpp:146-518 | one operation on an index without cut runs succeeds, answers and changes the list of pairs as the plain list does, and leaves no cut run exactly if it neither cuts a leaf between equal keys nor borrows the first of two equal keys |
| DiskBPlusTree.DiskBPlusTreeIndex.SearchesComplete | src/index/disk_b_plus_tree.cpp:146-208 | in any valid tree, every search finds all pairs of its key exactly if every leaf's keys lie strictly below the leaf's upper separator |
| DiskBPlusTree.DiskBPlusTreeIndex.EntriesAscend | src/index/disk_b_plus_tree.cpp:210-236 | the pairs of a valid index are in ascending key order |
| EqualKeys.FindableIff | src/index/disk_b_plus_tree.cpp:146-208 | the same for trees: what a descent reaches contains all entries of every key exactly if no separator cuts a run of equal keys |
| EqualKeys.RangeCompleteIff | src/index/disk_b_plus_tree.cpp:188-208 | the walk for one range is complete exactly if no skipped entry has the range's lower key |
| DiskTreeChanges.GrownClean | src/index/disk_b_plus_tree.cpp:258-305 | an insertion into a tree without cut runs always finds every parent, and leaves a cut run exactly if it splits the leaf between two equal keys |
| DiskTreeChanges.RisenClean | src/index/disk_b_plus_tree.cpp:328-406 | splits of internal pages and of the root never cut a run: only the two halves of the leaf count |
| DiskTreeChanges.RebalancedClean | src/index/disk_b_plus_tree.cpp:449-518 | merging never cuts a run of equal keys; borrowing does exactly if the entry it moves shares its key with the next one |
| DiskTreeChanges.ShrunkClean | src/index/disk_b_plus_tree.cpp:408-518 | an erasure leaves a cut run exactly if it borrows the first of two equal keys |
| DiskTreeChanges.CleanRises | src/index/disk_b_plus_tree.cpp:308-325 | without cut runs, every separator sent upwards finds its parent by re-descent |
| EqualKeyRuns.OneKeyTooOften | src/index/disk_b_plus_tree.cpp:258-305 | for every page layout: as many pairs of one key as a leaf has slots, and the search for the key returns only the upper half of them |
| EqualKeyRuns.BorrowedAway | src/index/disk_b_plus_tree.cpp:479-496 | for every page layout: a clean two-leaf tree from which one or two erasures make a leaf borrow, after which a search misses a pair it found before |
| EqualKeyRuns.ParentLost | src/index/disk_b_plus_tree.cpp:308-357 | for every even number of leaf slots: one key as often as a leaf has slots and then half as many smaller keys, and the last insertion does not find its parent page |
| DiskBPlusTree.DiskBPlusTreeIndex.Insert | src/index/disk_b_plus_tree.cpp:258-273 | adds the pair behind all pairs of its key in any valid tree and gives the exact new tree and page count; it fails exactly if a separator sent upwards no longer finds its parent, which cannot happen without cut runs; without them before, there are none after exactly if the leaf was not cut between equal keys |
| DiskBPlusTree.DiskBPlusTreeIndex.SplitLeaf | src/index/disk_b_plus_tree.cpp:276-305 | an overfull leaf ends up as two leaves of a valid tree with the same entries, if every separator finds its parent |
| DiskBPlusTree.DiskBPlusTreeIndex.CutLeaf | src/index/disk_b_plus_tree.cpp:276-302 | both halves of the split leaf are well formed around the new separator, and the chain runs left half, right half, old successor |
| DiskBPlusTree.DiskBPlusTreeIndex.InsertIntoParent | src/index/disk_b_plus_tree.cpp:328-374 | recording the right half in the parent, with further splits upwards, restores a valid tree with unchanged entries, exactly if the re-descents find the parents |
| DiskBPlusTree.DiskBPlusTreeIndex.FindParent | src/index/disk_b_plus_tree.cpp:308-325 | re-descending from the root finds the page above a child, or -1 for the root, and also -1 exactly if a separator right of the path is not greater than the hint: the descent then ends in a leaf elsewhere |
| DiskBPlusTree.DiskBPlusTreeIndex.GrowRootPage | src/index/disk_b_plus_tree.cpp:330-349 | a root split moves the old root's content to a new page, so the root keeps its page number, and the entries stay the same |
| DiskBPlusTree.DiskBPlusTreeIndex.SplitInternal | src/index/disk_b_plus_tree.cpp:377-406 | an overfull internal page ends up as two pages of a valid tree with the same entries, if every separator finds its parent |
| DiskBPlusTree.DiskBPlusTreeIndex.FindLeafPage | src/index/disk_b_plus_tree.cpp:146-163 | the descent ends in the leaf whose key range holds the key, behind every separator not greater than it |
| DiskBPlusTree.DiskBPlusTreeIndex.InsertIntoLeaf | src/index/disk_b_plus_tree.cpp:239-256 | the entry goes behind all entries of its key; only the leaf's own page changes, a full page using its reserved slot |
| DiskBPlusTree.DiskBPlusTreeIndex.Find | src/index/disk_b_plus_tree.cpp:165-186 | returns the rows filed under the key from the descent's leaf on; without cut runs these are all rows of the key, in insertion order |
| DiskBPlusTree.DiskBPlusTreeIndex.Range | src/index/disk_b_plus_tree.cpp:188-208 | the leaf-chain walk ends and returns the rows of the closed range from the descent's leaf on, which is the whole range exactly if no skipped entry has the lower key; without cut runs it always is |
| DiskBPlusTree.DiskBPlusTreeIndex.ScanAll | src/index/disk_b_plus_tree.cpp:210-236 | returns all pairs in key order, cut runs or not |
| DiskBPlusTree.DiskBPlusTreeIndex.Erase | src/index/disk_b_plus_tree.cpp:408-444 | removes the first occurrence of the pair among what the descent reaches, reports whether there was one, gives the exact new tree and keeps it valid; without cut runs this is the first occurrence of all, and there are none after exactly if no run was cut by borrowing |
| DiskBPlusTree.DiskBPlusTreeIndex.FindPair | src/index/disk_b_plus_tree.cpp:413-432 | the search along the leaf chain finds the pair exactly if some leaf from the descent's on holds it, and then in the descent's leaf itself |
| DiskBPlusTree.DiskBPlusTreeIndex.RebalanceLeaf | src/index/disk_b_plus_tree.cpp:449-518 | borrowing from or merging with the right neighbour, or doing nothing, leaves exactly the tree those cases prescribe, valid and with the same entries |
| DiskBPlusTree.DiskBPlusTreeIndex.Borrow | src/index/disk_b_plus_tree.cpp:479-496 | one entry moves over from the right neighbour and the separator follows it; the entries stay the same |
| DiskBPlusTree.DiskBPlusTreeIndex.Merge | src/index/disk_b_plus_tree.cpp:499-518 | the right neighbour's entries join the leaf within capacity, the chain skips it and the parent loses one child; the entries stay the same |
| DiskBPlusTree.DiskBPlusTreeIndex.AllocNode | src/index/disk_b_plus_tree.cpp:135-143 | a new node is a blank page under the next free number |
| DiskBPlusTree.DiskBPlusTreeIndex.constructor | src/index/disk_b_plus_tree.cpp:25-32 | a new index is a valid empty tree rooted at the first page it allocates |
| DiskPage.SlotCounts | src/index/disk_b_plus_tree.cpp:34-55 | the slot counts of leaf and internal pages fit their 16-bit type and all regions fit in the page, for every key width |
| DiskPage.SlotsDisjoint | src/index/disk_b_plus_tree.cpp:80-133 | every key, RID and child slot lies behind the header and inside the page, and no two slots share a byte |
| DiskPage.UpperSlot | src/index/disk_b_plus_tree.cpp:146-163 | the slot scan finds the number of keys not above the search key |
| DiskPage.LeafInsertAt | src/index/disk_b_plus_tree.cpp:239-256 | the shifting loop inserts one entry and stays inside the physical slots |
| DiskPage.LeafRemoveAt | src/index/disk_b_plus_tree.cpp:434-444 | the shifting loop removes one entry |
| DiskPage.InnerInsertAt | src/index/disk_b_plus_tree.cpp:350-368 | the shifting loops insert one separator and the child after it |
| DiskPage.InnerRemoveAt | src/index/disk_b_plus_tree.cpp:503-516 | the shifting loops remove one separator and the child after it |
| DiskTreePages.ChainOfTree | src/index/disk_b_plus_tree.cpp:210-236 | in a represented tree the next-leaf pointers visit exactly the leaves in key order |
| DiskTreeStates.Merged | src/index/disk_b_plus_tree.cpp:499-518 | merging two leaves that hold at most half their capacity each stays within capacity and keeps the tree |
| DiskTreeStates.LeafHalves | src/index/disk_b_plus_tree.cpp:276-302 | both halves of a split leaf are non-empty and within capacity |
| BTreeTheory.ContentsSorted | src/index/disk_b_plus_tree.cpp:146-236 | a tree of the invariant lists its keys in ascending order inside its key range, strictly if keys are unique |
| BTreeTheory.WFPlug | src/index/disk_b_plus_tree.cpp:328-374 | replacing a subtree by another of the same range and height keeps the whole tree balanced and ordered |
| BTreeSteps.SplitShape | src/index/disk_b_plus_tree.cpp:377-406 | cutting an overfull internal node at its middle key leaves two nodes of the invariant |
| BTreeSteps.MergeKidsOk | src/index/disk_b_plus_tree.cpp:499-518 | dropping a merged child and its separator keeps the parent ordered |
| OrderedIndexRuns.RunBoth | src/index/b_plus_tree.cpp:19-159 | on every run of operations, duplicates included, the in-memory tree and the bitmap index give the same answers, those of the bucket map (`OrderedIndexRuns.GetFollows` says which) |
| OrderedIndexRuns.GetFollows | src/index/b_plus_tree.cpp:19-93 | what a point query answers after any run: nothing at first; after one more insertion of its key the answer before with the row behind it, repeated pairs too; after an erasure the answer without the first such row, which the erasure reports; after anything else the same |
| OrderedIndexRuns.RangesFollow | src/index/b_plus_tree.cpp:46-77 | a range of one key answers like the point query, a range cut in two is the two answers one after the other, and the list of all pairs ascends and contains under each key the point query's answer |
| MemBPlusTree.BPlusTreeIndex.Insert | src/index/b_plus_tree.cpp:19-33 | files the row under its key, behind all rows the key had; no other key changes; and keeps order, balance, parent pointers and leaf chain |
| MemBPlusTree.BPlusTreeIndex.Erase | src/index/b_plus_tree.cpp:79-93 | removes the first occurrence of the row from its key's bucket, and the bucket with its last row; no other key changes |
| MemBPlusTree.BPlusTreeIndex.Find | src/index/b_plus_tree.cpp:36-43 | returns the rows of the key in insertion order |
| MemBPlusTree.BPlusTreeIndex.Range | src/index/b_plus_tree.cpp:46-58 | returns the buckets of all keys in the closed range in key order |
| MemBPlusTree.BPlusTreeIndex.ScanAll | src/index/b_plus_tree.cpp:61-76 | returns every pair in key order |
| MemBPlusTree.BPlusTreeIndex.FindLeaf | src/index/b_plus_tree.cpp:95-104 | the descent ends in the leaf whose key range holds the key |
| MemBPlusTree.BPlusTreeIndex.SplitLeaf | src/index/b_plus_tree.cpp:106-119 | an overfull leaf becomes two chained leaves of a valid tree with the same entries |
| MemBPlusTree.BPlusTreeIndex.InsertIntoParent | src/index/b_plus_tree.cpp:121-143 | following the parent pointer and splitting upwards restores a valid tree with the same leaves in the same order |
| MemBPlusTree.BPlusTreeIndex.GrowNewRoot | src/index/b_plus_tree.cpp:123-132 | a root split puts a new root above both halves and keeps the leaves |
| MemBPlusTree.BPlusTreeIndex.SplitInternal | src/index/b_plus_tree.cpp:145-159 | an overfull internal node becomes two nodes of a valid tree with the same leaves |
| MemBPlusTree.BPlusTreeIndex.CutNode | src/index/b_plus_tree.cpp:145-157 | the new node takes the upper keys and children, every moved child's parent pointer is redirected, nothing else changes |
| MemTreeStates.InnerHalves | src/index/b_plus_tree.cpp:145-159 | after the cut both halves are within order, hold the right children and are their parents |
| MemTreeStates.KidInserted | src/index/b_plus_tree.cpp:133-143 | the parent with the new key and child is an ordered node whose children all point back to it |
| MemTreeStates.RootGrown | src/index/b_plus_tree.cpp:123-132 | the grown tree is one level higher, balanced, with right parent pointers and the same leaf chain |
| BitmapIndex.Bitmap.Insert | src/index/bitmap_index.cpp:14-16 | the key has its rows with the new one behind them; no other key changes |
| BitmapIndex.Bitmap.Erase | src/index/bitmap_index.cpp:18-29 | removes the first occurrence of the row, and the bucket with its last row; no other key changes |
| BitmapIndex.Bitmap.Range | src/index/bitmap_index.cpp:37-45 | joins the buckets of the keys in the closed range in key order |
| BitmapIndex.Bitmap.ScanAll | src/index/bitmap_index.cpp:47-55 | lists every pair in key order |
| Buckets.AddRemove | src/index/bitmap_index.cpp:14-29 | erasing a newly added row gives the index back |
| Snapshots.ReachableSnapshot | src/transaction/version_store.cpp:62-94 | in every reachable state a running transaction sees a registered row exactly if it is in the database after the first read-timestamp many commits, plus its own inserts, minus its own deletes |
| Snapshots.ReachableInv | src/executor/session.cpp:63-121 | every interleaving of guarded begins, writes, commits, aborts and crashes keeps counters, log, running transactions and version records consistent |
| Snapshots.SnapshotIsolation | src/transaction/version_store.cpp:62-94 | the version records give each running transaction its snapshot plus its own writes |
| Snapshots.SnapshotIs | src/transaction/version_store.cpp:62-94 | running the first n commits one after the other leaves exactly the rows whose creator is among them and whose deleter is not |
| Snapshots.StableView | src/transaction/version_store.cpp:8-55 | over a whole run of other sessions' steps, what a running transaction sees of a registered row does not change |
| Snapshots.OwnWrites | src/transaction/version_store.cpp:62-94 | a transaction sees at once what it inserts, and stops seeing what it deletes exactly if the row has a version record |
| Snapshots.AbortedNeverSeen | src/executor/session.cpp:102-121 | from the abort step on, until the next crash, nobody sees a row the aborted transaction inserted |
| Snapshots.BeginInsideCommit | src/executor/session.cpp:93-100 | the timestamp is published before the rows are stamped: a transaction that begins in between has its view of a row changed by the stamping exactly if the committing transaction inserted the row or deleted it, but not both |
| DeleteMarks.MarkDecides | src/transaction/version_store.cpp:16-22 | a transaction marks a registered row it sees: every continuation keeps all snapshots and all committed deletes exactly if the row carried no mark before |
| DeleteMarks.UnguardedDeletesLose | src/executor/execute_delete_update.cpp:23-68 | from any sound state in which two transactions see an unmarked row, three orders of deleting and ending, all passing the program's visibility test, end with a committed delete that later transactions do not see |
| DeleteMarks.DeletesLost | src/transaction/version_store.cpp:16-22 | three complete runs from an empty database that lose a committed delete |
| DeleteMarks.DeleteTakesEffect | src/transaction/version_store.cpp:16-22 | a committed delete hides the row from the next transaction exactly if the row has a version record |
| DeleteMarks.UnregisteredStays | src/transaction/version_store.cpp:62-68 | until the next crash a deleted row without a version record stays visible to everybody, in every run |
| DeleteMarks.DeleteLostUntilCrash | src/transaction/recovery_manager.cpp:11-60 | a complete run: a crash brings an uncommitted row back, its committed delete is ignored, and obeyed after another crash |
| Snapshots.RecoveredView | src/transaction/recovery_manager.cpp:11-60 | after a crash at any point of the log, a new transaction sees a row exactly if the committed transactions of the kept log leave it in the database or none of them inserted or deleted it |
| Snapshots.RecoveredCommitted | src/transaction/recovery_manager.cpp:29-55 | among rows inserted by transactions committed in the kept log, recovery shows exactly those not deleted by one |
| Snapshots.RecoveredFresh | src/transaction/recovery_manager.cpp:57-58 | after recovery no transaction id or commit timestamp of the kept log is handed out again |
| Snapshots.UncommittedReappears | src/transaction/recovery_manager.cpp:34-37 | a row whose inserter had not committed becomes visible after the crash exactly if no committed transaction of the kept log deleted it: the undo announced in the comment does not happen |
| Snapshots.AbortedReappears | src/transaction/version_store.cpp:65-68 | a run in which an aborted row is hidden before a crash and visible after recovery |
| TxnSystem.StepKeeps | src/executor/session.cpp:63-121 | each guarded step, a crash with recovery included, keeps the invariant |
| TxnSystem.CommitAllowed | src/executor/session.cpp:73-100 | no other transaction has committed a delete of a row that a committing transaction deleted and a committed one inserted, or has deleted a row it inserted |
| TxnSystem.RecoveredInv | src/transaction/recovery_manager.cpp:11-60 | recovery from any well-formed log starts a consistent system |
| TxnLog.WellLoggedFacts | src/transaction/log_manager.cpp:40-47 | a log of guarded appends has one commit per transaction, distinct timestamps, one inserter and at most one committed deleter per row |
| TxnLog.LogManager.Append | src/transaction/log_manager.cpp:40-47 | appends the record at the next number |
| TxnLog.LogManager.ReadAll | src/transaction/log_manager.cpp:56-70 | returns all records in order |
| Recovery.RecoveryManager.Recover | src/transaction/recovery_manager.cpp:11-60 | the two loops leave the replayed version store, the counters past everything logged, and return the number of committed transactions |
| Recovery.RecoveredRebuilds | src/transaction/recovery_manager.cpp:29-55 | recovery of a well-formed log registers exactly the rows committed transactions inserted or deleted, with their committed creator, if any, and deleter |
| Recovery.RecoverIdempotent | src/transaction/recovery_manager.cpp:11-60 | recovering a second time changes nothing, whatever store and log |
| Recovery.CommitMapIs | src/transaction/recovery_manager.cpp:17-27 | the first pass maps exactly the committed transactions to their timestamps |
| Recovery.MaxCommitCounts | src/transaction/recovery_manager.cpp:17-27 | the largest commit timestamp of a well-formed log is its number of commits |
| Versions.VersionStore.IsVisible | src/transaction/version_store.cpp:62-94 | the branches decide visibility: created by me or before my snapshot, and not deleted by me or before it |
| Versions.VersionStore.OnInsert | src/transaction/version_store.cpp:8-14 | registers the row with its uncommitted creator |
| Versions.VersionStore.OnDelete | src/transaction/version_store.cpp:16-22 | marks a registered row's uncommitted deleter, overwriting any other |
| Versions.VersionStore.AbortInsert | src/transaction/version_store.cpp:40-46 | leaves a tombstone record |
| Versions.InsertsCommittedAt | src/executor/session.cpp:84-87 | stamping a list of inserted rows stamps exactly those that are registered |
| Versions.DeletesAbortedAt | src/executor/session.cpp:115-117 | undoing a list of deletes clears exactly their marks |
| TxnManager.TransactionManager.Begin | src/transaction/transaction_manager.cpp:8-17 | gives the next id and the last published commit timestamp as snapshot |
| TxnManager.TransactionManager.Commit | src/transaction/transaction_manager.cpp:19-33 | gives the next commit timestamp, publishes it and ends the transaction |
| TxnManager.TransactionManager.Reset | src/transaction/transaction_manager.cpp:41-45 | sets the counters |
| Sessions.Session.BeginTxn | src/executor/session.cpp:63-71 | carries out the begin step on managers, store and log |
| Sessions.Session.CommitTxn | src/executor/session.cpp:93-100 | carries out the commit step: timestamp, log record, all stamps |
| Sessions.Session.FinalizeCommit | src/executor/session.cpp:73-91 | logs the commit, then stamps every inserted and deleted row |
| Sessions.Session.AbortTxn | src/executor/session.cpp:102-121 | carries out the abort step: log record, tombstones, cleared marks |
| Sessions.Session.MarkInsert | src/executor/execute_insert.cpp:192-207 | carries out the insert step: log record, version record, write set |
| Sessions.Session.MarkDelete | src/executor/execute_delete_update.cpp:23-37 | carries out the delete step |
| Sessions.Session.Execute | src/executor/session.cpp:123-185 | a statement is a run of steps that pass the program's own tests, with the effect of its kind: BEGIN opens a transaction on the latest commit; ROLLBACK leaves the transaction aborted, its rows seen by nobody and everybody's view unchanged; COMMIT leaves it committed, and the next transaction sees what it inserted and did not delete; writes alone leave a new committed transaction with exactly these records in order; writes inside a transaction extend its log and write sets by exactly these rows |
| Statements.Executed | src/executor/session.cpp:123-185 | the same for the states: the steps of each kind of statement have its effect, said of the log, the running transactions and what they see |
| Statements.CommitEnds | src/executor/session.cpp:93-100 | committing from a consistent state lets the next transaction see exactly what was inserted and not deleted, of the rows it wrote |
| Statements.AbortEnds | src/executor/session.cpp:102-121 | aborting from a consistent state hides the transaction's rows from every transaction and leaves every other view of every registered row as it was |
| Statements.AloneEnds | src/executor/session.cpp:152-185 | a transaction of its own leaves its begin, the listed writes in order and its commit in the log, and shows the next transaction what it inserted and did not delete |
| Statements.NewcomerSees | src/transaction/version_store.cpp:62-94 | of the registered rows a new transaction sees exactly those that a committed transaction inserted and none deleted |
| Sessions.Restart | src/transaction/recovery_manager.cpp:11-60 | opening the log again and recovering yields the crash state |
| BufferClients.Clients.Serve | src/buffer/buffer_manager.cpp:43-235 | any interleaving of fetches, reads, writes, unpins, allocations, deletions, flushes and flusher steps, with any pins outstanding, answers like a plain map of pages up to the first request that finds no room; a page pinned throughout stays in its frame |
| BufferClients.Clients.Do | src/buffer/buffer_manager.cpp:43-235 | one request: the plain memory and the pins change as the request says, and pages pinned before and after stay in their frames |
| BufferClients.Clients.HeldFrame | src/buffer/buffer_manager.cpp:58-118 | the frame of a pinned page holds exactly the page's content, whatever others did meanwhile |
| BufferClients.LastWriteRead | src/buffer/buffer_manager.cpp:58-235 | in every run, reading a page gives what was last written to it, or zeros if it was only allocated, whatever was done to other pages meanwhile |
| BufferClients.PinAgrees | src/buffer/buffer_manager.cpp:58-118 | fetching or allocating a page adds one pin to its frame and leaves every other pinned page in its frame |
| BufferClients.Starve | src/buffer/buffer_manager.cpp:43-56 | a run: in a new pool of two frames, two pages allocated and the second let go, and no number of attempts finds the free frame |
| BufferPool.BufferManager.FetchPage | src/buffer/buffer_manager.cpp:75-100 | pins the page's frame; every live page keeps its content as seen by clients, and pinned frames keep page and bytes |
| BufferPool.BufferManager.UnpinPage | src/buffer/buffer_manager.cpp:102-124 | releases one pin and changes no page's content |
| BufferPool.BufferManager.FlushPage | src/buffer/buffer_manager.cpp:126-143 | writes the page to its file and changes no page's content |
| BufferPool.BufferManager.NewPage | src/buffer/buffer_manager.cpp:145-166 | adds the table's next page, zeroed, pinned and dirty, and changes no other page |
| BufferPool.BufferManager.DeletePage | src/buffer/buffer_manager.cpp:186-206 | drops an unpinned page, refuses a pinned one, and changes no other page |
| BufferPool.BufferManager.EvictFrame | src/buffer/buffer_manager.cpp:59-73 | writes a dirty frame back before forgetting its page, so no content changes |
| BufferPool.BufferManager.FindVictimFrame | src/buffer/buffer_manager.cpp:43-56 | returns a free frame or an unpinned one |
| BufferPool.BufferManager.SweepForUnpinned | src/buffer/buffer_manager.cpp:49-55 | the retry loop ends with an unpinned frame whenever one can be found at all |
| BufferPool.BufferManager.FlushCandidates | src/buffer/buffer_manager.cpp:208-219 | collects exactly the dirty unpinned frames |
| BufferPool.BufferManager.FlushCandidate | src/buffer/buffer_manager.cpp:221-234 | flushing a frame after the lock was released is safe whatever happened to the frame meanwhile |
| BufferPool.BufferManager.Close | src/buffer/buffer_manager.cpp:27-41 | after shutdown the files alone hold every live page's content |
| BufferPool.BufferManager.constructor | src/buffer/buffer_manager.cpp:12-25 | an empty pool with every frame free |
| BufferPool.PoolPartition | src/buffer/buffer_manager.cpp:43-206 | mapped and free frames partition the pool and no frame serves two pages |
| BufferPool.DirtyCountUpdate | src/buffer/buffer_manager.cpp:114-120 | the dirty counter changes with one frame's dirty bit |
| BufferPool.ForgetOk | src/buffer/buffer_manager.cpp:59-73 | a clean unpinned frame agrees with its file, so forgetting it loses nothing |
| ClockSweep.SearchEndsIff | src/buffer/buffer_manager.cpp:43-56 | the victim search ends exactly when some frame that needs fewer sweeps than every earlier frame is unpinned |
| ClockSweep.FrameZeroSuffices | src/buffer/buffer_manager.cpp:43-56 | with frame 0 unpinned, LRU_MAX_PIN evictions are enough |
| ClockSweep.FrameZeroStarves | src/buffer/buffer_manager.cpp:43-56 | a pinned frame 0 with a low counter makes the search spin for ever, however many other frames are unpinned |
| ClockSweep.RetryRecords | src/buffer/buffer_manager.cpp:43-56 | a failed attempt keeps the set of frames the search can still reach, apart from its victim |
| ClockSweep.ClockSweepLRU.Evict | src/buffer/clock_sweep_lru.cpp:11-21 | the sweeps end at the first frame, in order, that needs the fewest rounds, and lower every counter accordingly |
| ClockSweep.ClockSweepLRU.Pin | src/buffer/clock_sweep_lru.cpp:24-29 | raises a counter up to its limit |
| PredicatePushdown.OptimizeIs | src/optimizer/optimizer.cpp:12-25 | for every well-formed plan the optimized plan fails exactly if a row meets a predicate that reads a column its input lacks, or an operator itself fails; otherwise its rows are those of the plan in which each null test looks at the NULL bits it finds where its conjunct was put |
| PredicatePushdown.OptimizeSame | src/optimizer/optimizer.cpp:12-25 | if every conjunct sent to one input of a join reads only that input's columns, and null tests sent below all joins test columns without a NULL among the joined rows, folding then pushdown returns a plan with the same rows in the same order |
| PredicatePushdown.SteadyTraced | src/optimizer/rule/predicate_pushdown.cpp:112-206 | where pushed null tests meet no NULL, the bits below the joins and those above give the same rows, through filters, projections, joins and opaque operators |
| NullTests.NullTestSame | src/optimizer/rule/predicate_pushdown.cpp:155-187 | for any join of two tables below a null test of the left one's column, the optimized query returns the same rows exactly if no row with a NULL in that column has a join partner |
| NullTests.NullTestRun | src/optimizer/rule/predicate_pushdown.cpp:155-187 | a database of two rows on which the query and the optimized query return different rows, for either null test |
| PushdownRows.EmittedLeft | src/include/executor/join_util.h:48-54 | what a join emits does not depend on the NULL bits of its left input |
| PushdownRows.SelectEmitted | src/include/executor/join_util.h:90-101 | predicates above a join see valid cells only: selecting emitted rows is selecting the pairs with all cells valid |
| PredicatePushdown.PushdownIs | src/optimizer/rule/predicate_pushdown.cpp:112-206 | pushing extra predicates into a plan selects exactly the rows that satisfy them all, each looking at the NULL bits it finds where it was put, or fails exactly if a misdirected one meets a row, through filters, projections, joins and opaque operators |
| PredicatePushdown.AimedNeverHits | src/optimizer/rule/predicate_pushdown.cpp:112-206 | conjuncts that read only the columns of the input they are sent to never make the pushed plan fail |
| PredicatePushdown.WrapLands | src/optimizer/rule/predicate_pushdown.cpp:87-96 | the filter in which pushed predicates end fails exactly if there is a row and one of them reads a missing column |
| NullTests.NullTestAimed | src/optimizer/rule/predicate_pushdown.cpp:53-71 | a null test on a column of the left table is well aimed: it never makes the optimized query fail |
| PushdownRows.SelectJoin | src/optimizer/rule/predicate_pushdown.cpp:155-187 | selecting below both sides of a join is selecting the pairs it finds, order included |
| PredicatePushdown.SideColumns | src/optimizer/rule/predicate_pushdown.cpp:73-83 | a predicate whose collected tables belong to one input reads only that input's columns, unless it contains a unary operator |
| NullTests.NullTestMisplaced | src/optimizer/rule/predicate_pushdown.cpp:53-71 | a null test on the right table of a join is pushed to the left table, and the optimized query fails exactly when that table has a row |
| PredicatePushdown.SplitSat | src/optimizer/rule/predicate_pushdown.cpp:20-36 | a predicate holds exactly if all its AND-parts hold |
| PredicatePushdown.CombineAnd | src/optimizer/rule/predicate_pushdown.cpp:38-51 | the loop nests the predicates to the left |
| PredicatePushdown.ConjunctionSat | src/optimizer/rule/predicate_pushdown.cpp:38-51 | the combined predicate holds exactly if all parts hold |
| PredicatePushdown.CollectTableRefs | src/optimizer/rule/predicate_pushdown.cpp:53-71 | collects each referenced table, not looking below unary operators |
| PredicatePushdown.TestOnlyRefs | src/optimizer/rule/predicate_pushdown.cpp:73-83 | decides whether all collected tables are allowed |
| PredicatePushdown.OptimizeSinks | src/optimizer/rule/predicate_pushdown.cpp:112-206 | in every optimized plan no filter stands on a filter or a projection, and no conjunct above a join refers to the tables of one side only |
| PredicatePushdown.WrapSelects | src/optimizer/rule/predicate_pushdown.cpp:87-96 | the wrapping filter selects the rows that satisfy every predicate |
| ConstantFolding.FoldExprSame | src/optimizer/rule/constant_folding.cpp:90-141 | on every row the folded expression has the original's value or failure, and counts as text exactly if the original does |
| ConstantFolding.FoldPlanSame | src/optimizer/rule/constant_folding.cpp:143-166 | folding a plan's filters and dropping constant-true ones keeps its rows, or its failure |
| ConstantFolding.FoldWellFormed | src/optimizer/rule/constant_folding.cpp:143-166 | folding keeps plans well formed |
| ConstantFolding.FoldConstantsEval | src/optimizer/rule/constant_folding.cpp:29-75 | each folding rule computes what the evaluator computes |
| ConstantFolding.FoldsCompletely | src/optimizer/rule/constant_folding.cpp:90-141 | arithmetic and comparisons of numeric constants, without division by zero, fold to one constant with the expression's value |
| ConstantFolding.TrueFilterGoes | src/optimizer/rule/constant_folding.cpp:143-166 | a filter whose constant predicate is true disappears from the plan, and one whose predicate is false stays |
| Expressions.NumbersCompared | src/include/executor/expression_evaluator.h:163-170 | comparing two numbers gives 1 exactly if a > b, a >= b, a < b, a <= b, a == b, a != b as reals, and 0 otherwise |
| Expressions.NumbersCalculated | src/include/executor/expression_evaluator.h:171-174 | the arithmetic operators give the sum, difference, product and quotient; division by zero gives the infinity of the dividend's sign, or no number for zero |
| Expressions.InfinitiesCompared | src/include/executor/expression_evaluator.h:165-170 | every finite number lies strictly between the two infinities |
| Expressions.NoNumberCompared | src/include/executor/expression_evaluator.h:165-174 | comparisons with NaN are false apart from inequality, and arithmetic with it gives NaN |
| Expressions.TextsCompared | src/include/executor/expression_evaluator.h:117-136 | texts compare by their first different character, a beginning of a text being less; LIKE, NOT LIKE and ILIKE give what the pattern denotes on texts without '%' |
| Expressions.TruthCombined | src/include/executor/expression_evaluator.h:163-164 | everything but zero is true; AND and OR need both sides' values and fail if one fails |
| Expressions.LeavesRead | src/include/executor/expression_evaluator.h:62-114 | constants and columns give their values, NULL or not, and the null tests give the column's validity bit |
| Common.TextLessIs | src/include/executor/expression_evaluator.h:119-126 | one text is less exactly if it is a proper beginning of the other or has the smaller character at the first difference |
| Expressions.EvalAgree | src/include/executor/expression_evaluator.h:34-193 | an expression only depends on the columns it names |
| Plans.EvalTotal | src/include/executor/expression_evaluator.h:138-178 | a well-typed predicate evaluates without failure on every row of its columns |
| Plans.FilterKeeps | src/planner/physical/physical_filter_operator.cpp:31-55 | a filter keeps each row exactly if its predicate is true, in order, and fails if the predicate fails on a row |
| Plans.JoinPairs | src/planner/physical/physical_join_operator.cpp:107-146 | two rows join exactly if all key columns store equal values; pairs come for each right row in order, and for it the left rows in order |
| Plans.ProjectionTakes | src/include/executor/chunk_util.h:69-84 | a projection has each row's named cells |
| Plans.JoinEmits | src/include/executor/join_util.h:90-103 | every output cell of a join is valid and has its value |
| Plans.DenoteShaped | src/include/executor/expression_evaluator.h:34-60 | a well-formed plan only produces rows of its columns |
| LikeMatcher.MatcherRightIff | src/include/executor/like_matcher.h:16-41 | the matcher agrees with the meaning of every pattern exactly for the texts without '%' |
| LikeMatcher.MatchesDenotes | src/include/executor/like_matcher.h:16-41 | on texts without '%' the matcher decides what LIKE patterns denote, case-insensitively too |
| LikeMatcher.PatternMeans | src/include/executor/like_matcher.h:22-48 | what the parts of a pattern stand for: an ordinary character for itself, under ILIKE also for the other case of a letter, '_' for any one character, '%' for any text |
| LikeMatcher.Match | src/include/executor/like_matcher.h:16-41 | the loop computes the matcher function and ends |
| LikeMatcher.StarAgain | src/include/executor/like_matcher.h:27-35 | only the latest '%' needs to be remembered |
| LikeMatcher.SpoilerRun | src/include/executor/like_matcher.h:22-40 | for each text with '%', a pattern on which the matcher rejects |
| ExternalSort.ExternalSort | src/planner/physical/physical_sort_operator.cpp:212-337 | with input, text columns are refused first and unknown sort columns second; otherwise the output has exactly the values of the input, for any chunking and any number of runs, and of any two of its rows the earlier has the smaller value in the first sort column in which they differ, the greater if the column is descending; its rows are the input rows exactly if no input cell is NULL |
| ExternalSort.PermutedIff | src/planner/physical/physical_sort_operator.cpp:26-109 | rows emitted without NULL that have the values of the stored rows are those rows exactly if none of them had a NULL |
| ExternalSort.ResolveColumns | src/planner/physical/physical_sort_operator.cpp:236-243 | the sort columns resolve exactly if all are columns of the input, a repeated id to its last position |
| ExternalSort.MakeRuns | src/planner/physical/physical_sort_operator.cpp:212-268 | the input's values are cut into ordered runs of at most 4096 rows holding all rows |
| ExternalSort.MergeRuns | src/planner/physical/physical_sort_operator.cpp:274-328 | the k-way merge outputs all rows of all runs in order |
| ExternalSort.PickBest | src/planner/physical/physical_sort_operator.cpp:308-315 | the selected reader's row is least among all rows in memory |
| ExternalSort.TopN | src/planner/physical/physical_sort_operator.cpp:157-178 | an unknown sort column is refused; otherwise n rows by value, each with the smaller value than later rows and rows left out in the first sort column in which they differ, the greater if it is descending, texts by first difference; NULLs come out as values |
| ExternalSort.ComparatorOrders | src/planner/physical/physical_sort_operator.cpp:71-88 | the multi-column ascending/descending comparator is a strict weak order on rows of a table |
| ExternalSort.LessByFirst | src/planner/physical/physical_sort_operator.cpp:71-88 | a row sorts before another exactly if it has the smaller value in the first sort column in which they differ, the greater if that column is descending |
| ExternalSort.Compare | src/planner/physical/physical_sort_operator.cpp:71-88 | the comparison loop decides by the first sort column in which the rows differ: the smaller value first, the greater if the column is descending |
| Joins.JoinAll | src/planner/physical/physical_join_operator.cpp:55-272 | nested-loop, hash, merge and index nested-loop join produce the same rows equally often, those of the bag of joined rows |
| Joins.NestedLoopJoin | src/planner/physical/physical_join_operator.cpp:55-90 | produces the join's bag of rows |
| Joins.HashJoin | src/planner/physical/physical_join_operator.cpp:107-146 | building and probing the hash table produces the join's bag of rows |
| Joins.MergeJoin | src/planner/physical/physical_join_operator.cpp:161-222 | sorting and merging produces the join's bag of rows, blocks of repeated keys on both sides included |
| Joins.MergeSorted | src/planner/physical/physical_join_operator.cpp:187-211 | the two cursors and the block cross products find every match once |
| Joins.IndexNLJoin | src/planner/physical/physical_join_operator.cpp:237-272 | probing the hash index on join keys produces the join's bag of rows |
| Joins.JoinBagHas | src/include/executor/join_util.h:62-68 | the bag holds a row exactly if it joins a left and a right row of equal keys |
| Joins.JoinPairs | src/include/executor/join_util.h:62-103 | a pair of rows is joined once if it agrees on all key columns, left columns first, and not at all otherwise; the bag of two lists is the sum of the bags of their parts |
| Joins.KeysEqual | src/include/executor/join_util.h:62-68 | decides whether two rows agree on all key columns |
| Joins.LeftsPermuted | src/planner/physical/physical_join_operator.cpp:178-179 | the join's bag does not depend on the order of an input |
| Sorting.Sort | src/planner/physical/physical_sort_operator.cpp:252-256 | the library sort: an ordered permutation |
| TableRuns.InsertedRowsSeen | src/transaction/version_store.cpp:8-94 | the life of an INSERT as scans see it: its own transaction finds exactly the inserted rows behind the rows it saw before, other transactions when their snapshot covers the commit, nobody after an abort; nothing else changes for anybody |
| TableRuns.SeqScan | src/planner/physical/operator/physical_seq_scan_operator.cpp:15-60 | a scan returns exactly the table's rows that the reader may see, with their addresses, in address order |
| TableRuns.InsertRows | src/executor/execute_insert.cpp:134-233 | an INSERT adds exactly its rows to what the table holds, with the literals of the statement in the named columns, each at the address under which it is registered, also when it stops at a row that is too large |
| TableRuns.RecordsVisible | src/transaction/version_store.cpp:8-94 | the version records of inserted rows make them visible to their writer, to later snapshots after the commit, to nobody after an abort, and change the visibility of no other row |
| TableRuns.OldAddress | src/executor/execute_insert.cpp:191-194 | inserted rows get addresses that no row of the table had |
| TableInsert.ExecuteInsert | src/executor/execute_insert.cpp:54-234 | ends as the request and the page capacity dictate; the table then holds its old rows and the placed rows at the returned addresses, whatever page sizes the halving picks; row k has in every column the k-th row's literal for the last position naming the column, and NULL if no position does; a value of a kind the column does not take is refused before anything is placed; the other errors leave the table unchanged |
| TableInsert.StopsAtLargeRow | src/executor/execute_insert.cpp:185-188 | an insert stops early only at a row that does not fit on a page of its own |
| TableInsert.TakeHalves | src/executor/execute_insert.cpp:137-189 | a page takes the rows of the first of n, n/2, n/4, ... that fits, and none before fits |
| TableInsert.PlacePage | src/executor/execute_insert.cpp:137-189 | the next page receives the first of n, n/2, n/4, ... remaining rows that fit, and exactly these |
| TableInsert.BuildSlice | src/executor/execute_insert.cpp:144-183 | a slice of the rows is on the page afterwards exactly if it fits; otherwise the page is unchanged |
| TableInsert.CutValidity | src/executor/execute_insert.cpp:152-158 | null bits of a slice, counted from the start of their page, are those of its rows |
| TableInsert.CutTexts | src/executor/execute_insert.cpp:160-166 | the texts of a slice are serialized with offsets of their own |
| TableInsert.ListingIncreases | src/executor/execute_insert.cpp:191-194 | addresses increase from page to page and inside a page, so no two rows share one |
| InsertColumns.BuildColumn | src/executor/execute_insert.cpp:88-132 | fails exactly if some value has the wrong kind for the column; else the buffer holds in slot r the literal of row r for the last position naming the column, cut to 32 bits in an integer column, and the bitmap exactly the missing ones |
| InsertColumns.RowsForStored | src/executor/execute_insert.cpp:103-127 | every row has in every named column its own literal, integers cut to 32 bits, and NULL in the others |
| InsertColumns.StorableIff | src/executor/execute_insert.cpp:20-51 | a column can be stored exactly if none of its literals is of a kind it does not take |
| Common.PositionMap | src/executor/execute_insert.cpp:74-77 | a column named twice takes its last position |
| InsertColumns.RowsForFit | src/executor/execute_insert.cpp:20-51 | every value an INSERT stores has the kind and range of its column |
| DataPageView.TableDataPage.BuildFromColumns | src/buffer/table_data_page.cpp:152-232 | succeeds exactly if header, directory, compressed columns and null bitmaps fit in a page; then the page holds exactly the given columns with a valid checksum and the fields agree with a fresh view of it, and otherwise nothing changes |
| DataPageView.TableDataPage.constructor | src/buffer/table_data_page.cpp:12-50 | a view of a page reads its header, and the directory only of data pages |
| DataPageView.TableDataPage.WriteHeader | src/buffer/table_data_page.cpp:98-140 | the header fields are written one after the other and nothing behind them is touched |
| DataPageView.TableDataPage.GetColumnRaw | src/buffer/table_data_page.cpp:243-248 | decompresses the bytes the directory entry points at; out-of-range columns are an error |
| DataPageView.TableDataPage.GetColumnValidity | src/buffer/table_data_page.cpp:251-256 | returns the null bits of the column |
| DataPageView.TableDataPage.VerifyChecksum | src/buffer/table_data_page.cpp:235-240 | accepts exactly pages without checksum or with the checksum of their content |
| TablePages.ColumnReadBack | src/buffer/table_data_page.cpp:152-256 | every column of a written page reads back as it was given, with its null bits |
| TablePages.DirectoryReadBack | src/buffer/table_data_page.cpp:27-50 | opening a written page finds the directory that was written |
| TablePages.HeaderRoundTrip | src/buffer/table_data_page.cpp:53-140 | a header is read back as it was written |
| TablePages.HeaderLayout | src/include/buffer/table_data_page.h:40-55 | every header field is a little-endian number at its fixed bytes |
| TablePages.PageLayout | src/include/buffer/table_data_page.h:40-55 | what the header of a written page says at its fixed bytes: magic number, version, page type, codec, row and column counts, where directory, data and null bits start |
| TablePages.ColumnLayout | src/include/buffer/table_data_page.h:33-38 | entry i of the directory says where the i-th column's compressed bytes lie, and they lie there, behind the columns before |
| TablePages.NullLayout | src/buffer/table_data_page.cpp:152-256 | the null bits lie behind all columns, column by column |
| VarcharCodec.DecodeEncode | src/include/executor/varchar_codec.h:24-75 | reading back a serialized text column gives the texts, for every column below 2^31 bytes |
| VarcharCodec.TextLayout | src/include/executor/varchar_codec.h:24-50 | a serialized text column is the number of texts, the positions of the texts and of the end as little-endian words, and the texts |
| VarcharCodec.SerializeVarlenColumn | src/include/executor/varchar_codec.h:24-50 | produces row count, offsets from 0 and texts of the slice |
| VarcharCodec.DeserializeVarlenColumn | src/include/executor/varchar_codec.h:54-75 | fails exactly on buffers that are too short, and otherwise loads the texts the offsets cut out |
| ColumnVectors.Vector.AppendString | src/include/executor/chunk.h:95-101 | appends one text and keeps the others |
| ColumnVectors.Vector.SetVarColumn | src/include/executor/chunk.h:124-131 | replaces the texts by those the offsets cut out of the data |
| ColumnVectors.Vector.GetString | src/include/executor/chunk.h:86-91 | returns the text of a row |
| ColumnVectors.Vector.GetCell | src/include/executor/chunk.h:72-108 | reads NULL for a cleared validity bit and the stored value otherwise |
| ByteCodec.ClearAt | src/include/executor/chunk.h:106-117 | clearing a row's bit changes the bit of no other row |
| ByteCodec.ClearValue | src/include/executor/chunk.h:106-117 | clearing bit i takes 2^i off the byte exactly if the bit was set |
| TableScan.TableScanIterator.Next | src/buffer/table_scan_iterator.cpp:80-103 | delivers the rows of the next data page and passes only over pages without rows |
| TableScan.TableScanIterator.FillChunkFromPage | src/buffer/table_scan_iterator.cpp:39-76 | the chunk shows exactly the rows stored in the page |
| TableScan.TableScanIterator.LoadCurrentPage | src/buffer/table_scan_iterator.cpp:17-29 | keeps the page exactly if it is a data page |
| TableScan.StoredColumn | src/buffer/table_scan_iterator.cpp:58-72 | the raw bytes and null bits a page delivers are those of the stored rows |
| IndexKeys.StrictTotalOrder | src/include/index/index_key.h:12-66 | any two keys are equal or ordered one way, and the order is transitive |
| IndexKeys.Compare | src/include/index/index_key.h:47-54 | the comparison loop decides the column-wise order: the first different column decides, and a proper beginning comes first |
| IndexKeys.LessIs | src/include/index/index_key.h:21-54 | a key is less exactly if it is a proper beginning of the other, or has the smaller value in the first column in which they differ: numbers by value, texts by their first difference, numbers before texts |

## Left out

- DiskBPlusTree.DiskBPlusTreeIndex.Insert: when a parent is not found the model stops; what reading and writing page -1 does to the table is not modelled. Indexes have at least three slots to a page.
- DiskTreeRuns.Serve: keys are integers, standing for column-value vectors without NaN, which `IndexKeys.StrictTotalOrder` shows to be in a strict total order.
- DiskPage.SlotsDisjoint: covers the byte layout of index pages; the tree itself works on the slot arrays that this layout provides, not on bytes, and reaches pages directly instead of through the buffer pool.
- MemBPlusTree.BPlusTreeIndex.Insert: the order is at least 1; keys are integers as above; ownership and freeing of nodes is not modelled.
- Snapshots.ReachableSnapshot: rows of one table (version records are keyed by row address alone), begins, writes, commits and aborts are atomic steps that each join several locked sections (`Snapshots.BeginInsideCommit` says what that leaves out for commits; the order of log records of sections that run at the same time is fixed to that of the steps), registered rows are only deleted while unmarked (`DeleteMarks.MarkDecides`), inserted addresses are fresh. Rows without a version record are visible to everybody and are not part of the statement; `DeleteMarks.UnregisteredStays` is about them.
- Sessions.Session.Execute: parsing, binding, planning and execution of the statement are replaced by the list of rows it writes; a statement that throws is not modelled.
- BufferPool.BufferManager.FetchPage: clients only fetch allocated pages, page counters stay above every page in use, and the last pin to leave a written page says that it is dirty. The three parallel vectors of the pool are one array of frame records. The search for a frame must be able to end, for which `ClockSweep.SearchEndsIff` gives the exact condition.
- BufferClients.Clients.Serve: a run stops at a request that needs a frame when the search for one cannot end; requests that other threads would unblock are later requests of the same run.
- BufferPool.BufferManager.UnpinPage: waking the flusher thread is left out; the flusher is a step that may happen at any time.
- PredicatePushdown.OptimizeSame: plans whose predicates are well typed, joins with two inputs over different tables and no text columns; predicates sent to a side read that side's columns and null tests sent below joins meet no NULL, without which `PredicatePushdown.OptimizeIs` has the exact outcome; sorting, limits and aggregation are opaque operators.
- ConstantFolding.FoldExprSame: numbers are reals with infinities and NaN, without rounding and negative zero; which message a failure carries is not modelled.
- LikeMatcher.MatcherRightIff: lower-casing is that of the C locale.
- ExternalSort.ExternalSort: numbers are reals without NaN; rows have at least one column; the run files hold rows instead of bytes; the library sorts are some ordered permutation.
- Joins.JoinAll: rows are rows of values. NULL bits of the inputs are lost, every output cell is valid, as `Plans.Denote` models it; keys without NaN and negative zero; output values are not cast back to 32-bit integers; at most 2^32 build rows, because the index join keeps row positions in 32 bits.
- Snapshots.AbortedNeverSeen: holds until the next crash; see `Snapshots.AbortedReappears`.
- TableInsert.ExecuteInsert: all columns of one statement stay below 2^31 bytes and their pages' sizes below 2^32, so that no 32-bit size wraps; the compression library gives back what it got and lengthens its input at most twofold plus 64 bytes; checksum and conversions to double are parameters. Log records and index entries of the rows are represented by the returned addresses.
- TableRuns.SeqScan: the table has at least one page. For a table without pages the program fetches page 0, which nobody allocated.
- VarcharCodec.DeserializeVarlenColumn: offsets in the buffer start at 0 and do not decrease, as the vector that takes them demands.
- DataPageView.TableDataPage.constructor: the directory of a data page lies inside the page.
- TableScan.TableScanIterator.Next: pages are reached through a list of page contents, which is what `BufferClients.Clients.Serve` shows the buffer pool to provide.
- SQL parsing, transformer, binder, catalog, table heap, file handles and the command line.
- Hash aggregation, limit, project, distinct and the data-definition operators.
- Index maintenance during deletes and aborts: indexes are changed before the commit and not restored by an abort.
- Page numbering after a restart.
- Threads, mutexes and condition variables: locked sections, and the steps named above as a whole, are atomic.
