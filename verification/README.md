# A verified model of the minisql storage engine

This project models the core of minisql, a C++ database storage engine, in Dafny 4.11, and proves what its components
are for. `dafny verify dfyconfig.toml` checks everything.

| component | files | main results |
|---|---|---|
| B+ tree index | `BPlusTreeNodes`, `BPlusTreeInvariant`, `BPlusTreeInsert`, `BPlusTreeSeparators`, `BPlusTreeRemove`, `BPlusTree`, `BPlusTreePages` | the tree is a map from keys to row ids, through any cascade of splits, merges and redistributions |
| keys at position 0 | `BPlusTreeGaps`, `BPlusTreeMerge`, `BPlusTreeRepair`, `BPlusTreeExamples` | which insertions and removals keep them in order, and exactly when a removal that makes separators of them keeps the search order |
| index scans of the tree | `BPlusTreeScan` | `ScanKey` answers right exactly when the probe is not in a gap |
| log recovery | `LogRecovery`, `RecoveryManager` | after any strict log, from any checkpoint and in any undo order, every key is as its last committed writer left it |
| table page | `ByteCodec`, `SlottedPage`, `TablePage` | 4096 bytes refine a sequence of slots holding tuples, the tuples partition the used bytes, and no operation on tuples touches the page's links |
| page allocator | `BitmapPage`, `DiskManager` | the allocated pages are a set, counted by every counter on disk, and pages never overlap |
| buffer pool | `LRUReplacer`, `BufferPool` | every frame is free, evictable or pinned; the eviction order is the order of last release; over any run dirty flags and pins are what the calls say |
| reader-writer latch | `ReaderWriterLatch` | mutual exclusion and no lost wakeup over every interleaving |
| query plan | `IndexScan` | from a condition to its rows: when a select yields the rows of a sequential scan, and exactly when it does not |
| rows and keys | `RowCodec`, `GenericKey` | serialisation is inverted by deserialisation; the key comparison is a total order that the first differing column decides |

How each part is modelled:

* **B+ tree.** Pages are values in a map from page id to page, so the store is perfect: there is no pinning, eviction or
  I/O. The class `BPlusTree` updates this map and the root id step by step as the C++ does. A ghost field `shape` gives
  each page its level and two intervals: the keys that searches lead to the page, and the keys that may be stored
  below it. The ghost field `contents` is the map that the tree stands for. Page ids come from an arbitrary fresh
  choice, and a deleted page is dropped from the map. Keys are integers: the tree only compares keys, and
  `GenericKeys` shows that comparison to be a total order. The in-place work of the two page classes on their pair
  arrays is modelled in `BPlusTreePages`, with the same loops.
* **Two orders.** No search reads the key at position 0 of an internal page, and `Valid` leaves it alone: every
  insertion and every search is proved for every tree in this search order. Merging appends slots as they are, and
  moving a last child puts it before them, so that this key becomes a separator; `KeyZeroOk` says that all such keys
  could serve as separators (the key-zero order). Without it a removal can leave a separator that does not separate.
  `Remove` is proved for every tree all the same: what the pages then are is told by comparison with a tree that differs
  in keys of internal pages only (`Mirrors`, `WellLinked`), and they are in order exactly when `RemovalSeparates` held.
* **Recovery.** A log is a sequence; the number of a record is its position. A strict history is one where each record
  is true of the state it is logged in and touches no key that another unended transaction wrote. What
  must be left is told twice: `LastWriterWins` says it key by key from the log alone, and determines the database;
  `CommittedOnly` applies the records of committed transactions in order, and satisfies it. `std::exit` is the answer
  `ok == false`.
* **Table page.** `TablePage` works on an array of 4096 bytes with little-endian numbers. `SlottedPages` describes the
  same changes on values. `Links` are the
  header words that place the page in its table. Rows are byte strings here; `Rows` supplies the bytes.
* **Allocator.** The file is a map from physical page numbers to pages, each typed by who wrote it. That no bitmap is
  ever read from a data page, or the other way round, is part of what is proved (`Layout`).
* **Buffer pool.** Frames, page table, free list and replacer are as in the source, and the disk is the allocator above.
  The replacer is a doubly linked list of heap nodes. `PoolRuns` is about runs of calls.
* **Latch.** Each run of a method body between taking the mutex and returning or sleeping is one step, because the
  mutex excludes everything else. Sleepers wake by notification or spuriously.
* **Plans.** A condition is a tree of comparisons under `and` and `or`; an index is its answers, and only the answers to
  the comparisons of the condition matter (`LookupsExact`). `SelectOnTrees` gets them from `ScanKey`, one look-up for
  each comparison and index on its column, made before the plan is run instead of during it.

Where code and documentation differ, the code is modelled:

* `AdjustRoot` (`minisql/src/index/b_plus_tree.cpp:487-491`) drops a leaf root that still has one entry. `Remove` says
  exactly when this happens: when one key would be left (`DropsLast`, `LastEntryLost`).
* `Begin(key)` gives the end iterator when the key lies beyond the last entry of its leaf
  (`minisql/src/index/b_plus_tree.cpp:543-545`), although the next leaf has entries. `ScanKey` is wrong exactly then
  (`ScanFromGap` is an instance).
* The key at position 0 of an internal page is documented as invalid, but merging and redistributing store it as a
  separator. `Remove` copies the first key of a leaf up two levels and no further (`RefreshKeys` says exactly when that
  is not enough), and a key put back below the copied one breaks the key-zero order (`Insert`, `GapOpened`). Trees that
  have never had more than three levels keep it. `MergeInOrderIff` and `LastToFrontInOrderIff` say exactly when one step
  keeps the search order, `Remove` says it of a whole removal, and `MergeMisled` is a run that loses it.
* Redo looks a deleted key up with `operator[]`, which enters a default value for a missing key.
* The comment on disk layout gives a bitmap `PAGE_SIZE * 8` pages; the code gives it 32704.
* `DeAllocatePage` moves the counters even if the page was free.
* `FetchPage` and `NewPage` write a dirty victim under the incoming page's id
  (`minisql/src/buffer/buffer_pool_manager.cpp:63` and `:101`). The contracts say what the page then holds
  (`DirtyFrameMisleads` is an instance for every page).
* `MakePredicate` notices an `or` only at the top of a condition (`NestedOrIff`, `AnyConditionIff`).
* The planner counts indexes and columns to leave the filter out; the count does not say that every column has an index
  (`NoFilterIff`), nor that the list is right when every column has one (`PlannedRowsIff`).
* A comparison with null is wrapped in an integer field that is not null, so logic nodes see it as false.

Nothing was executed.

## Model

| member | source | states |
|---|---|---|
| BPlusTrees.BPlusTree.GetValue | minisql/src/index/b_plus_tree.cpp:73-93 | a search finds exactly the value the abstract map has for the key |
| BPlusTrees.BPlusTree.FindLeafPage | minisql/src/index/b_plus_tree.cpp:565-582 | the descent ends in the leaf whose interval covers the key, or in the leftmost leaf |
| BPlusTrees.BPlusTree.Insert | minisql/src/index/b_plus_tree.cpp:105-132 | for every key and every tree: false, and no change, exactly when the key is present; else the map gains exactly the pair, and search order, depth, links, parents and sizes are kept for every page; the key-zero order is kept exactly when the key is not in a gap |
| BPlusTrees.BPlusTree.InsertIntoLeaf | minisql/src/index/b_plus_tree.cpp:143-162 | the same for a tree with a root, with the split that an overfull leaf needs |
| BPlusTrees.BPlusTree.Split | minisql/src/index/b_plus_tree.cpp:172-209 | a page becomes two with the same pairs, the moved children adopted and the leaf chain relinked |
| BPlusTrees.BPlusTree.InsertIntoParent | minisql/src/index/b_plus_tree.cpp:221-272 | entering the new half makes the store a tree again with the same entries, however far the splits go up |
| BPlusTrees.BPlusTree.GrowNewRoot | minisql/src/index/b_plus_tree.cpp:223-253 | the halves of a root become children of a new one and the tree is one level deeper |
| BPlusTrees.BPlusTree.Remove | minisql/src/index/b_plus_tree.cpp:284-324 | for every tree: the entries lose exactly the key, unless one key would be left, which then goes too, and links, depth and sizes stay those of a tree; the pages stay in search order if and only if every key at position 0 that the repair makes a separator separates; the key-zero order is kept; where no key was in a gap, the keys in one before any repair are exactly those below the first key that is copied up but not far enough |
| BPlusTrees.BPlusTree.RefreshKeys | minisql/src/index/b_plus_tree.cpp:299-318 | copying the first key of a leaf up two levels keeps every page's bounds tight if and only if the leaf is not the first child of a first child of a page off the leftmost spine with a first key that rose |
| BPlusTrees.LowTreeOpensNoGap | minisql/src/index/b_plus_tree.cpp:299-318 | in a tree of up to three levels no removal leaves a key in a gap |
| BPlusTrees.LastInRoot | minisql/src/index/b_plus_tree.cpp:487-491 | only a leaf root can be left with one key |
| BPlusTrees.BPlusTree.DeleteEntry | minisql/src/index/b_plus_tree.cpp:293-318 | up to the refresh of separators two levels up: everything is in order but for one leaf that may lack an entry |
| BPlusTrees.BPlusTree.CoalesceOrRedistribute | minisql/src/index/b_plus_tree.cpp:333-366 | a page that lacks a pair is repaired, up to the root, with no entry lost and all links and sizes right, whatever the keys at position 0; the order is kept if and only if those that become separators separate (`RepairSeparates`) |
| BPlusTrees.BPlusTree.Coalesce | minisql/src/index/b_plus_tree.cpp:382-423 | two siblings become one page, the parent loses a slot, and whatever that starts further up ends in a tree but for separators, which is in order if and only if this merge and all later ones go through keys that separate |
| BPlusTrees.BPlusTree.RedistributeLeaf | minisql/src/index/b_plus_tree.cpp:437-452 | one entry changes sides, the separator follows, both leaves are large enough, and pages in order stay in order |
| BPlusTrees.BPlusTree.RedistributeInternal | minisql/src/index/b_plus_tree.cpp:457-473 | one child changes sides and is adopted, the separator follows, and both pages are large enough; pages in order stay in order if and only if the page is a first child or the key at its position 0 separates it from its sibling |
| BPlusTrees.BPlusTree.AdjustRoot | minisql/src/index/b_plus_tree.cpp:486-513 | a root with one child gives way to it; a leaf root with at most one entry is dropped with it |
| BPlusTreeInvariant.UniqueAtLevel | minisql/src/index/b_plus_tree.cpp:565-582 | at each level one page covers a key, so a search has one way to go |
| BPlusTreeInvariant.OneEntryPerKey | minisql/src/index/b_plus_tree.cpp:143-153 | no key is stored twice, in whatever leaves |
| BPlusTreeInsert.LeafInsertOrdered | minisql/src/index/b_plus_tree.cpp:154-155 | a key put where the binary search says keeps the whole store ordered |
| BPlusTreeInsert.SplitLeafStep | minisql/src/index/b_plus_tree.cpp:190-209 | a leaf split, entered in the parent, keeps order, separators, parents and the leaf chain |
| BPlusTreeInsert.SplitInternalStep | minisql/src/index/b_plus_tree.cpp:172-187 | an internal split, entered in the parent, keeps them too, with the moved children's parents changed |
| BPlusTreeInsert.GrowStep | minisql/src/index/b_plus_tree.cpp:223-253 | so does a new root above a split one |
| BPlusTreeSeparators.SetSeparator | minisql/src/index/b_plus_tree.cpp:437-473 | raising a separator moves a bound of every page on two spines, and the store stays ordered |
| BPlusTreeRemove.InternalMergeOrdered | minisql/src/index/b_plus_tree.cpp:406-423 | merging internal pages through the key at position 0 keeps the in-order entries, the bounds and the parents |
| BPlusTreeRemove.LastToFrontOrdered | minisql/src/index/b_plus_tree.cpp:467-470 | so does moving the last child to the right sibling |
| BPlusTreeRemove.FirstToEndOrdered | minisql/src/index/b_plus_tree.cpp:463-466 | and moving the first child to the left sibling |
| BPlusTreeRemove.LeafEvenStep | minisql/src/index/b_plus_tree.cpp:437-452 | a boundary entry that changes sides keeps the two leaves, the chain and all entries in order |
| BPlusTreeRemove.LeafMergeStep | minisql/src/index/b_plus_tree.cpp:382-401 | merging two leaves relinks the chain and keeps all entries |
| BPlusTreeRemove.MergeSizes | minisql/src/index/b_plus_tree.cpp:353-359 | after a merge only the parent can have too few pairs |
| BPlusTreeRemove.EvenSizes | minisql/src/index/b_plus_tree.cpp:360-362 | after a redistribution no page has too few |
| BPlusTreeRemove.DropRootOrdered | minisql/src/index/b_plus_tree.cpp:492-510 | the only child of a root can take its place |
| BPlusTreeGaps.LoosenOrdered | minisql/src/index/b_plus_tree.cpp:565-582 | the key-zero order implies the search order |
| BPlusTreeGaps.SameSearch | minisql/src/index/b_plus_tree.cpp:565-582 | the intervals that searches follow do not depend on the keys at position 0 |
| BPlusTreeGaps.AdmitsIff | minisql/src/index/b_plus_tree.cpp:143-162 | a leaf can store a key in key-zero order exactly when no page on the way there has a larger key at position 0 |
| BPlusTreeGaps.InsertInOrderIff | minisql/src/index/b_plus_tree.cpp:154-155 | putting a key into its leaf keeps the key-zero order, under whatever bounds, exactly when the leaf admits the key |
| BPlusTreeGaps.TightIff | minisql/src/index/b_plus_tree.cpp:143-162 | the two lower bounds of every page agree exactly when no key at all is in a gap |
| BPlusTreeGaps.GapKeys | minisql/src/index/b_plus_tree.cpp:299-318 | when one leaf's bounds differ, the keys in a gap are those between its two lower bounds |
| BPlusTreeGaps.InsertUndercuts | minisql/src/index/b_plus_tree.cpp:154-155 | a key stored in a gap is below the key at position 0 of a page whose left spine holds it |
| BPlusTreeGaps.InsertOutcome | minisql/src/index/b_plus_tree.cpp:105-162 | after whatever splits, the key-zero order is there exactly when the inserted key was not in a gap |
| BPlusTreeGaps.MergeMisroutes | minisql/src/page/b_plus_tree_internal_page.cpp:228-232 | after a merge, searches for a key below the one at position 0 of the right page stay in the left page |
| BPlusTreeMerges.MergeInOrderIff | minisql/src/page/b_plus_tree_internal_page.cpp:228-232 | merging two internal pages keeps the search order, under whatever bounds, if and only if the key at position 0 of the right page separates what lies below the two |
| BPlusTreeMerges.LastToFrontInOrderIff | minisql/src/page/b_plus_tree_internal_page.cpp:276-301 | so does moving the last child of the left page to the front of the right one |
| BPlusTreeMerges.OrderedInPlace | minisql/src/index/b_plus_tree.cpp:565-582 | in search order every separator separates what lies below the two children it stands between |
| BPlusTreeRepairs.MergeStands | minisql/src/index/b_plus_tree.cpp:382-423 | a merge, whatever the separators: the order is kept exactly when the key at position 0 of the right page separates, and else some separator below the parent no longer does |
| BPlusTreeRepairs.EvenStands | minisql/src/index/b_plus_tree.cpp:437-473 | the same of a pair that changes sides |
| BPlusTreeRepairs.BrokenKept | minisql/src/index/b_plus_tree.cpp:353-366 | a separator that does not separate stays so, because repair changes no page below the one that lacks a pair |
| BPlusTreeRepairs.BrokenUnordered | minisql/src/index/b_plus_tree.cpp:565-582 | then no bounds whatever put the pages in order |
| BPlusTreeRepairs.RepairEnds | minisql/src/index/b_plus_tree.cpp:333-423 | the whole repair ends in a tree but for separators, with the entries there were, and in order if and only if every merge and move went through a key that separates |
| BPlusTreeMerges.UndercutBreaksMerge | minisql/src/page/b_plus_tree_internal_page.cpp:228-232 | a key stored in a gap below the right page breaks the order at the merge |
| BPlusTreeExamples.GapOpened | minisql/src/index/b_plus_tree.cpp:299-318 | a tree of four levels in which a key is removed and put back: it is found, the key-zero order is gone, and the pages are given |
| BPlusTreeExamples.MergeMisled | minisql/src/index/b_plus_tree.cpp:284-324 | a run of removals and an insertion on that tree whose last removal merges three levels, the last time through the key above the one put back: no bounds put the pages in order, though they hold the right entries |
| BPlusTreeExamples.LastEntryLost | minisql/src/index/b_plus_tree.cpp:487-491 | two keys go in, one is removed, and the other is gone |
| BPlusTreeExamples.ScanFromGap | minisql/src/index/b_plus_tree.cpp:543-545 | a scan for the keys greater than one between two leaves misses all of them |
| BPlusTreeNodes.KeyIndex | minisql/src/page/b_plus_tree_leaf_page.cpp:54-66 | the binary search finds the first position whose key is not smaller |
| BPlusTreeNodes.LeafLookup | minisql/src/page/b_plus_tree_leaf_page.cpp:148-166 | the entry of a key is found exactly when it is there |
| BPlusTreeNodes.InternalLookup | minisql/src/page/b_plus_tree_internal_page.cpp:70-122 | the child is the one whose separators enclose the key, whatever the key at position 0 |
| BPlusTreeNodes.ValueIndex | minisql/src/page/b_plus_tree_internal_page.cpp:49-54 | the position of a child |
| BPlusTreePages.LeafPage.Insert | minisql/src/page/b_plus_tree_leaf_page.cpp:106-116 | shifting pairs up makes room at the sorted position and moves nothing else |
| BPlusTreePages.LeafPage.RemoveAndDeleteRecord | minisql/src/page/b_plus_tree_leaf_page.cpp:177-187 | exactly the entry of the key is shifted out, or -1 is returned and nothing changes |
| BPlusTreePages.LeafPage.MoveHalfTo | minisql/src/page/b_plus_tree_leaf_page.cpp:125-138 | the upper half, rounded down, goes to the new page |
| BPlusTreePages.LeafPage.MoveAllTo | minisql/src/page/b_plus_tree_leaf_page.cpp:196-207 | everything is appended to the left page, which takes over the link |
| BPlusTreePages.LeafPage.MoveFirstToEndOf | minisql/src/page/b_plus_tree_leaf_page.cpp:216-231 | the first entry goes to the end of the left page |
| BPlusTreePages.LeafPage.MoveLastToFrontOf | minisql/src/page/b_plus_tree_leaf_page.cpp:236-252 | the last entry goes to the front of the right page |
| BPlusTreePages.InternalPage.InsertNodeAfter | minisql/src/page/b_plus_tree_internal_page.cpp:145-155 | the new slot comes right after the first one with the given child |
| BPlusTreePages.InternalPage.MoveHalfTo | minisql/src/page/b_plus_tree_internal_page.cpp:164-189 | the upper half of the slots goes to the new page |
| BPlusTreePages.InternalPage.Remove | minisql/src/page/b_plus_tree_internal_page.cpp:199-206 | the slot after the given position is shifted out |
| BPlusTreePages.InternalPage.MoveAllTo | minisql/src/page/b_plus_tree_internal_page.cpp:228-232 | all slots are appended as they are, whatever the middle key |
| BPlusTreePages.InternalPage.MoveFirstToEndOf | minisql/src/page/b_plus_tree_internal_page.cpp:245-267 | the first child is appended under the middle key |
| BPlusTreePages.InternalPage.MoveLastToFrontOf | minisql/src/page/b_plus_tree_internal_page.cpp:276-301 | the last slot, with its own key, becomes the first of the right page |
| BPlusTreePages.OverflowFits | minisql/src/index/b_plus_tree.cpp:16-26 | one pair over the default maximum still fits in the page |
| BPlusTreeScan.IndexIterator.Advance | minisql/src/index/index_iterator.cpp:19-35 | the step goes to the entry with the next greater key in the whole tree, or to the end |
| BPlusTreeScan.BPlusTreeIndex.GetBeginIterator | minisql/src/index/b_plus_tree.cpp:523-532 | the first iterator has every key ahead of it |
| BPlusTreeScan.BPlusTreeIndex.GetBeginIteratorAt | minisql/src/index/b_plus_tree.cpp:539-548 | without a gap exactly the keys from the probe on are ahead; in a gap none, though greater keys exist |
| BPlusTreeScan.Collect | minisql/src/index/b_plus_tree_index.cpp:49-51 | iterating from one iterator to another lists each entry between once, in ascending order |
| BPlusTreeScan.BPlusTreeIndex.ScanAll | minisql/src/index/b_plus_tree_index.cpp:68-70 | from the first to the end: every entry of the map, once, in ascending order |
| BPlusTreeScan.BPlusTreeIndex.ScanKey | minisql/src/index/b_plus_tree_index.cpp:39-80 | the row ids are those of the entries whose keys are below, at or above the probe as the operator asks, if and only if it is = or <> or the probe is not in a gap |
| RecoveryManagement.RecoveryManager.Recover | minisql/src/include/recovery/recovery_manager.h:29-102 | for every strict history and matching checkpoint, each key ends with the value its last committed writer logged, or absent if that deleted or moved it, or as at the start if no committed transaction wrote it |
| LastWriters.CommittedIsLastWriter | minisql/src/include/recovery/recovery_manager.h:58-85 | in any log at all, applying the records of committed transactions in order gives each key what its last committed writer says |
| LastWriters.LastWriterDetermines | minisql/src/include/recovery/recovery_manager.h:29-102 | at most one database satisfies the last-writer law |
| LastWriters.UnendedTable | minisql/src/include/recovery/recovery_manager.h:46-56 | a transaction is in the table exactly if its last record neither commits nor aborts, and with that record |
| LastWriters.RedoByKey | minisql/src/include/recovery/recovery_manager.h:58-88 | redoing one record on any database, key by key: a missing deleted key counts as 0 and is entered unless 0 is what was deleted; a taken new key of an update keeps its value; an insertion of a key that is there, or an invalid record, ends it |
| LastWriters.UndoByKey | minisql/src/include/recovery/recovery_manager.h:158-180 | undoing one record on any database, key by key: an inserted key and the new key of an update go, a deleted key and the old key of an update come back as logged, unless they are there |
| RecoveryManagement.RedoneIsLastWriter | minisql/src/include/recovery/recovery_manager.h:39-91 | redo of a strict history never gives up and makes every key that no unended transaction wrote what its last committed writer says |
| StrictHistories.StrictExtends | minisql/src/include/recovery/log_rec.h:29-40 | which records can follow a strict history: those that begin a new transaction or link to the last record of their own unended one, tell the truth about the database, and write no key that another unended transaction wrote |
| StrictHistories.StrictPrefix | minisql/src/include/recovery/log_rec.h:29-40 | a strict history is one after each of its records, so that the law above reaches all of them from the empty log |
| RecoveryManagement.RecoveryManager.RedoPhase | minisql/src/include/recovery/recovery_manager.h:39-91 | redo reaches the state and the table of unended transactions at the end of the log, from whatever position; it gives up exactly when some record cannot be redone, which no strict history has; then every key that no unended transaction wrote is as its last committed writer left it |
| RecoveryManagement.RecoveryManager.UndoPhase | minisql/src/include/recovery/recovery_manager.h:97-102 | undoing the unended transactions, in any order, leaves every key as its last committed writer left it |
| RecoveryManagement.RecoveryManager.UndoTxn | minisql/src/include/recovery/recovery_manager.h:138-185 | the walk ends, because previous numbers decrease, and undoes each record on the chain |
| RecoveryManagement.RecoveryManager.AppendLogRec | minisql/src/include/recovery/recovery_manager.h:105-107 | a record numbered by its position becomes the last of the log |
| RecoveryManagement.LogRecFactory.Create | minisql/src/include/recovery/log_rec.h:29-40 | the number of a record is its position, and its link leads to the last record that its transaction logged, or to record 0 if there is none |
| RecoveryProof.ChainIsPass | minisql/src/include/recovery/recovery_manager.h:138-185 | walking a transaction's chain is one backward pass over its records |
| RecoveryProof.OwnersApart | minisql/src/include/recovery/recovery_manager.h:97-102 | unended transactions of a strict history never wrote the same key, so their undo order is free |
| RecoveryProof.Rollback | minisql/src/include/recovery/recovery_manager.h:138-185 | undoing a transaction gives its keys the committed values and changes no other key |
| RecoveryProof.LiveMirrorsCommitted | minisql/src/include/recovery/recovery_manager.h:43-90 | after every record the database is what committed work made it, off the keys of transactions that will not commit |
| RecoveryProof.AbortedNeverCommits | minisql/src/include/recovery/recovery_manager.h:53-56 | an aborted transaction has no commit record before or after |
| RecoveryProof.StillUnendedNeverCommits | minisql/src/include/recovery/recovery_manager.h:49-51 | a transaction unended at the end of the log has none either |
| RecoveryManagement.DeadEnd | minisql/src/include/recovery/recovery_manager.h:78-88 | once redo has given up, no longer log can be redone |
| RecoveryManagement.DirtyWriteIsLost | minisql/src/include/recovery/recovery_manager.h:97-102 | without strictness undoing one transaction can take away what another committed |
| RecoveryManagement.StrictHistoriesExist | minisql/src/include/recovery/log_rec.h:29-40 | a log of two interleaved transactions, one of which commits, is a strict history |
| TablePages.TablePage.Init | minisql/src/page/table_page.cpp:5-11 | a new page has no slots, its own id, the given previous page and no next page; the word of its LSN is left alone |
| TablePages.TablePage.SetNextPageId | minisql/src/include/page/table_page.h:44-46 | the next page id is the given one; the other links and all tuples are as before |
| TablePages.TablePage.SetPrevPageId | minisql/src/include/page/table_page.h:40-42 | the same of the previous page id |
| TablePages.HeaderLayout | minisql/src/include/page/table_page.h:11-17 | the first 24 bytes are page id, LSN, previous and next page id, free space pointer and tuple count, in this order, lowest byte first |
| TablePages.SlotLayout | minisql/src/include/page/table_page.h:15-17 | eight bytes for each slot follow, offset before size |
| TablePages.TablePage.InsertTuple | minisql/src/page/table_page.cpp:13-46 | succeeds exactly when the lengths of all tuples and the row and the header and slot entries, one more included, are within 4096 bytes; fills the first free slot, or a new one, and no other; the page's links stay |
| TablePages.TablePage.UpdateTuple | minisql/src/page/table_page.cpp:66-105 | succeeds exactly on a live slot when the lengths with the new row in its place are within 4096 bytes; that slot gets the new bytes, every other keeps its meaning, the links stay, and the old bytes are returned |
| TablePages.TablePage.MarkDelete | minisql/src/page/table_page.cpp:48-64 | flags exactly a live slot, and the links stay |
| TablePages.TablePage.RollbackDelete | minisql/src/page/table_page.cpp:136-145 | clears the flag of its slot and changes no other, nor the links |
| TablePages.TablePage.ApplyDelete | minisql/src/page/table_page.cpp:107-134 | frees its slot and, though the tuples before it move, changes no other, nor the links |
| TablePages.TablePage.GetTuple | minisql/src/page/table_page.cpp:147-166 | succeeds exactly on a live slot and gives the bytes last written there |
| TablePages.TablePage.GetNextTupleRid | minisql/src/page/table_page.cpp:168-192 | the first live slot from a position on, or none |
| TablePages.TablePage.MemMove | minisql/src/page/table_page.cpp:91-92 | the overlapping move copies the old bytes, and nothing outside its target changes |
| SlottedPages.ResizedView | minisql/src/page/table_page.cpp:91-103 | changing one tuple's length and shifting those before it changes the meaning of that slot only, and the page stays packed |
| SlottedPages.InsertedView | minisql/src/page/table_page.cpp:33-44 | a tuple put before the others is the only change |
| SlottedPages.FlaggedView | minisql/src/include/page/table_page.h:65 | so is a flag |
| SlottedPages.PackedSum | minisql/src/page/table_page.cpp:13-134 | the extents of the slots, flagged ones included, add up to the bytes past the free space pointer |
| SlottedPages.FreeIsWhatIsLeft | minisql/src/page/table_page.cpp:13-134 | the free space pointer is 4096 less the lengths of all tuples, those marked as deleted included |
| BitmapPages.SetAdds | minisql/src/page/bitmap_page.cpp:10-12 | or-ing one bit into one byte adds one offset to the set |
| BitmapPages.ResetRemoves | minisql/src/page/bitmap_page.cpp:16-18 | and-ing it away removes one |
| BitmapPages.BitmapPage.Get | minisql/src/page/bitmap_page.cpp:22-24 | the bit is set exactly when the offset is in the set |
| BitmapPages.BitmapPage.IsPageFree | minisql/src/page/bitmap_page.cpp:72-75 | free means within bounds and not in the set |
| BitmapPages.BitmapPage.AllocatePage | minisql/src/page/bitmap_page.cpp:32-49 | fails exactly when all bits are set; else hands out the hint, which was free, and the new hint is the first free offset going up from it and round the end, or 0 if there is none |
| BitmapPages.BitmapPage.AdvanceHint | minisql/src/page/bitmap_page.cpp:43-47 | the cyclic scan ends at a free offset, and all offsets it passes are taken |
| BitmapPages.BitmapPage.DeAllocatePage | minisql/src/page/bitmap_page.cpp:56-66 | frees exactly a set bit, and the hint is kept, unless the page was full: then it is the offset |
| DiskLayout.MapPageIdIsInjective | minisql/src/storage/disk_manager.cpp:133-138 | different logical pages lie on different physical pages |
| DiskLayout.MapPageIdMissesReserved | minisql/src/storage/disk_manager.cpp:133-138 | no logical page lies on the meta page or on a bitmap page |
| DiskLayout.MapPageIdLeavesNoGap | minisql/src/storage/disk_manager.cpp:133-138 | every other physical page carries a logical page |
| DiskLayout.MapPageIdIncreases | minisql/src/storage/disk_manager.cpp:133-138 | logical order is physical order |
| DiskLayout.ExtentLayout | minisql/src/storage/disk_manager.cpp:133-138 | a bitmap page lies right before the pages it records, in order, and the next one right after them |
| DiskLayout.TotalIsAllocated | minisql/src/storage/disk_manager.cpp:61-109 | when every extent counter is its bitmap's population, their sum is the number of allocated pages |
| DiskLayout.DataWritten | minisql/src/storage/disk_manager.cpp:53-56 | writing a logical page changes no bitmap and no other page |
| DiskManagers.DiskManager.AllocatePage | minisql/src/storage/disk_manager.cpp:61-88 | the page was free and lies in the first extent with room; invalid exactly when all pages of all extents are taken; the counters stay right and no data changes |
| DiskManagers.DiskManager.DeAllocatePage | minisql/src/storage/disk_manager.cpp:93-109 | the page is free afterwards, and the counters are right if and only if it was allocated |
| DiskManagers.DiskManager.IsPageFree | minisql/src/storage/disk_manager.cpp:114-128 | free means a valid id that is not allocated |
| DiskManagers.DiskManager.WritePage | minisql/src/storage/disk_manager.cpp:53-56 | the page reads back as written; other pages, bitmaps and counters are as they were |
| ReplacerOrder.OrderedByUnpin | minisql/src/buffer/lru_replacer.cpp:16-79 | over any run the order has no duplicates and is that of the last effective Unpins |
| ReplacerOrder.VictimIsOldest | minisql/src/buffer/lru_replacer.cpp:16-30 | the victim was unpinned before every other frame that is in |
| LRUReplacers.LRUReplacer.Victim | minisql/src/buffer/lru_replacer.cpp:16-30 | takes the oldest frame out, fails exactly when there is none, and keeps list, map, flags and counter in step |
| LRUReplacers.LRUReplacer.Pin | minisql/src/buffer/lru_replacer.cpp:35-53 | takes its frame out from wherever it stands and keeps the order of the others, or changes nothing |
| LRUReplacers.LRUReplacer.Unpin | minisql/src/buffer/lru_replacer.cpp:58-77 | puts its frame in as the newest, or changes nothing |
| LRUReplacers.LRUReplacer.Unlink | minisql/src/buffer/lru_replacer.cpp:46-49 | relinking two neighbours takes one node out, and both directions of the list agree |
| PoolFrames.EachFrameOnce | minisql/src/buffer/buffer_pool_manager.cpp:33-185 | every frame is in exactly one of the free list, the replacer and the pinned frames |
| PoolFrames.TableIsInverse | minisql/src/buffer/buffer_pool_manager.cpp:33-185 | page table and frame page ids are inverse to each other |
| PoolFrames.ChosenIsUnpinned | minisql/src/buffer/buffer_pool_manager.cpp:50-58 | there is a frame to choose exactly when some frame is not pinned, and the chosen one is not |
| PoolFrames.InstalledSound | minisql/src/buffer/buffer_pool_manager.cpp:60-71 | bringing a page in keeps all this, and no pinned page loses its frame |
| BufferPools.BufferPoolManager.FetchPage | minisql/src/buffer/buffer_pool_manager.cpp:33-76 | fails exactly when the page has no frame and all frames are pinned; a page with a frame gets exactly one pin more and leaves the replacer; else it comes into the first free frame, or the one longest in the replacer, with one pin, clean, holding what the disk has for it unless the frame was dirty; no other frame changes |
| PoolFrames.DirtyFrameMisleads | minisql/src/buffer/buffer_pool_manager.cpp:60-72 | whatever a page holds on disk, there is a pool in which bringing it in finds something else |
| BufferPools.BufferPoolManager.NewPage | minisql/src/buffer/buffer_pool_manager.cpp:83-116 | a page that was not allocated, zeroed, pinned once, in the first free frame or the one longest in the replacer, which keeps its dirty flag; no other frame changes; fails exactly when all frames are pinned |
| BufferPools.BufferPoolManager.UnpinPage | minisql/src/buffer/buffer_pool_manager.cpp:146-169 | one pin less; the frame is dirty if and only if it was or the argument says so; page id, contents and all other frames stay; the last pin makes the frame the newest of the replacer; false exactly when the page is still pinned |
| BufferPools.BufferPoolManager.FlushPage | minisql/src/buffer/buffer_pool_manager.cpp:174-185 | the page's place on disk holds what the frame holds, and the frame is clean and otherwise as before |
| PoolRuns.DirtyIffMarked | minisql/src/buffer/buffer_pool_manager.cpp:33-185 | over any run of calls a frame is dirty if and only if it was given back as dirty, or so from the start, and since then neither flushed nor read into; a new page does not clear the flag |
| PoolRuns.PinsBalance | minisql/src/buffer/buffer_pool_manager.cpp:33-169 | over any run a page's pins are those that calls took less those they gave back |
| LatchProtocol.MutualExclusion | minisql/src/include/common/rwlatch.h:28-78 | in every run at most one thread writes and then none reads, and the count is the number of readers |
| LatchProtocol.LostWakeupIff | minisql/src/include/common/rwlatch.h:59-78 | no thread sleeps un-notified with its loop test false, in any run, exactly when there are at most MAX_READERS + 1 threads |
| LatchProtocol.TooManyThreads | minisql/src/include/common/rwlatch.h:73-76 | a run with one thread more in which notify_one leaves a sleeper behind |
| LatchProtocol.NoDeadlock | minisql/src/include/common/rwlatch.h:28-78 | whenever a thread sleeps, another holds the latch or is on its way to test it |
| LatchProtocol.ReadersOnlyLeave | minisql/src/include/common/rwlatch.h:33-36 | once a writer has its turn no new reader gets in |
| LatchProtocol.CountNeverWraps | minisql/src/include/common/rwlatch.h:64-67 | the failed assertion in RUnlock is never reached |
| LatchProtocol.StepKeeps | minisql/src/include/common/rwlatch.h:28-78 | each step, spurious wakeups included, keeps the invariant behind these |
| ReaderWriterLatches.ReaderWriterLatch.WLock | minisql/src/include/common/rwlatch.h:28-37 | one pass of the write lock is a step of the protocol; it waits exactly if a writer has entered or a reader is left, and else writes |
| ReaderWriterLatches.ReaderWriterLatch.Drain | minisql/src/include/common/rwlatch.h:34-36 | so is one pass of its second loop, which waits exactly while readers are left |
| ReaderWriterLatches.ReaderWriterLatch.WUnlock | minisql/src/include/common/rwlatch.h:42-46 | so is its release, after which nobody sleeps, and nobody else who was awake is moved |
| ReaderWriterLatches.ReaderWriterLatch.RLock | minisql/src/include/common/rwlatch.h:51-57 | so is one pass of the read lock; it waits exactly if a writer has entered or the count is at its maximum, and else counts one reader more |
| ReaderWriterLatches.ReaderWriterLatch.RUnlock | minisql/src/include/common/rwlatch.h:62-78 | so is its release; the count goes down by one, and only the last reader before a writer, or the first to leave a full latch, wakes anybody |
| IndexScanExecutors.PlanSelect | minisql/src/planner/planner.cpp:36-56 | a sequential scan exactly when the top is an or or no single-column index is on a column of the condition; else the indexes are those that are, in catalog order, and the filter is left out exactly when they are as many as the columns |
| IndexScanExecutors.IndexScan | minisql/src/executor/index_scan_executor.cpp:47-77 | the recursion gathers the list that the lemmas below are about |
| IndexScanExecutors.IndexScanExecutor.Next | minisql/src/executor/index_scan_executor.cpp:79-101 | yields the filtered list one by one, to its end |
| IndexScanExecutors.ExecutePlan | minisql/src/executor/execute_engine.cpp:86-108 | asking for rows until there is none gathers the whole list |
| IndexScanExecutors.SeqScan | minisql/src/executor/seq_scan_executor.cpp:49-70 | a sequential scan yields the rows that meet the condition, in the order of the table, no position left out or twice |
| IndexScanExecutors.Select | minisql/src/executor/execute_engine.cpp:86-108 | from the catalog's indexes to the rows: with an or at the top, or no index that applies, they are right whatever the indexes answer; if the look-ups that the condition makes are exact, the rows for an and-only condition are right if and only if the plan is sequential, or filters, or no empty side misled the scan and the rows that meet the indexed comparisons all meet the others |
| TreeSelects.SelectOnTrees | minisql/src/executor/index_scan_executor.cpp:47-77 | the same with B+ trees as indexes: with an or at the top the rows are right; for an and-only condition it is enough that no comparison but = and <> probes a gap, and then the columns of the indexes, the condition and the table decide whether they are |
| TreeSelects.TreeLookups | minisql/src/executor/index_scan_executor.cpp:61-71 | the trees' answers to the comparisons of a condition are row ids of the table, and exact where no gap is probed |
| IndexScans.PlannedScanIsSeqScan | minisql/src/planner/planner.cpp:41-55 | for an and-only condition with an index that applies and exact look-ups, scan plus filter yields the rows of a sequential scan |
| IndexScans.PlannedRowsIff | minisql/src/planner/planner.cpp:36-56 | the chosen plan yields the right rows if and only if it is sequential, or filters, or no empty side misled the scan and the indexed comparisons imply the others; with indexes on distinct columns there are no others |
| IndexScans.MisledIs | minisql/src/executor/index_scan_executor.cpp:52-53 | whether an empty side misleads the scan follows from the table and the indexed columns alone |
| IndexScans.ScanCovers | minisql/src/executor/index_scan_executor.cpp:49-59 | a list that is not empty has every row in it that meets the indexed comparisons; an empty one means that no index applied or no row meets them |
| IndexScans.UnfilteredIff | minisql/src/executor/index_scan_executor.cpp:52-53 | without the filter the list is the answer, and has no false row, exactly when no empty side misled the scan and the indexed comparisons imply the others |
| IndexScans.TwoComparisonsIff | minisql/src/executor/index_scan_executor.cpp:52-53 | for two comparisons: exactly when both look-ups find something or neither does |
| IndexScans.NoFilterIff | minisql/src/planner/planner.cpp:54 | when the filter is left out, every column has an index if and only if no two available indexes share a column |
| IndexScans.TwoIndexesHideAColumn | minisql/src/planner/planner.cpp:54 | an instance where they do: one column has none, and the rows are wrong |
| IndexScans.EmptyLookupMisleads | minisql/src/planner/planner.cpp:54 | an instance where every column has an index and the rows are wrong all the same |
| IndexScans.OrIff | minisql/src/executor/index_scan_executor.cpp:49-59 | the scan of an or is right if and only if one side finds nothing or both find the same rows |
| IndexScans.NestedOrIff | minisql/src/include/planner/statement/abstract_statement.h:102-110 | below an and, with the filter, rows are lost if and only if all three look-ups find something, both sides of the or share a row, and some row of the and is in exactly one of them |
| IndexScans.AnyConditionIff | minisql/src/executor/index_scan_executor.cpp:47-77 | for any nesting of and and or, with and without the filter: the rows are right exactly when what the table alone says is gathered is what matches (with the filter: includes it) |
| IndexScans.NestedOrLosesRows | minisql/src/include/planner/statement/abstract_statement.h:102-110 | an instance: the or goes unnoticed, and rows are lost |
| IndexScans.AnswersAreExact | minisql/src/index/b_plus_tree_index.cpp:39-80 | a right answer of ScanKey is an exact look-up in the table |
| Predicates.IntersectionIsBoth | minisql/src/executor/index_scan_executor.cpp:56-58 | merging two ascending lists gives the members of both, ascending |
| Predicates.SortedKeeps | minisql/src/executor/index_scan_executor.cpp:54-55 | sorting keeps the members |
| Predicates.ConditionMeaning | minisql/src/executor/seq_scan_executor.cpp:55 | a comparison holds of a row exactly if neither side is null and they stand as the operator asks; and and or are what they say |
| Rows.Row.SerializeTo | minisql/src/record/row.cpp:7-33 | writes exactly the row's bytes at its position and touches no other byte |
| Rows.Row.DeserializeFrom | minisql/src/record/row.cpp:35-57 | reads the row back, for any null pattern in up to 32 fields, and consumes exactly its bytes |
| Rows.Row.GetSerializedSize | minisql/src/record/row.cpp:59-68 | the size that both of them report |
| Rows.RowSizeIsLength | minisql/src/record/row.cpp:59-68 | that size is the number of bytes written |
| Rows.RowDetermined | minisql/src/record/row.cpp:7-57 | bytes at one position are those of at most one row of a schema |
| Rows.BitIsNull | minisql/src/record/row.cpp:19-25 | bit i of the bitmap is set exactly when field i is null |
| Rows.FieldFormat | minisql/src/record/types.cpp:87-95 | a null takes no bytes, an int its two's complement, a float its bits, a string its length and then itself |
| Rows.HeaderReads | minisql/src/record/row.cpp:13-25 | magic number, field count and null bitmap, in this order, start the row |
| ByteCodec.LittleEndian | minisql/src/record/row.cpp:13-25 | the last byte of a number counts most |
| Rows.DeserializeField | minisql/src/record/types.cpp:87-95 | reads back an int, float, char or null field |
| GenericKeys.CompareIsLex | minisql/src/record/types.cpp:6-16 | CompareStrings is dictionary order, and 0 only for equal strings |
| GenericKeys.KeyOrderAntisymmetric | minisql/src/include/index/generic_key.h:36-58 | comparing keys the other way round gives the opposite |
| GenericKeys.KeyOrderZero | minisql/src/include/index/generic_key.h:36-58 | keys compare as equal exactly when their values are the same |
| GenericKeys.KeyOrderTransitive | minisql/src/include/index/generic_key.h:36-58 | the comparison is transitive |
| GenericKeys.TransitiveThroughIff | minisql/src/include/index/generic_key.h:48-54 | the order is transitive through a key if and only if none of its fields is null or not a number |
| GenericKeys.PaddedKeysDiffer | minisql/src/include/index/generic_key.h:20-27 | zero-padded buffers are equal exactly when the keys are |
| GenericKeys.KeyManager.SerializeFromKey | minisql/src/include/index/generic_key.h:20-27 | the buffer holds the key and zeros behind it |
| GenericKeys.KeyManager.CompareKeys | minisql/src/include/index/generic_key.h:36-58 | for any two keys -1 exactly if the first column in which one key is smaller is smaller in the left one, 1 exactly if in the right one, else 0; a null or not-a-number decides nothing |
| GenericKeys.FirstColumnDecides | minisql/src/include/index/generic_key.h:44-57 | the same of the fields: integers and floats by the numbers they stand for, strings by the dictionary |
| GenericKeys.RankIsValue | minisql/src/record/types.cpp:195-217 | comparing the bits of two floats under their signs orders them as the numbers they stand for, subnormal ones and infinities included |

## Left out

- File streams, physical reads and writes, process start and console output: plain I/O. The disk is a map of pages.
- The byte offset of a physical read is a 32-bit product in the source and overflows past 2 GiB; pages are addressed by number here.
- BufferPools.BufferPoolManager.FetchPage: says what a page holds after a dirty eviction, but not that the cache is transparent, because it is not.
- BufferPoolManager::DeletePage: its presence test is inverted. The tree model drops deleted pages instead.
- Pin counts inside the tree and its iterators, and the limit of an int pin count: the tree works on a perfect store.
- Failure of page allocation inside the tree (the "out of memory" exceptions), persisted index roots, Destroy, ToGraph, ToString and Check.
- BPlusTrees.BPlusTree.Remove: asks for maximum sizes of at least 4, below which a merge or a refresh can meet an empty page.
- BPlusTrees.BPlusTree.constructor: asks for an internal maximum of at least 3; with 2, a split leaves an internal page with one child, in which the search would read a key at position 1.
- Two-object aliasing between page frames: `BPlusTreePages` works on two pages whose arrays differ, and parent ids of moved children are changed in `BPlusTree`.
- RecoveryManagement.RecoveryManager.RedoPhase: a checkpoint without a position in the log is not modelled, because the source steps past the end of its map there.
- TableHeap, the free space map, catalog, executors other than the two scans, generated lexer and parser tables.
- TablePages.TablePage.ApplyDelete: asks for a slot that holds a tuple; on a free slot the source trips its own assertion.
- The operators "is" and "not", null probe constants and null index keys in look-ups.
- Projection of rows to the output schema: it does not affect which rows come out.
- Float arithmetic: floats are four bytes, and compared by the numbers that these stand for.
- LockManager, TxnManager and LogManager are stubs; CLOCKReplacer is not compiled in; the Java layer is not part of this model.
- ReaderWriterLatches.ReaderWriterLatch.WLock: a call is one pass of the wait loop, since a sleeping call cannot be written as one method; the thread calls again when it wakes.
- Fairness of the latch: nothing is claimed about which waiting thread is served.
