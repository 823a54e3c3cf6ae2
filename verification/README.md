# A model of the Lustre storage simulator

The simulator is single-threaded C++ that carries real algorithms of Lustre and of the Linux kernel.  This project models
five of them in Dafny and proves what they are for:

1. **Extent locks.**  Byte-range locks of one resource, granted out of one augmented red-black interval tree per mode.
   In every state of every run of arrivals, attempts, retries, reprocessing and cancellations, no two granted locks
   conflict, and every step does to the locks exactly what `LockSteps.Follows` says.
2. **A hash table that resizes itself.**  Two bucket tables share bucket objects while a worker moves the entries one
   bucket at a time.  For every interleaving of client operations and worker steps the table behaves as a multimap.
3. **The event clock.**  A red-black tree with parent links is the run queue; the clock never moves backwards, and the
   scheduling loop does what a plan of events and times says, for a reader who knows nothing of trees.
4. **The token-bucket scheduler** over an indexed binary heap in paged storage: the rate bound over whole runs, the
   throttling timer, and the lifetime of clients.
5. **The deadline elevator and the object round robin.**  Merging loses and duplicates nothing and keeps every request
   contiguous; a drain is sorted; a queued object waits a bounded number of requests.

## How it is laid out

- `Options`, `Lists`, `Powers`, `Words`: small helpers.
- `Shapes` describes linked nodes in memory by a tree value (`Shape`) and the part around a hole (`Path`), so that a loop
  that walks along pointers is in the middle of `Whole(mem, root, path, cur, items)`, where `items` is the in-order
  listing.  `Rotations`, `MaxHigh`, `Balance` and `Deletion` hold the facts about one step each, `Highest` when
  the kept maximum is exact, `IntervalTree.dfy` the class `Tree` whose methods update the nodes, `IntervalSearch` the
  search and the expansion.
- `LockModes`, `Alignment`, `LockBook` (the invariant of a resource and what grant and cancel do to it), `LockTrees`,
  `LockPolicy`, `LockConflicts`, `LockSteps` and the class `ExtentLocks.Resource`.
- `HashStore` (bucket objects and chains), `HashTables.dfy` (where a key belongs, module `HashGeometry`), `HashSteps`
  (what each step does to contents and resize) and the class `CfsHash.HashTable`.
- `HeapOrder`, `HeapPages`, `BinHeap`; `TokenBucket`, `TbfBook`, `TbfSteps` (what each step of the scheduler does, and
  the bounds over a run) and `TbfScheduler`.
- `Agendas` (the run queue as a plan) and `EventClock`; `RoundRobin`; `Requests`, `MergeHash`, `ElvSteps` (what each step
  of the elevator does) and `Elevator`.

Each class has a `Valid()` that every method keeps, an abstract value (`View()`, `Contents()`, `items`, `Plan()`), and
methods whose contracts tie the new abstract value to the old one.  What follows from that is proved as lemmas on values.

Where the code and its own names or comments disagree, the code is followed:

- The maximum high end that a tree node keeps is not always the greatest end below it: deletion starts its repair at a
  child that may be null (`lustre/intervaltree.cpp:545`, `lustre/intervaltree.cpp:563`).  It is always an upper bound,
  which is what search and expansion need.  Insertion keeps it exact; deletion does if and only if `Highest.Regained`
  holds before the call, and `Highest.StaleLeaf` is a tree on which it does not.
- `rq_end_pos` adds the offset to itself (`lustre/elevator.h:48`).  It only feeds a field that nothing reads on the modelled
  path; the merge hash goes by `off + count`.
- `List::Insert` inserts at the tail and `List::InsertTail` at the front (`lustre/event.h:49-56`).
- `RunTimeCompare` never says that two events are alike, so an event goes ahead of those that are due at the same time
  (`lustre/event.cpp:157-165`).
- The search for the alignment in the lock policy is meant for page-aligned requests.  `Alignment.MaskSearchEnds` gives
  the exact condition under which it ends, for all requests, and `Alignment.HalfPageNeverEnds` a request that fails it.
- The waiting pass of the policy is documented as only shrinking the extent.  `LockPolicy.KeptClearGrowsIff` gives the
  exact condition under which it does not; it cannot arise while waiting locks hold the extents that they requested,
  which is invariant here, and `LockPolicy.KeptClearMayGrow` is an instance of it.

## Model

| member | source | states |
|---|---|---|
| IntervalTrees.Tree.RotateChangeMaxHigh | lustre/intervaltree.cpp:223-233 | the rotated-up node takes the bound of the old top, whose own bound is recomputed from its end and its children |
| IntervalTrees.Tree.Pivot | lustre/intervaltree.cpp:238-291 | the pointer updates of a rotation to either side, parent and root links included |
| IntervalTrees.Tree.RotateTo | lustre/intervaltree.cpp:238-291 | a rotation turns the subtree into its rotated shape; listing, links and bounds stay in order |
| Rotations.RotItems | lustre/intervaltree.cpp:235-291 | a rotation keeps the in-order listing |
| Words.LessIsNumeric | lustre/intervaltree.cpp:51-87 | the order of the tree is that of the numbers whose digits to the base 2^64 are start and end: by start, then by end |
| IntervalTrees.Tree.RecolorUncle | lustre/intervaltree.cpp:304-356 | the red-uncle case moves the only red-red clash up two levels |
| IntervalTrees.Tree.RaiseParent | lustre/intervaltree.cpp:304-356 | the black-uncle case ends the repair with one rotation at the grandparent |
| IntervalTrees.Tree.InsertColor | lustre/intervaltree.cpp:304-356 | from a tree with one clash at the new node, the fix-up ends with a valid red-black tree of the same listing, its bounds exact if they were |
| IntervalTrees.Tree.Insert | lustre/intervaltree.cpp:358-392 | an equal extent is found and nothing is added, or exactly the new node joins the listing, which stays sorted; colours, black heights, parent links and bounds hold, and exact bounds stay exact |
| IntervalTrees.Tree.EraseColor | lustre/intervaltree.cpp:400-473 | from a tree that is one black node short below a path, the fix-up ends with a valid red-black tree of the same listing; with exact bounds beside the path, all bounds are exact afterwards if and only if they were |
| IntervalTrees.Tree.UpdateMaxHigh | lustre/intervaltree.cpp:479-496 | climbing from any node, the recomputed maxima leave every bound an upper bound again, and every bound that the unlinked node had raised is exact again wherever the climb stops |
| IntervalTrees.Tree.DetachSuccessor | lustre/intervaltree.cpp:498-569 | the in-order successor is cut out and the tree is whole but for a black node that may be missing |
| IntervalTrees.Tree.Erase | lustre/intervaltree.cpp:498-569 | exactly the given node leaves the listing, and all tree invariants hold, whichever of the shapes it had; bounds that were the greatest ends below are so again if and only if the unlinked node has a child, or no parent, or the erased node for its parent, or one whose bound does not need it |
| IntervalTrees.Tree.Find | lustre/intervaltree.cpp:202-220 | finds a node with the extent if and only if there is one |
| MaxHigh.MaxBounds | lustre/intervaltree.cpp:571-577 | the kept maximum bounds every end in the subtree, which is what search and expansion rely on |
| Highest.HighEndIsGreatest | lustre/intervaltree.cpp:476-496 | the value that an exact bound has is the greatest end in the subtree: no end is above it and one reaches it |
| Highest.PivotedBounds | lustre/intervaltree.cpp:223-233 | a rotation that lifts a subtree with exact bounds leaves the bounds of the rotated subtree exact if and only if they were |
| Highest.ClimbedMends | lustre/intervaltree.cpp:479-496 | once the climb reaches a node whose bound is right, all bounds on the way up to it are right |
| Highest.SubstituteOutcome | lustre/intervaltree.cpp:545-546 | after the two climbs for a node with two children all bounds are exact, unless the successor was a leaf deeper down that its parent took its bound from |
| Highest.StaleLeaf | lustre/intervaltree.cpp:563 | a tree of two nodes from which erasing the leaf leaves a bound too high |
| Balance.DepthBound | lustre/intervaltree.cpp:304-473 | the colour rules bound the depth: the black height is logarithmic in the size, and the depth at most about twice the black height |
| Balance.RecolorStep | lustre/intervaltree.cpp:304-356 | recolouring keeps black heights and leaves at most one clash, two levels up |
| Balance.OuterNephewStep | lustre/intervaltree.cpp:400-473 | the final rotation of deletion makes up for the missing black node |
| IntervalSearch.Search | lustre/intervaltree.cpp:600-654 | the loop along parent pointers ends and hands over the nodes in the order of the recursive search, all of them unless stopped, and up to the stopping one if stopped |
| IntervalSearch.ClimbBack | lustre/intervaltree.cpp:634-650 | climbing to the next right sibling that may overlap loses nothing of what the recursive search would still visit |
| IntervalSearch.HitsAreOverlaps | lustre/intervaltree.cpp:579-599 | the recursive search of the comment visits each overlapping interval exactly once and no other |
| IntervalSearch.SearchIsComplete | lustre/intervaltree.cpp:579-654 | what the search visits is, as a multiset, the overlapping nodes of the listing; it is empty if and only if nothing overlaps |
| IntervalSearch.IsOverlapped | lustre/intervaltree.cpp:657-670 | true if and only if some interval overlaps |
| IntervalSearch.ExpandHigh | lustre/intervaltree.cpp:710-727 | no interval starts above the old end up to the result, which is the maximum or one below a start |
| IntervalSearch.Expand | lustre/intervaltree.cpp:730-742 | a free extent grows to one that is still free, with the largest end possible where the limiter lets it grow, downwards only in an empty tree |
| LockModes.CompatSymmetric | lustre/ldlm.h:386-393 | the compatibility matrix is symmetric, so that the order of two locks does not matter |
| LockModes.CompatMeans | lustre/ldlm.h:386-393 | two modes are compatible if and only if each allows the other the reads and writes that it needs: a writer bars writers, PR bars all writes, EX bars everything but NL |
| LockModes.LockModeToIndex | lustre/ldlm.h:625-634 | the loop over the mode's bits finds the tree of the mode |
| Alignment.FindAlign | lustre/ldlm.cpp:1508-1516 | for a page-aligned request the search ends with the lowest bit at or above the page size that is set in either edge |
| Alignment.ShiftedIs | lustre/ldlm.cpp:1511-1516 | the mask after any number of rounds: a power of two until it is shifted out of the word, and 0 for ever after |
| Alignment.MaskSearchEnds | lustre/ldlm.cpp:1511-1516 | for any request the search for the mask ends, in the round that meets a set bit or because there is none, if and only if both edges are 0 or one of them lies beyond the first page |
| Alignment.HalfPageNeverEnds | lustre/ldlm.cpp:1511-1516 | a request for the first half of the first page, for which the search never ends |
| Alignment.StartAligned | lustre/ldlm.cpp:1517-1525 | with 64-bit wraparound, the start is rounded up to the alignment by less than one unit and not beyond the request |
| Alignment.EndAligned | lustre/ldlm.cpp:1517-1528 | with 64-bit wraparound, the byte after the end is rounded down to the alignment and not below the request |
| Alignment.Fixup | lustre/ldlm.cpp:1488-1530 | the extent is clipped for contended writers and aligned at both edges, or left alone as the whole object; it only shrinks and still contains the request |
| Alignment.ContendedReach | lustre/ldlm.cpp:1488-1501 | with more than 32 conflicting locks a writer gets at most the 32 MiB from its request on, and otherwise all it found |
| LockTrees.Conflicts | lustre/ldlm.cpp:1804-1809 | the search of a mode's tree visits exactly the nodes whose extents overlap, once each |
| LockTrees.TreeAgrees | lustre/ldlm.cpp:1391-1426 | the nodes of a mode's tree are the distinct extents of its granted locks, a node's group is exactly the locks with its extent, and the tree's size counts the locks |
| LockBook.GrantKeepsInv | lustre/ldlm.cpp:1222-1245 | granting on a free extent keeps the invariant of the resource, safety included |
| LockBook.SafeIsSafeBytes | lustre/ldlm.cpp:1748-1810 | no two granted locks clash by mode and extent if and only if on no byte one of them needs an access that the other does not allow |
| LockBook.CutKeepsInv | lustre/ldlm.cpp:1367-1389 | taking a granted lock away keeps the invariant; the node goes with its last lock |
| LockBook.CancelUndoesGrant | lustre/ldlm.cpp:1367-1426 | cancelling a lock right after its grant restores trees, groups, sizes and lists, whether or not it shared a node |
| LockPolicy.LimitBy | lustre/ldlm.cpp:1555-1575 | one conflicting tree limits the extent to what is free of it, as far up as possible |
| LockPolicy.KeptClearShrinks | lustre/ldlm.cpp:1636-1670 | a waiting lock in its requested extent makes the extent only smaller, keeps the request inside and ends off the waiting lock |
| LockPolicy.KeptClearGrowsIff | lustre/ldlm.cpp:1636-1670 | for any waiting lock, the extent grows back if and only if the lock lies across the end of the request, overlaps the extent but not the request, and asked for a range that starts beyond the extent |
| LockPolicy.WidestStep | lustre/ldlm.cpp:1592-1675 | one more waiting lock takes away no more than it must, so that the result of the scan is the widest extent off all of them, and starts at the request once more than four matter |
| LockPolicy.OneExtent | lustre/ldlm.cpp:1679-1708 | the rules of the two policies, of clipping and of alignment leave exactly one extent to grant |
| ExtentLocks.Resource.IntervalAttach | lustre/ldlm.cpp:1333-1341 | the lock joins the tail of the node's group and points to it |
| ExtentLocks.Resource.IntervalDetach | lustre/ldlm.cpp:1343-1355 | the lock leaves the group; the node is handed back with its last lock only |
| ExtentLocks.Resource.AddLock | lustre/ldlm.cpp:1391-1426 | the lock's own node enters the tree of its mode or the lock joins the group of the equal one; size and granted list count it |
| ExtentLocks.Resource.UnlinkLock | lustre/ldlm.cpp:1367-1389 | the inverse: group, tree and size without the lock |
| ExtentLocks.Resource.GrantLock | lustre/ldlm.cpp:1222-1245 | a pending lock on a free extent is granted there; nothing else changes |
| ExtentLocks.Resource.Cancel | lustre/ldlm.cpp:806-892 | the lock is destroyed and leaves its list; if granted, it leaves its node, and the node the tree with its last lock |
| ExtentLocks.Resource.PolicyGranted | lustre/ldlm.cpp:1539-1584 | the request grows to an extent that overlaps no incompatible granted lock, up to the next conflicting start, and down to the limit if and only if no such lock is granted, else not at all; then it is clipped and aligned |
| ExtentLocks.Resource.PolicyWaiting | lustre/ldlm.cpp:1592-1675 | the extent only shrinks, contains the request, keeps off every conflicting waiting lock, starts at the request once more than four waiting locks matter, and is otherwise the widest extent that does so |
| ExtentLocks.Resource.ExtentPolicy | lustre/ldlm.cpp:1679-1708 | the chosen extent contains the request, is free of incompatible granted locks and keeps off the waiting ones, and is the one extent that the two policies allow; a local lock gets just its request |
| ExtentLocks.Resource.AddBlockingWork | lustre/ldlm.cpp:1049-1065 | a lock that was not told before is flagged and joins the work list, which names no lock twice |
| ExtentLocks.Resource.CompatCallback | lustre/ldlm.cpp:1448-1486 | all locks of an overlapping node are told and counted |
| ExtentLocks.Resource.CompatTree | lustre/ldlm.cpp:1760-1810 | after one more tree, compatible if and only if no blocker was met so far; the blockers are told and counted, glimpses not counted |
| ExtentLocks.Resource.CompatGranted | lustre/ldlm.cpp:1748-1810 | compatible if and only if no granted lock of an incompatible mode overlaps the request; all that do are told, once each |
| ExtentLocks.Resource.CompatWaiting | lustre/ldlm.cpp:1811-1983 | the scan of the waiting list stops at the lock itself or at a compatible lock that covers it, and says whether a lock ahead is in the way; all of these are told and counted |
| ExtentLocks.Resource.DiscardWork | lustre/ldlm.cpp:1710-1729 | dropping the work list restores every lock as it was |
| ExtentLocks.Resource.CheckDeny | lustre/ldlm.cpp:1428-1438 | the contention clock and the exact condition of one denial |
| ExtentLocks.Resource.ScanGranted | lustre/ldlm.cpp:2056-2063 | the scan of the granted locks: whom it tells, what it does to the contention clock, and exactly when it ends in a denial |
| ExtentLocks.Resource.ScanWaiting | lustre/ldlm.cpp:2065-2068 | the same for the scan of the waiting locks, which a covering lock may cut short |
| ExtentLocks.Resource.Enqueue | lustre/ldlm.cpp:2055-2134 | an attempt grants if and only if nobody is in the way or denies exactly under contention; a lock that waits has told exactly all who stand in its way, a denied one leaves no trace but its own end |
| ExtentLocks.Resource.Reprocess | lustre/ldlm.cpp:2033-2053 | a waiting lock is granted if and only if nobody is in its way any more, and otherwise nothing changes |
| ExtentLocks.Resource.AfterCallbacks | lustre/ldlm.cpp:2078-2122 | after the callbacks: destroyed, granted in the meantime, or a new attempt, each exactly when it should be; the attempt is denied exactly under contention |
| ExtentLocks.Resource.Take | lustre/ldlm.cpp:2016-2134 | every step keeps the invariant and does to the locks and to the contention clock what its specification says; an attempt drops the lock exactly when its client agreed and the resource is contended |
| ExtentLocks.Resource.Run | lustre/ldlm.cpp:2016-2134 | in every state of every run no two granted locks have incompatible modes and overlapping extents, so that on no byte a lock needs an access that another does not allow; and each state follows from the one before by its step |
| LockConflicts.BlockersStep | lustre/ldlm.cpp:1448-1486 | the locks of the overlapping nodes of a tree are exactly the blockers of its mode |
| LockConflicts.NoBlockers | lustre/ldlm.cpp:1748-1810 | nobody blocks the request if and only if its extent is free |
| LockConflicts.ScanAfterTelling | lustre/ldlm.cpp:2055-2067 | telling the granted locks changes nothing for the scan of the waiting list that comes after it |
| HashGeometry.SpotExists | lustre/cfshash.cpp:494-503 | masks and shifts of a hash always name a chain of an existing bucket |
| HashGeometry.SpotMeans | lustre/cfshash.cpp:494-503 | what mask and shift compute: the bucket is the hash modulo the number of buckets, the chain the quotient of the low bits |
| HashGeometry.SameChain | lustre/cfshash.cpp:494-503 | two hashes share a chain if and only if they agree in as many low bits as the table has |
| HashGeometry.GrownSpot | lustre/cfshash.cpp:494-503 | in a table with one bit more an entry stays in the bucket of its number or moves as far on as the old table was long |
| HashGeometry.AllSettled | lustre/cfshash.cpp:1982-2013 | once every bucket is done, every entry is at its new place |
| HashGeometry.FreedAreEmpty | lustre/cfshash.cpp:2009-2022 | no entry is left in a bucket that the new table does not share |
| HashGeometry.StartInv | lustre/cfshash.cpp:1952-1981 | tables that share their common prefix make a sound state with every entry at its old place |
| HashGeometry.FinishInv | lustre/cfshash.cpp:2007-2022 | after the switch the new table alone is a sound state |
| HashStore.PutSound | lustre/cfshash.cpp:544-560 | linking an entry keeps chains free of repetition and every bucket's count equal to what is on its chains |
| HashStore.RemoveSound | lustre/cfshash.cpp:564-581 | and so does unlinking |
| CfsHash.HashTable.BdGet | lustre/cfshash.cpp:506-517 | additions go to the new place of a key while a resize is under way, to the only place otherwise |
| CfsHash.HashTable.DualGet | lustre/cfshash.cpp:848-865 | both places of a key are named; if there is just one, it is where additions go |
| CfsHash.HashTable.BdMove | lustre/cfshash.cpp:585-610 | the entry ends up at its new place; when both places are the same chain, nothing is touched |
| CfsHash.HashTable.FindAt | lustre/cfshash.cpp:757-770 | the places of a key hold every entry that matches; the first match of the first place that has one is found, and what is not found is nowhere |
| CfsHash.HashTable.Lookup | lustre/cfshash.cpp:1381-1398 | finds an entry with the key if and only if the multimap has one |
| CfsHash.HashTable.Add | lustre/cfshash.cpp:1239-1258 | the multimap with the entry |
| CfsHash.HashTable.FindOrAdd | lustre/cfshash.cpp:1262-1286 | an entry that has the key, or the given one added if none has |
| CfsHash.HashTable.Del | lustre/cfshash.cpp:1326-1356 | the given entry, or any entry with the key, is taken out; nothing found means that there was none |
| CfsHash.HashTable.RequestRehash | lustre/cfshash.cpp:1191-1220 | one bit more when there are more entries for each chain than allowed, one less when there are too few and shrinking is allowed, nothing while a resize is pending |
| CfsHash.HashTable.ThetaReaches | lustre/cfshash.h:844-848 | the load t is reached when there are t entries for every 1024 chains |
| CfsHash.HashTable.BucketsRealloc | lustre/cfshash.cpp:922-972 | the common prefix is shared, the rest is new and empty |
| CfsHash.HashTable.BucketsFree | lustre/cfshash.cpp:903-914 | exactly the buckets of the range are freed, all of them unused |
| CfsHash.HashTable.WorkerStart | lustre/cfshash.cpp:1929-1981 | the resize is dropped without a trace if and only if the load has become right in the meantime |
| CfsHash.HashTable.RehashChain | lustre/cfshash.cpp:1899-1926 | after its chain is walked, no entry of it is at a stale place |
| CfsHash.HashTable.WorkerBucket | lustre/cfshash.cpp:1982-2005 | one bucket is emptied into the new table and the multimap is unchanged |
| CfsHash.HashTable.WorkerFinish | lustre/cfshash.cpp:2007-2027 | the tables are switched with every entry at the only place of its key |
| CfsHash.HashTable.Take | lustre/cfshash.cpp:1899-2027 | every step, of a client or of the worker, does to the contents what a multimap would do, and hands back what a multimap would; a client leaves the resize alone, and a step of the worker begins it, drops it, empties one more bucket or ends it, each exactly when it should |
| CfsHash.HashTable.Run | lustre/cfshash.cpp:1899-2027 | whatever the interleaving of lookups, additions, deletions and worker steps, the trace of contents and of results is one of a plain multimap, in which the worker does not show, and the trace of the resize is that of the worker alone |
| HashSteps.ResizeEnds | lustre/cfshash.cpp:1982-2022 | a resize under way has emptied one bucket for each step of the worker, and ends at the asked size with the step after the last bucket, whatever clients do in between |
| HeapOrder.BubbleStep | lustre/heap.cpp:316-347 | a step up moves the only slot that may be out of order to the parent |
| HeapOrder.SinkStep | lustre/heap.cpp:359-412 | a step down moves it to the lesser child |
| HeapOrder.RootIsLeast | lustre/heap.cpp:297-303 | the root comes before every node, for any total preorder |
| BinHeap.BinaryHeap.Bubble | lustre/heap.cpp:316-347 | repairs upwards, says whether the node has moved, and keeps every node's index its slot |
| BinHeap.BinaryHeap.Sink | lustre/heap.cpp:359-412 | repairs downwards, and says whether the node has moved |
| BinHeap.BinaryHeap.Insert | lustre/heap.cpp:424-450 | the heap with the node, refused exactly when all 512 + 512^2 + 512^3 slots are taken or the hook refuses it |
| BinHeap.BinaryHeap.Remove | lustre/heap.cpp:460-486 | the heap without the node, wherever it was |
| BinHeap.BinaryHeap.Relocate | lustre/heap.cpp:498-502 | a heap that is out of order at one node only is in order again |
| BinHeap.BinaryHeap.Rekey | lustre/heap.cpp:498-502 | changing one node's key and relocating it leaves a heap with the same nodes |
| BinHeap.Replaced | lustre/heap.cpp:460-486 | the last node in the slot of the removed one is the only one that may be out of order |
| HeapPages.Pages.Grow | lustre/heap.cpp:71-152 | one more page through single, double or triple indirection, exactly while there is room |
| HeapPages.Pages.Pointer | lustre/heap.cpp:272-285 | every index below the high-water mark resolves to its own allocated page and slot |
| HeapPages.SlotsDistinct | lustre/heap.cpp:272-285 | distinct indices resolve to distinct slots, across all levels |
| TokenBucket.SpendBound | lustre/nrstbf.cpp:946-983 | one look at a bucket, whatever its depth: a request let through costs a token of those at hand and of those that came since, one for every m of time |
| TokenBucket.TokensAtMeans | lustre/nrstbf.cpp:946-960 | without a division: n tokens are there if and only if the bucket holds n and they were there before or enough intervals have passed since |
| TokenBucket.DueMeans | lustre/nrstbf.cpp:984-987 | an empty bucket has a token if and only if an interval has passed since its check-point, which is the time that the timer is armed for |
| TbfBook.CliCompareIsPreorder | lustre/nrstbf.cpp:50-72 | the comparison orders any two clients and is transitive, as the heap needs |
| TbfBook.IdleHasNoWork | lustre/nrstbf.cpp:447-486 | a client on an LRU list has an empty queue, is not in the heap and has no unfinished request |
| TbfBook.JoinInv | lustre/nrstbf.cpp:853-923 | enqueueing keeps heap membership, reference counts and LRU lists right |
| TbfBook.ReleaseInv | lustre/nrstbf.cpp:447-486 | finishing keeps them right; the last reference puts the client on its LRU list |
| TbfBook.EvictInv | lustre/nrstbf.cpp:462-483 | evicting an idle client keeps them right |
| TbfScheduler.Tbf.FindClient | lustre/nrstbf.cpp:389-425 | the cached client of a job, or a new one with a full bucket |
| TbfScheduler.Tbf.Enqueue | lustre/nrstbf.cpp:853-923 | the request joins the tail of its job's queue and counts as a reference, and is left out of the queue only when the heap cannot grow |
| TbfScheduler.Tbf.Dequeue | lustre/nrstbf.cpp:925-995 | serves the first request of a client that is due no later than any other and spends one of its tokens, or arms the timer strictly ahead at the least time at which a client gets a token |
| TbfScheduler.Tbf.ChangeRate | lustre/nrstbf.cpp:231-250 | a new interval and depth keep the tokens, and the heap is repaired |
| TbfScheduler.Tbf.EvictOldest | lustre/nrstbf.cpp:462-483 | the least recently used idle client goes, and it has no work |
| TbfScheduler.Tbf.Purge | lustre/nrstbf.cpp:447-486 | a purge evicts a prefix of the LRU list, none of it with work, as long as the bucket is over its limit and the list is not empty, and no further |
| TbfScheduler.Tbf.Finish | lustre/nrstbf.cpp:997-1011 | the reference goes; the client joins the LRU list with its last one, and the bucket is purged, no client with work among those that go |
| TbfScheduler.Tbf.Take | lustre/nrstbf.cpp:853-1011 | every step does to clients, owners, LRU lists and timer what its specification says: an arrival joins the tail of its job and changes nothing else, a dequeue serves a client that is due no later than any other or arms the timer, a finish leaves the queues and buckets of all who remain |
| TbfSteps.RateBound | lustre/nrstbf.cpp:853-1011 | of any trace whose steps are as specified: for a client that is cached all the while and whose interval never falls below m, the requests served plus the tokens left are at most the tokens at first plus the elapsed time over m |
| TbfSteps.BurstBound | lustre/nrstbf.cpp:946-983 | of any trace whose steps are as specified: while the depth of a client stays at most d, the requests served between two times are at most d and one for every m of the time between them |
| TbfScheduler.Tbf.Run | lustre/nrstbf.cpp:853-1011 | over any run of all operations each step does what its specification says, a client that is forgotten has no work, and rate bound and burst bound hold for every client that stays cached |
| EventClock.End | lustre/rbtree.cpp:324-346 | the first and the last node of the listing |
| EventClock.Neighbour | lustre/rbtree.cpp:348-398 | the next and the previous node of the listing, by child and parent links |
| IntervalTrees.Tree.InsertBy | lustre/rbtree.cpp:435-453 | a node goes where the comparison alone sends it, the rest of the listing is unchanged, and the tree stays red-black |
| EventClock.Clock.InsertRunQ | lustre/event.cpp:58-65 | the event is queued behind what is due earlier and ahead of all else |
| EventClock.Clock.RemoveFromRunQ | lustre/event.cpp:67-72 | exactly that event leaves the queue |
| EventClock.Clock.RunAfter | lustre/event.cpp:80-85 | the event is due in so many ticks |
| EventClock.Clock.RunAt | lustre/event.cpp:87-92 | the event is due at a time strictly in the future |
| EventClock.Clock.NextRunEvent | lustre/event.cpp:94-103 | the head of the queue, due no later than any other and not in the past; the rest of the plan is as before |
| EventClock.Clock.Act | lustre/event.cpp:58-92 | what a callback does to the run queue is what it does to the plan |
| EventClock.Clock.Schedule | lustre/event.cpp:105-130 | every event run is the first of the plan, due no later than any other and the last queued of those due with it; the clock stands at its run time and never moves backwards, nothing runs after the clock passes its limit, and what is left then is thrown away |
| EventClock.QueuedInOrder | lustre/event.cpp:157-165 | a comparison without equality still keeps the queue in time order |
| Agendas.EnqueuedAt | lustre/event.cpp:157-165 | an event goes ahead of all that are due at its time or later, and behind all that are due earlier |
| Agendas.DuesRemoved | lustre/event.cpp:67-72 | taking a node out of the tree takes exactly its event out of the plan |
| RoundRobin.InsertReqFacts | lustre/nrsfrr.cpp:80-111 | a request joins its object's queue in the order of offsets |
| RoundRobin.InsertReqBag | lustre/nrsfrr.cpp:102-111 | and nothing else changes in the queue |
| RoundRobin.Frr.GetWorkQueue | lustre/nrsfrr.cpp:131-145 | the head of the list becomes the work queue with a quantum of 8, unless there is one |
| RoundRobin.Frr.Enqueue | lustre/nrsfrr.cpp:313-354 | the request is filed and its object's queue joins the tail of the list only if it is neither there nor worked on |
| RoundRobin.Frr.ServeWork | lustre/nrsfrr.cpp:113-125 | the lowest offset of the work queue leaves; the turn ends with the requests or with the quantum, and then the queue goes to the tail if it has requests left |
| RoundRobin.Frr.Dequeue | lustre/nrsfrr.cpp:368-449 | serves the work queue or else the head of the list, and brings every queue in the list nearer to its turn |
| RoundRobin.Frr.Run | lustre/nrsfrr.cpp:313-449 | a queue with p others ahead is served once there have been more than 8(p + 1) dequeues, whatever arrives meanwhile; each step files one request or serves the lowest offset of one object, and nothing else |
| RoundRobin.EightInARow | lustre/nrsfrr.cpp:408-427 | once its turn has begun a queue is served eight times in a row, or until its requests are gone, before another queue is |
| Requests.BatchRange | lustre/elevator.cpp:325-340 | the parts of a contiguous batch lie in its range, one behind the other |
| Requests.ExactlyOnce | lustre/elevator.cpp:402-459 | every queued ioreq is in exactly one batch, once |
| Requests.OnlyNeighbours | lustre/elvdeadline.cpp:240-258 | only the requests beside a request in the sorted tree can adjoin it |
| Elevator.ElvDeadline.Place | lustre/elvdeadline.cpp:45-71 | a request is filed, or filed anew, at its offset in the sorted tree of its kind |
| Elevator.ElvDeadline.HashFind | lustre/elevator.cpp:79-92 | a walk of one chain finds the request that ends at an offset if and only if there is one |
| Elevator.ElvDeadline.HashReposition | lustre/elevator.cpp:106-110 | a request whose end has moved goes to the chain of its end, whatever chain it was on |
| MergeHash.ChainOf | lustre/elevator.cpp:79-92 | every pending request is on exactly one chain, so that the chain of an offset holds all that end there |
| MergeHash.HashedAgain | lustre/elevator.cpp:106-110 | repositioning after a merge makes the hash right again |
| MergeHash.HashedGrown | lustre/elevator.cpp:384-400 | a merge at the front leaves the hash right, since the end stays; one at the back leaves just that request to move |
| MergeHash.HashedWithout | lustre/elevator.cpp:94-98 | the hash without a request that was merged away or dispatched |
| MergeHash.FiledEmpty | lustre/elvdeadline.cpp:144-157 | the fifo list of a kind is empty exactly when its sorted tree is, so that dispatching by the fifo lists never meets an empty tree |
| Elevator.ElvDeadline.ElvMerge | lustre/elevator.cpp:206-229 | the request merged into last is tried first, at either end, then the hash for a request that ends where the ioreq starts |
| Elevator.ElvDeadline.AttemptMerge | lustre/elevator.cpp:350-372 | two requests become one if and only if they adjoin, are of one kind and fit; no ioreq is lost, and hash, trees and fifo lists hold the one and not the other |
| Elevator.ElvDeadline.MergeBack | lustre/elevator.cpp:374-382 | the ioreq goes behind the batch, and the gap to the next request is closed if it can be |
| Elevator.ElvDeadline.MergeFront | lustre/elevator.cpp:384-400 | the ioreq goes ahead of the batch, the request moves in the sorted tree, and the gap to the previous request is closed if it can be |
| Elevator.ElvDeadline.AddRequest | lustre/elevator.cpp:239-277 | a request of its own is filed in the hash, its tree and its fifo list, and is tried first by the next ioreq if none was |
| Elevator.ElvDeadline.Enqueue | lustre/elevator.cpp:402-459 | an ioreq is merged exactly as the merge rule says or becomes a request of its own, and which request is tried first next is said in each case; all batches stay contiguous, apart and within the maximum size |
| ElvSteps.TwoArrivals | lustre/elevator.cpp:206-277 | two arrivals in a row when no request was to be tried first: if the first becomes a request of its own and the second ends where it begins and fits, they leave in one request |
| ElvSteps.JoinsLast | lustre/elevator.cpp:206-229 | an ioreq that ends where the request to be tried first begins, and fits, joins it |
| ElvSteps.JoinsMerged | lustre/elevator.cpp:402-459 | so it does when that request came about by the merge just before |
| Elevator.ElvDeadline.Dispatch | lustre/elvdeadline.cpp:144-238 | by the fifo lists: the write request of lowest offset, else the read request of lowest offset, leaves hash, tree and fifo list for the dispatch queue |
| Elevator.ElvDeadline.Dequeue | lustre/elevator.cpp:461-497 | the head of the dispatch queue, refilled when empty |
| Elevator.ElvDeadline.Run | lustre/elevator.cpp:402-497 | over any run each step does what its specification says, and every ioreq that overlapped nothing pending when it arrived is afterwards pending or in exactly one request that has left, and each of these is contiguous and within the maximum size |
| Elevator.ElvDeadline.Drain | lustre/elvdeadline.cpp:217-238 | a full drain emits all write requests by ascending offset, then all read requests by ascending offset |
| Elevator.ClearOfParts | lustre/elevator.cpp:325-340 | what keeps clear of every part of a contiguous batch keeps clear of the whole, so that disjoint ioreqs make disjoint requests |
| Elevator.FreeIffApart | lustre/elevator.cpp:402-459 | an ioreq overlaps no pending request if and only if it overlaps none of the ioreqs in them |
| ElvSteps.AllAccepted | lustre/elevator.cpp:402-459 | ioreqs that do not overlap each other are all taken in by a run |

## Left out

- Heap objects: nodes, locks, bucket objects and requests are records in map fields of their owner, with numbers as
  pointers.  Update in place and the aliasing of pointers are kept, the C++ object layout, colour and pointer bit packing
  and allocation failure are not.
- Mirrored branches: code that the source writes twice for left and right is written once with a side.
- The run queue: one tree class serves both trees of the source.  In the run queue the intervals are points, and the upkeep
  of the maximum, which the run queue's own tree does not have, goes along.
- IntervalSearch.Search: the callbacks are taken to run after the search in the order of the visits, so that a callback
  that changes the tree during the search is not covered.
- Lock modes: GROUP locks, plain, ibits and flock policies are left out, since the safety claim does not extend to GROUP.
- ExtentLocks.Resource.NewLock: new locks hold exactly their requested, page-aligned extent and come with an interval node;
  the resource starts with its trees set up as in the disabled block of `lustre/ldlm.cpp:156-163`.
- Namespaces, handles, reference counts of locks, sending of callbacks, replay and the reply flags.  The steps between a
  callback and the retry of its lock are arbitrary steps of a run.
- ExtentLocks.Resource.CheckDeny: times and counters are unbounded integers.
- CfsHash.HashTable.Run: lock primitives, object versions, the record of the deepest chain, `rehash_key`, iteration, and
  destroying the table during a resize.
- CfsHash.HashTable.WorkerStart: the theta field is an unbounded number here and 16 bits wide in the source.
- BinHeap.BinaryHeap.Insert: what the entry hook answers is an input; the scheduler sets no hook.
- BinHeap.BinaryHeap.Remove: the poisoned index and the exit hook are not stated, as the source skips both for the last slot.
  The slots are a sequence; the storage behind them is the separate class of pages, which each insertion grows.
- TbfScheduler.Tbf.Enqueue: the adaptation of dependent rules and the shortening of the timer on arrival.  The interval of a
  client is an input that any step may change.
- TbfScheduler.Tbf.Run: times are unbounded integers; overflow of the 64-bit clock is not modelled.
- EventClock.Clock.Schedule: runs as many events as it is given callbacks, since the callbacks are code outside the model;
  `SetClock` in the middle of a run and overflow of a run time are left out.
- RoundRobin.Frr.Enqueue: the deadline modes.  The tree of an object's requests is an ordered list; two requests of an
  object with equal offsets are left out, as is the tally by bandwidth.
- Elevator.ElvDeadline.HashFind: the hash function is any function of the end offset.
- Elevator.ElvDeadline.Place: the sorted trees are ordered lists; expiry times, the next-request shortcut and the head
  position are not on the live path.
- Elevator.ElvDeadline.ElvMerge: the front-merge lookup of the deadline elevator, which the source returns as no merge; and
  the kinds of ioreqs, which the source does not compare, so that a batch may mix reads and writes.
- The rest of the simulator: clients, servers, network, disks and their file systems, striping, statistics, congestion
  control with floating point, and configuration.
