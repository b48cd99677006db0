# venom-db: a verified model

venom-db is an embedded relational engine: slotted pages under an LRU buffer pool, a write-ahead log with redo and undo,
a lock manager, a B+tree index on the primary key, an HNSW vector index, and an executor that keeps heap and index
together. This project models those parts in Dafny, in the form the code has (classes whose fields are updated in place,
loops with invariants, pure functions where the code computes), and proves what each part is for. Every method is proved
against a specification on values; the theorems are about those values, for every input and every run.

`dafny verify dfyconfig.toml` checks everything.

## What is proved

- **B+tree** (`Node`, `BTreeShape`, `BTreeGrowth`, `BTree`). For distinct keys, every run of insert, delete, search and
  range scan is a run on a finite map. One inductive predicate, `Good`, says of a subtree that all leaves are at one depth,
  keys ascend, each child lies within its separators, children are keys + 1, no node keeps more than seven keys, and the
  `next` pointers thread its leaves left to right; it is carried through leaf, internal and root splits and through deletes
  that empty leaves. Range scans return exactly the record ids in range in key order, and `DepthBound` makes depth
  logarithmic in the number of insertions, whatever was deleted in between.
- **HNSW** (`HnswSearch`, `HnswLinks`, `HnswConnect`, `Hnsw`). Links stay symmetric, in range, without self or duplicate
  link and within the degree limits, and the entry point owns the top layer. Beam search returns the `ef` nearest of what it
  visited, having visited every neighbour of what it returned; with `ef` covering the reachable part, `Search` is brute-force
  k-nearest over the layer-0 component of the point the descent reached. An insertion is explained link by link:
  after it, a layer's links are the old ones and those to the nearest nodes found, except links that a full node gave up,
  and each of those is that node's farthest.
- **Locks** (`LockSpec`, `LockOrder`, `LockSteps`, `LockManager`, `Serializability`, `SerialHistory`, `FirstCome`). Every reachable state keeps mutual exclusion, has no
  waiter without a holder, records only real waits and no cycle of them. `has_cycle` is characterised exactly: it answers
  yes if and only if two different wait paths from the start meet. Histories under strict two-phase locking equal the serial
  execution in release order: same final database, same values read by every transaction. A release serves each queue front to
  back, which fixes whom it grants, so of two transactions that wait for exclusive access the one that asked first gets it.
- **Pages** (`Bytes`, `Utf8`, `Slots`, `Page`, `Formats`). The 4096 bytes lay out exactly one list of live or tombstoned tuples, and each operation
  on the bytes is the operation on the list. What every file holds is said byte by byte, and reading accepts what writing
  produces and no other bytes.
- **Log and recovery** (`LogRecord`, `UndoPass`, `Recovery`, `Wal`). A log cut at any byte parses to the records wholly before
  the cut. For every log, set of transactions and pages, undo leaves the pages alone if and only if it is harmless: no undone
  insert names a live slot, no undone delete fits back, and every byte the earliest undone update puts back is already there
  (`UndoExact`). Redo goes by transaction id alone, so it is right for logs in which an id that commits anywhere commits
  wherever it logs a change (`FatesAgree`; ids used once imply it, ids reused across sessions may break it). For those logs
  recovery gives the tuples of the last wholly logged Commit if and only if undoing the unfinished transactions, wherever in
  the log a crash or a failed statement left them, is harmless to those tuples; for transactions one after the other that comes
  down to no delete of the one cut short fitting back, and redo, which ignores the logged slot id, yet lands in it. A reopened
  manager carries on where recovery was exact.
- **Buffer pool** (`BufferPool`). Under one outstanding pin at a time the pool is a plain store from page id to page:
  hits, misses, evictions, write-backs and flushes change no page content, only writes do; victims are the least recently
  pinned frames; a page that could be fetched can always be fetched again.
- **Tables** (`Rows`, `TableSpec`, `SqlMeaning`, `TableScan`, `Table`, `Catalog`). Rows read back whatever follows them; live rows have distinct
  integer keys and the index is exactly the map from key to record id after every statement, failed ones included; each
  statement says exactly when it succeeds, and of the cells themselves what it does: the rows a WHERE clause chooses, for
  each of the eight operators on integers, texts and NULL, are those that go, those whose cells are set and those that are
  listed; index scan and sequential scan answer alike for every comparison, right-hand side and projection; the catalog file reads back in any table order, keys included, and version 1 files still read.
- **A table after a crash** (`TableLog`, `PoolHeap`, `TableRecovery`). Log, database file, buffer pool, heap and index together:
  whatever byte of the log a crash cuts at, in whatever statement, and whatever had reached the file, reopening replays the log,
  copies the recovered pages over those the pool can fetch, flushes, and rebuilds the index from what the pool then gives out.
  The rows that come back are those of the last statement committed in the surviving log if and only if no delete cut short
  fits back, every listed page with a committed row can be read from the file, and no readable listed page that the log knows
  nothing of holds a row; then the index is that statement's too (`BackExactly`, `Reopen`).

## Where the code does less than its words

- `has_cycle` also answers yes on a diamond of waits that is no deadlock (`DiamondIsNoCycle`), and `acquire` then refuses a request
  that would close no cycle (`DiamondRefused`). The exact answer is `PathsMeet`.
- A committed row can be lost in a crash. INSERT syncs its Commit record before its page is written, a new page is allocated
  without a write, and recovery drops a recovered page it cannot fetch; so after a crash in between, the row is gone although
  every byte of the log survived (`UnflushedInsertLost`). A torn page loses its rows in the same way. `BackExactly` is the
  exact condition.
- Redo goes wrong when a session commits under an id that an earlier one left unfinished: both are replayed, and a row that was
  never committed comes back (`ReusedIdRevivesRow`).
- Undo goes wrong in three ways, and in no other (`RecoverExact`), each shown on a log the code writes:
  undo of an unfinished Delete appends the old bytes as a new tuple although redo never applied that delete
  (`UnfinishedDeleteDoubles`); a log appended to after a crash still holds the unfinished insert in its middle, and the next
  recovery deletes a row committed later in the same slot (`RestartedLogLosesRow`); a failed UPDATE leaves its transaction open,
  and the next recovery puts its old bytes over what was committed since (`FailedUpdateReverts`).
- First come, first served holds among waiters only: shared requests are granted past an exclusive one that waits, and such a
  reader may then upgrade past it (`ReaderOvertakes`).
- A waiting upgrade is never woken by a release (`UpgradeNotWoken`); only asking again grants it (`UpgradeOnRetry`).
- A buffer pool hit leaves the pinned frame among the eviction candidates (`FetchPage`); a second fetch would take it
  exactly when it is the pool's only frame (`PinnedVictim`).
- The comment on `BTree` says page 0 is always the root; the root moves at each root split, and the model follows the code. The
  comment on `ORDER` allows 2 * ORDER keys; nodes split on reaching that number, so seven remain the most between operations.
- For `id > i64::MAX` and `id < i64::MIN` the bound handed to the index wraps round (in builds without overflow checks). The second
  look at the filter makes the answer right nevertheless (`RangeCovers`), so the agreement needs no proviso.
- The format comment of the catalog file knows two type tags; the code writes and reads three.

## Model

| member | source | states |
|---|---|---|
| `Node.FindChildIndex` | src/index/node.rs:51-53 | the child followed for a key: all separators before it are at most the key, all from it on are greater |
| `Node.FindKeyIndex` | src/index/node.rs:65-67 | finds the key exactly when the leaf has it, at a position holding it |
| `BTree.BTree.constructor` | src/index/btree.rs:24-34 | a new tree is a good tree holding the empty map |
| `BTree.BTree.FindLeaf` | src/index/btree.rs:193-203 | the loop reaches the leaf the separators route the key to |
| `BTreeShape.LeafForHas` | src/index/btree.rs:193-203 | routing is exact: the tree holds a key if and only if the routed leaf does |
| `BTree.BTree.Search` | src/index/btree.rs:39-48 | the record id the map holds for the key, or none |
| `BTree.BTree.Insert` | src/index/btree.rs:51-62 | map updated at the key, tree still good, through a root split as well |
| `BTree.BTree.InsertRecursive` | src/index/btree.rs:110-151 | a subtree either keeps its place with one entry more, or halves around the promoted key; nodes outside it are untouched |
| `BTree.BTree.InsertLeaf` | src/index/btree.rs:114-127 | the leaf case of the recursion: entry inserted in order, or the leaf halves |
| `BTree.BTree.InsertInternal` | src/index/btree.rs:129-149 | the internal case: child kept or halved, so is the parent |
| `BTree.BTree.AddChild` | src/index/btree.rs:133-144 | separator and right half added beside the child; the node halves when full |
| `BTree.BTree.SplitLeaf` | src/index/btree.rs:154-174 | halves at the middle, promoted key is the right half's first, the right half takes over the old next pointer |
| `BTree.BTree.SplitInternal` | src/index/btree.rs:177-190 | halves around the middle separator, which moves up and stays in neither half |
| `BTreeGrowth.LeafKept` | src/index/btree.rs:114-126 | a leaf with room stays good and holds one entry more |
| `BTreeGrowth.LeafHalves` | src/index/btree.rs:154-174 | a split leaf gives two good leaves, chained, holding together the old entries and the new one |
| `BTreeGrowth.NodeKept` | src/index/btree.rs:129-149 | a parent whose child kept its place stays good |
| `BTreeGrowth.NodeTakesSplit` | src/index/btree.rs:133-144 | a parent's child list with one separator and one child more is good |
| `BTreeGrowth.NodeHalves` | src/index/btree.rs:177-190 | an overfull parent cut at its middle separator gives two good subtrees of the same height |
| `BTreeShape.KidsSplit` | src/index/btree.rs:133-144 | two halves in place of a child keep order, bounds, depth, disjointness and the leaf chain |
| `BTreeShape.KidsCut` | src/index/btree.rs:177-190 | both halves of a cut child list satisfy the bounds the promoted key imposes |
| `BTreeShape.GoodFrame` | src/index/btree.rs:110-151 | writing nodes of one subtree cannot spoil another |
| `BTree.BTree.Delete` | src/index/btree.rs:66-75 | map without the key, answer tells whether it was there, height and shape unchanged |
| `BTreeShape.RemovedGood` | src/index/btree.rs:66-75 | a deletion, also one that empties a leaf, keeps every tree invariant and the leaf chain |
| `BTree.BTree.RangeScan` | src/index/btree.rs:78-100 | terminates and returns the record ids of exactly the keys in the range, ascending |
| `BTree.RangeUnique` | src/index/btree.rs:78-100 | contents and bounds leave only one such result |
| `BTreeShape.LeavesChained` | src/index/btree.rs:154-174 | the next chain is the left-to-right leaf order |
| `BTreeShape.LeafForPosition` | src/index/btree.rs:78-100 | leaves before the one a scan starts at hold only smaller keys |
| `BTreeGrowth.ManyLeaves` | src/index/node.rs:46-63 | height h >= 1 means at least 2 * 4^(h-1) leaves, emptied ones counted |
| `BTreeGrowth.WeightCoversLeaves` | src/index/btree.rs:154-174 | every leaf accounts for at least four insertions |
| `BTree.BTree.DepthBound` | src/index/btree.rs:51-62 | height h >= 1 means at least 8 * 4^(h-1) insertions so far, deletes in between notwithstanding |
| `BTreeShape.NodeSizes` | src/index/node.rs:4-63 | every node of a good tree holds at most seven keys, an internal one a child more than keys and below the root at least four children |
| `HnswSearch.SelectNeighbors` | src/index/hnsw/mod.rs:166-168 | the first m candidates, in order |
| `HnswSearch.SortByDist` | src/index/hnsw/mod.rs:269-344 | a sorted permutation, distinct ids kept distinct |
| `Hnsw.HnswGraph.SearchLayer` | src/index/hnsw/mod.rs:269-344 | terminates; results sorted by true distance, distinct, the ef nearest of all visited, every neighbour of a result visited, everything visited reachable |
| `Hnsw.HnswGraph.Expand` | src/index/hnsw/mod.rs:310-340 | visiting the neighbours of one candidate keeps the search invariant and visits them all |
| `HnswSearch.Offer` | src/index/hnsw/mod.rs:320-338 | the ef nearest stay the ef nearest when a node is visited and offered |
| `HnswSearch.StopEarly` | src/index/hnsw/mod.rs:299-308 | stopping at a candidate farther than a full result list leaves no result unexpanded |
| `HnswSearch.NoNearerNeighbor` | src/index/hnsw/mod.rs:299-343 | an unreturned neighbour of a result is no nearer than the worst result, and the list is full |
| `HnswSearch.LocalMinimum` | src/index/hnsw/mod.rs:368-373 | greedy search ends where no linked node is nearer |
| `Hnsw.GreedyStepIsLocalMinimum` | src/index/hnsw/mod.rs:479-484 | so does every step of the descent |
| `Hnsw.DescentSteps` | src/index/hnsw/mod.rs:365-373 | the descent takes one greedy step on each layer from the top down, each from where the last ended |
| `HnswSearch.SearchComplete` | src/index/hnsw/mod.rs:299-343 | with ef at least the reachable count, the results are exactly the reachable nodes |
| `HnswSearch.CompleteIsKNearest` | src/index/hnsw/mod.rs:486-495 | and cut to k they are brute-force k-nearest over them |
| `Hnsw.HnswGraph.Search` | src/index/hnsw/mod.rs:472-496 | descent, beam search and cut; k-nearest over the layer-0 component of the descended entry point when ef covers it |
| `Hnsw.HnswGraph.constructor` | src/index/hnsw/mod.rs:176-185 | an empty graph satisfies the invariant under any configuration |
| `Hnsw.HnswGraph.Insert` | src/index/hnsw/mod.rs:354-461 | keeps all link invariants and the entry point rule; only the new node is added; start point is the greedy descent's; layer by layer the graph changes as `Connects` says |
| `Hnsw.HnswGraph.Descend` | src/index/hnsw/mod.rs:365-373 | ends, by greedy steps, at a node owning the first layer to connect |
| `Hnsw.HnswGraph.ConnectDown` | src/index/hnsw/mod.rs:380-455 | the layers connected one after the other, each from the nearest node found above |
| `Hnsw.HnswGraph.ConnectLayer` | src/index/hnsw/mod.rs:389-450 | invariants restored, other layers untouched, every link made or lost explained |
| `Hnsw.HnswGraph.LinkNode` | src/index/hnsw/mod.rs:392-402 | links go both ways afterwards; only the neighbours may be overfull, by one |
| `Hnsw.HnswGraph.PruneNode` | src/index/hnsw/mod.rs:404-449 | an overfull node keeps exactly the limit, the nearest; dropped links go at both ends, no other link changes |
| `HnswConnect.PruneExplained` | src/index/hnsw/mod.rs:404-449 | what a prune cuts is the farthest link of a node that was full before the insertion |
| `HnswConnect.OneDropped` | src/index/hnsw/mod.rs:417-437 | an overfull list is the old full one and the new node, and exactly one of them is dropped |
| `HnswConnect.EveryLayerExplained` | src/index/hnsw/mod.rs:380-455 | over a whole insertion, every connected layer differs from before only by links explained by the nearest nodes a search of that layer found: `m_max` of them on layer 0, `m` above |
| `HnswLinks.LinkedAll` | src/index/hnsw/mod.rs:392-402 | linking and linking back restores symmetry without duplicates |
| `HnswLinks.PrunedAll` | src/index/hnsw/mod.rs:417-448 | pruning and un-linking restores symmetry and the node's limit |
| `Hnsw.PruneChoice` | src/index/hnsw/mod.rs:418-437 | everything kept is at least as near as everything dropped |
| `Hnsw.LinkFacts` | src/index/hnsw/mod.rs:354-461 | the invariants read off the node lists: target stored, not itself, owns the layer, links back, listed once, degree bounded |
| `LockManager.GrantedCounts` | src/concurrency/lock_manager.rs:26-38 | counts the granted shared and exclusive requests |
| `LockManager.LockManager.AcquireLock` | src/concurrency/lock_manager.rs:96-161 | new state and answer are those of the step function, for re-entry, upgrade, grant, queueing and deadlock |
| `LockManager.LockManager.TryGrantWaiting` | src/concurrency/lock_manager.rs:183-222 | request i of one queue is granted afterwards if and only if it was, or nothing stands in its way: no request granted before and none ahead of it granted now, one of the two being exclusive; the rest of the table untouched |
| `LockManager.LockManager.ReleaseAll` | src/concurrency/lock_manager.rs:165-180 | new state is that of the release step, in whatever order rows are visited |
| `LockOrder.BatchInTurn` | src/concurrency/lock_manager.rs:183-222 | so the batch of every release, for any queue |
| `LockOrder.InTurnUnique` | src/concurrency/lock_manager.rs:183-222 | and only one result satisfies this |
| `LockOrder.RetainInOrder` | src/concurrency/lock_manager.rs:151-171 | the requests that stay keep their order, and exactly those of other transactions, or also the granted ones, stay |
| `LockOrder.ReleaseMeans` | src/concurrency/lock_manager.rs:165-180 | on every row the transaction leaves, the rest in order is served in turn; the waits left are those between all others |
| `LockOrder.AcquireLeaves` | src/concurrency/lock_manager.rs:96-161 | an acquire touches no other queue, no other transaction's waits and no other transaction's request |
| `LockOrder.QueuedAtEnd` | src/concurrency/lock_manager.rs:123-158 | a queued request stands behind everybody, waiting for exactly the other holders of the row |
| `FirstCome.NotOvertaken` | src/concurrency/lock_manager.rs:96-222 | on any run: whoever waits for exclusive access since before another asked is not overtaken by it at a release, as long as the other holds nothing there |
| `FirstCome.FirstServed` | src/concurrency/lock_manager.rs:96-222 | on any run: a row only the releasing transaction holds goes to the waiter that asked before all others |
| `FirstCome.ReaderOvertakes` | src/concurrency/lock_manager.rs:104-131 | a run in which a reader comes after an exclusive waiter, is granted and upgrades before it |
| `LockManager.LockManager.HasCycle` | src/concurrency/lock_manager.rs:225-240 | terminates and answers yes if and only if two different wait paths from the start meet, for any iteration order |
| `LockSteps.NoMeetNoCycle` | src/concurrency/lock_manager.rs:225-240 | where it answers no, no cycle is reachable from the start |
| `LockSteps.DiamondIsNoCycle` | src/concurrency/lock_manager.rs:230-232 | it can answer yes on an acyclic graph |
| `Serializability.DiamondRefused` | src/concurrency/lock_manager.rs:136-158 | a run of acquires after which one more is refused as a deadlock although its waits would close no cycle |
| `LockSteps.AcyclicExtend` | src/concurrency/lock_manager.rs:136-158 | new waits that pass the test close no cycle |
| `LockSteps.AcquireAnswer` | src/concurrency/lock_manager.rs:41-161 | granted at once if and only if nobody else holds a conflicting lock, and then held; queued means waiting for exactly the other holders; a deadlock leaves neither request nor wait behind |
| `LockSteps.AcquireInv` | src/concurrency/lock_manager.rs:96-161 | acquire keeps mutual exclusion, blocked waiters, real edges and acyclicity, whatever it answers |
| `LockSteps.ReleaseInv` | src/concurrency/lock_manager.rs:165-222 | so does release_all with its batch grants |
| `LockSpec.GrantFromOk` | src/concurrency/lock_manager.rs:183-222 | batch granting keeps mutual exclusion, takes no grant away and leaves no waiter without a blocker |
| `LockSteps.HoldersCompatible` | src/concurrency/lock_manager.rs:243-254 | an exclusive holder and any holder of the same row are one transaction |
| `LockSteps.AcquireKeepsHold` | src/concurrency/lock_manager.rs:96-161 | no acquire takes away or weakens a held lock |
| `LockSteps.ReleaseKeepsHold` | src/concurrency/lock_manager.rs:165-180 | no release by another transaction does |
| `LockSteps.ReleaseLeavesNothing` | src/concurrency/lock_manager.rs:165-180 | after its release a transaction has no request anywhere |
| `LockSteps.UpgradeNotWoken` | src/concurrency/lock_manager.rs:183-222 | batch granting never grants a waiting upgrade |
| `LockSteps.UpgradeOnRetry` | src/concurrency/lock_manager.rs:104-121 | asking again grants it if and only if nobody else holds the row |
| `Serializability.RunInv` | src/concurrency/lock_manager.rs:96-222 | the lock invariant holds in every reachable state |
| `Serializability.HeldUntilRelease` | src/concurrency/lock_manager.rs:96-180 | a lock once held is held until its holder's release |
| `Serializability.ConflictOrder` | src/concurrency/lock_manager.rs:243-254 | conflicting accesses happen in the order of the releases |
| `Serializability.SerialEquivalent` | src/concurrency/lock_manager.rs:96-180 | a history whose conflicts follow an order equals the serial one: same database, same reads |
| `Serializability.StrictTwoPhaseSerializes` | src/concurrency/lock_manager.rs:96-180 | so every history under held locks equals the serial one in release order |
| `Serializability.FinishedHistorySerializes` | src/concurrency/lock_manager.rs:165-180 | with everybody finished, that order is the sequence of the release calls |
| `SerialHistory.SerialIsSerial` | src/concurrency/lock_manager.rs:165-180 | the serial history is the history rearranged, one transaction after another in the given order, each keeping its own order |
| `SerialHistory.ExecNewest` | src/concurrency/lock_manager.rs:96-180 | after a history a row holds what was written to it last, or what it held before |
| `SerialHistory.ReadsNewest` | src/concurrency/lock_manager.rs:96-180 | the values a transaction reads, where they stand: each the last written before it |
| `SerialHistory.InterleavedIsLegal` | src/concurrency/lock_manager.rs:96-161 | two interleaved transactions on two rows, releasing in the other order, make a legal history |
| `Page.HeaderRoundTrip` | src/storage/page.rs:35-51 | decoding undoes encoding a page header |
| `Page.SlotRoundTrip` | src/storage/page.rs:58-72 | decoding undoes encoding a slot entry |
| `Page.LayoutUnique` | src/storage/page.rs:82-132 | page bytes describe at most one list of tuples |
| `Page.LayoutInsert` | src/storage/page.rs:136-170 | the three writes of an insert lay out the list with one tuple more, old slots and bytes unharmed |
| `Page.LayoutUpdate` | src/storage/page.rs:186-202 | overwriting in place changes that tuple only and keeps its tail |
| `Page.LayoutDelete` | src/storage/page.rs:205-218 | a tombstone changes that slot only |
| `Page.LayoutBlank` | src/storage/page.rs:232-242 | pages equal up to the checksum field hold the same tuples |
| `Page.StampedRight` | src/storage/page.rs:232-253 | a stamped page has the right checksum and differs from the page in bytes 8 to 11 only |
| `Page.VerifiesMeans` | src/storage/page.rs:244-253 | verification passes if and only if bytes 8 to 11 are the checksum of the page with these bytes zero, that is if stamping the page changes nothing |
| `Formats.HeaderBytes` | src/storage/page.rs:33-52 | slot count in bytes 4 and 5, start of the tuples in bytes 6 and 7 |
| `Formats.SlotBytes` | src/storage/page.rs:56-131 | slot i in the five bytes from 12 + 5i: offset, length, live or not; the tuple where it says |
| `Page.SlottedPage.constructor` | src/storage/page.rs:82-97 | a new page holds no tuples |
| `Page.SlottedPage.InsertTuple` | src/storage/page.rs:136-170 | succeeds if and only if tuple and slot entry fit; the slot id is the old count; one tuple appended; a tuple of 65536 bytes or more overruns the page exactly when the low 16 bits of its length would fit |
| `Page.SlottedPage.GetTuple` | src/storage/page.rs:173-183 | the bytes of a live tuple, none for a tombstone or an unknown slot |
| `Page.SlottedPage.UpdateTuple` | src/storage/page.rs:186-202 | succeeds if and only if the tuple is live and does not grow; other tuples unchanged |
| `Page.SlottedPage.DeleteTuple` | src/storage/page.rs:205-218 | succeeds if and only if live; bytes stay, other tuples unchanged |
| `Page.SlottedPage.FreeSpace` | src/storage/page.rs:221-225 | an insert of len bytes fits if and only if len + 5 bytes are free |
| `Page.SlottedPage.FinalizeChecksum` | src/storage/page.rs:232-242 | stamps the checksum, tuples unchanged |
| `LogRecord.ParseBack` | src/recovery/log_record.rs:90-284 | parsing undoes encoding for all seven kinds of record, whatever follows |
| `Formats.MarkBytes` | src/recovery/log_record.rs:82-165 | the bytes of begin, commit, abort and checkpoint records in their frames |
| `Formats.InsertBytes` | src/recovery/log_record.rs:82-165 | those of an insert record, for any data |
| `Formats.DeleteBytes` | src/recovery/log_record.rs:82-165 | of a delete record |
| `Formats.UpdateBytes` | src/recovery/log_record.rs:82-165 | of an update record: old bytes, then new |
| `Formats.ParseOnly` | src/recovery/log_record.rs:169-284 | what parses as a record starts with that record's encoding; what is skipped is empty or of an unknown kind |
| `LogRecord.TornFrame` | src/recovery/wal.rs:305-323 | a frame cut short reads as the end of the log |
| `LogRecord.WholeRecordsFit` | src/recovery/wal.rs:305-323 | the count of whole records is the largest whose encoding lies before the cut |
| `LogRecord.CrashCut` | src/recovery/wal.rs:305-323 | a log cut at any byte parses to exactly those records, without a panic |
| `LogRecord.ReadBack` | src/recovery/wal.rs:305-323 | a log of whole frames parses to all its records |
| `UndoPass.UndoFrames` | src/recovery/wal.rs:199-238 | for any log: slots, lengths and liveness come through undo unchanged if and only if no undone insert names a live slot and no undone delete fits back |
| `UndoPass.UndoLive` | src/recovery/wal.rs:206-213 | for any log: a tuple is live after undo if and only if it was and no undone insert names its slot |
| `UndoPass.UndoByte` | src/recovery/wal.rs:224-234 | for any log: each byte of a tuple that stays live ends as the earliest undone update covering it left it |
| `UndoPass.DeleteAppends` | src/recovery/wal.rs:214-223 | for any log: an undone delete that fits when its turn comes adds a tuple behind the others, with the bytes it logged except where an earlier undone update covers them, live unless an earlier undone insert names its slot |
| `UndoPass.UndoExact` | src/recovery/wal.rs:199-238 | for any log, transactions and pages: undo changes nothing if and only if it is harmless in these three ways |
| `Recovery.RedoTracks` | src/recovery/wal.rs:147-197 | redo over any prefix rebuilds the pages of the transactions that commit, unfinished ones in between notwithstanding |
| `Recovery.RedoLandsInLoggedSlot` | src/recovery/wal.rs:150-162 | every redone insert fits and lands in the slot the record names |
| `Recovery.UniqueIdsAgree` | src/recovery/wal.rs:119-145 | with ids used once, an id that commits commits wherever it logs a change |
| `Recovery.RecoverExact` | src/recovery/wal.rs:112-241 | recovery gives exactly the committed tuples if and only if undoing the unfinished transactions, anywhere in the log, is harmless to them |
| `Recovery.RowsKept` | src/recovery/wal.rs:112-241 | a committed row survives recovery if and only if no unfinished insert names its slot |
| `Recovery.TailExact` | src/recovery/wal.rs:112-241 | with no transaction abandoned in the middle, recovery is exact if and only if no delete of the last one fits back |
| `Recovery.CrashRecovery` | src/recovery/wal.rs:112-241 | the same two results after a crash at any byte, for the last wholly logged Commit |
| `Recovery.RestartedLogLosesRow` | src/recovery/wal.rs:206-213 | two sessions with ids from 1 each, after which recovery deletes a row the second committed |
| `Recovery.ReusedIdRevivesRow` | src/recovery/wal.rs:147-162 | two sessions under one id, the first unfinished: undo has nothing to do, and redo brings back the row never committed |
| `Recovery.UnfinishedDeleteDoubles` | src/recovery/wal.rs:214-223 | a log cut after an unfinished delete, after whose recovery the page holds the one committed row twice |
| `Recovery.FailedUpdateReverts` | src/recovery/wal.rs:224-234 | an update of two rows that failed at the second before a committed one: recovery puts the oldest bytes of the first back |
| `Wal.WalManager.Open` | src/recovery/wal.rs:16-30 | an existing log is opened with empty pages, ids from 1 and lsns from 0 |
| `Wal.WalManager.Append` | src/recovery/wal.rs:243-297 | the next lsn stamped, one frame added at the end |
| `Wal.WalManager.BeginTxn` | src/recovery/wal.rs:32-38 | a fresh id becomes active, the log stays in order; one left open is dropped, and the pages stay in step if it changed no slot list |
| `Wal.WalManager.LogInsert` | src/recovery/wal.rs:40-56 | refused if and only if the page is full; otherwise logs the slot the tuple takes |
| `Wal.WalManager.LogDelete` | src/recovery/wal.rs:58-77 | logs the bytes found, answers whether the tuple was live |
| `Wal.WalManager.LogUpdate` | src/recovery/wal.rs:79-97 | logs old and new bytes, own pages untouched |
| `Wal.WalManager.CommitTxn` | src/recovery/wal.rs:98-103 | the transaction's view becomes the committed state |
| `Wal.WalManager.AbortTxn` | src/recovery/wal.rs:105-110 | the committed state stays; the pages stay in step if the transaction changed no slot list |
| `Wal.WalManager.ReadAllRecords` | src/recovery/wal.rs:305-323 | the loop reads what the parsing function says, torn tail dropped |
| `Wal.WalManager.Recover` | src/recovery/wal.rs:112-241 | the three passes compute redo of the committed, then reverse undo of the unfinished; a log that does not parse changes nothing |
| `Wal.Restart` | src/recovery/wal.rs:112-241 | a manager opened on a log file and recovered from it; in step with the log wherever recovery was exact |
| `Wal.RestartRecovers` | src/recovery/wal.rs:112-241 | what restarting from any surviving prefix of a manager's log recovers: the last committed tuples, under the exact conditions above |
| `BufferPool.LruReplacer.Unpin` | src/buffer/lru_replacer.rs:13-17 | added at the recent end unless listed |
| `BufferPool.LruReplacer.Evict` | src/buffer/lru_replacer.rs:23-25 | the oldest entry leaves |
| `BufferPool.LruReplacer.RecordAccess` | src/buffer/lru_replacer.rs:27-30 | moved to the recent end |
| `BufferPool.FlushInv` | src/storage/disk_manager.rs:32-39 | writing a frame back changes no page content and keeps every pool invariant |
| `BufferPool.DropInv` | src/buffer/buffer_pool.rs:177-186 | giving up a clean frame loses nothing |
| `BufferPool.LoadInv` | src/buffer/buffer_pool.rs:77-86 | a miss brings in the newest bytes |
| `BufferPool.CreateInv` | src/buffer/buffer_pool.rs:48-62 | a new page extends the store and changes nothing else |
| `BufferPool.HitInv` | src/buffer/buffer_pool.rs:68-74 | a hit changes no page and makes its frame the most recent |
| `BufferPool.WriteInv` | src/buffer/buffer_pool.rs:95-97 | a write changes the store at the pinned page only |
| `BufferPool.UnpinInv` | src/buffer/buffer_pool.rs:101-114 | giving a pin back changes no page, provided a written one is reported dirty |
| `BufferPool.FrontIsOldest` | src/buffer/lru_replacer.rs:23-25 | the front of the order is the frame pinned longest ago |
| `BufferPool.OrderDistinct` | src/buffer/lru_replacer.rs:13-30 | the order lists each frame once |
| `BufferPool.DropReads` | src/buffer/buffer_pool.rs:170-186 | a page given up can be fetched again |
| `BufferPool.PinnedVictim` | src/buffer/buffer_pool.rs:68-72 | after a hit the pinned frame is the next victim if and only if it is the only frame |
| `BufferPool.CleanIsDurable` | src/buffer/buffer_pool.rs:129-135 | with no dirty frame the disk alone is the store |
| `BufferPool.BufferPool.constructor` | src/buffer/buffer_pool.rs:28-44 | an opened pool stands for the pages of the file; exactly those whose bytes 8 to 11 are the checksum of the rest can be fetched |
| `BufferPool.BufferPool.FindFreeFrame` | src/buffer/buffer_pool.rs:155-187 | an empty frame, else the least recently pinned one, written out if dirty; store unchanged; fails only without frames |
| `BufferPool.BufferPool.NewPage` | src/buffer/buffer_pool.rs:48-62 | the next page id, pinned, dirty, not evictable; store extended by the empty page |
| `BufferPool.BufferPool.FetchPage` | src/buffer/buffer_pool.rs:66-87 | succeeds if and only if the page is resident, or a frame exists and the copy on disk has the right checksum in bytes 8 to 11; else an error; the frame holds the newest content; hit and miss counted; a hit leaves it evictable |
| `BufferPool.BufferPool.ReadPage` | src/storage/disk_manager.rs:42-59 | succeeds if and only if the page is whole and bytes 8 to 11 are the checksum of the page with these bytes zero |
| `BufferPool.BufferPool.WritePage` | src/buffer/buffer_pool.rs:95-97 | store updated at that page |
| `BufferPool.BufferPool.Unpin` | src/buffer/buffer_pool.rs:101-114 | pin gone, dirty flag kept or set, frame evictable, store unchanged; an unpinned frame is left alone |
| `BufferPool.BufferPool.FlushPage` | src/buffer/buffer_pool.rs:117-126 | the page's frame is clean, store unchanged |
| `BufferPool.BufferPool.FlushAll` | src/buffer/buffer_pool.rs:129-135 | afterwards the disk alone holds the store |
| `Rows.ColIndex` | src/engine/catalog.rs:23-25 | the first column of that name, if any |
| `Rows.RowRoundTrip` | src/engine/catalog.rs:34-116 | a row reads back, whatever follows it, if and only if every text's length fits 32 bits |
| `Formats.RowBytes` | src/engine/catalog.rs:34-68 | the bytes of a cell of each kind: tag, then eight bytes of a number, or a length and the text |
| `Formats.RowConcat` | src/engine/catalog.rs:34-68 | a row is its cells one after the other |
| `Formats.RowOnly` | src/engine/catalog.rs:71-116 | bytes that read as a row start with that row's encoding: nothing else is taken for one |
| `Utf8.AcceptedDecodes` | src/engine/catalog.rs:100-112 | every text accepted is the encoding of Unicode scalar values |
| `Utf8.EncodedAccepted` | src/engine/catalog.rs:100-112 | and every such encoding is accepted |
| `Rows.SerializeRow` | src/engine/catalog.rs:34-68 | succeeds if and only if count and types fit; the bytes read back |
| `Rows.DeserializeRow` | src/engine/catalog.rs:71-116 | the loop over the offset computes the decoding function; what it returns is typed |
| `TableSpec.IndexDistinct` | src/engine/executor.rs:218-237 | rows that an index agrees with have distinct keys |
| `TableSpec.IndexUnique` | src/engine/executor.rs:115-148 | a table has at most one index: rebuilding gives what was lost |
| `TableSpec.KeyFreeAgrees` | src/engine/executor.rs:719-741 | the key check made through the index is the check among the rows |
| `TableSpec.AgreeAdd` | src/engine/executor.rs:321-330 | a new row with a free key and its index entry keep the agreement |
| `TableSpec.AgreeRemove` | src/engine/executor.rs:614-625 | so do a row gone and its key gone |
| `TableSpec.AgreeReplace` | src/engine/executor.rs:790-801 | and a row revised with its key moved, the new key being the old or free |
| `TableSpec.HeapUpdate` | src/engine/executor.rs:766-788 | a row rewritten in place reads back as written although the old tail follows |
| `TableSpec.AssignedKeyed` | src/engine/executor.rs:719-764 | checked assignments keep a row typed and its key an integer that is old or free |
| `TableSpec.ProjectPicks` | src/engine/executor.rs:881-894 | succeeds if and only if every name is a column; the cells of those columns in the order asked |
| `SqlMeaning.TextOrder` | src/sql/ast.rs:86-95 | texts compare equal if and only if their bytes are, less if and only if one is a proper prefix or smaller at the first difference |
| `SqlMeaning.MatchesMeans` | src/engine/executor.rs:829-868 | the filter succeeds if and only if its column exists and the cell can be compared or need not be, and answers yes if and only if the row is chosen |
| `SqlMeaning.WhereInteger` | src/engine/executor.rs:829-868 | an integer cell against an integer: each of the six comparisons chooses the row if and only if it holds of the integers |
| `SqlMeaning.WhereText` | src/engine/executor.rs:829-868 | a text cell against a text: the same with equality of bytes and the order above |
| `SqlMeaning.WhereNull` | src/engine/executor.rs:836-846 | NULL satisfies IS NULL and nothing else; comparing with NULL chooses nothing; neither is an error |
| `SqlMeaning.WhereMixed` | src/engine/executor.rs:848-865 | comparing a text with a number is an error |
| `SqlMeaning.WhereUnknown` | src/engine/executor.rs:830-832 | so is a column that does not exist |
| `SqlMeaning.AssignedMeans` | src/engine/executor.rs:743-764 | the assignments apply if and only if every named column exists and takes the value; each cell is then the value last assigned to its column, or the old cell |
| `SqlMeaning.CellsSetUnique` | src/engine/executor.rs:743-764 | which leaves one row |
| `SqlMeaning.RevisableMeans` | src/engine/executor.rs:691-788 | when an UPDATE can visit a row, said of the cells: the filter decided and, where it chooses the row, assignments that can be made, a free key, and a row that still fits |
| `SqlMeaning.ProjectMeans` | src/engine/executor.rs:881-894 | `*` gives the row, names the cells of these columns in this order; fails if and only if a name is no column |
| `TableScan.CollectedOrder` | src/engine/executor.rs:378-416 | the order in which rows are met changes neither failure nor the rows returned |
| `TableScan.SameContributors` | src/engine/executor.rs:378-416 | rows that contribute nothing do not matter either |
| `TableScan.RangeCovers` | src/engine/executor.rs:500-513 | the range asked of the index holds exactly the keys that satisfy the comparison; where the bound wraps it holds all keys and none satisfies |
| `TableScan.RangeNoDup` | src/engine/executor.rs:500-513 | a range of keys meets each record id once |
| `TableScan.IndexScanAgrees` | src/engine/executor.rs:481-551 | index scan and sequential scan both fail or return the same rows as often |
| `TableScan.CollectedLists` | src/engine/executor.rs:378-416 | a scan that meets every row once fails if and only if some row cannot be answered, else lists the chosen rows once each in the order met |
| `TableScan.ScanLists` | src/engine/executor.rs:378-416 | so the sequential scan, page by page and slot by slot |
| `TableScan.IndexLists` | src/engine/executor.rs:481-551 | so the index scan, by ascending key |
| `Table.Table.constructor` | src/engine/executor.rs:180-207 | a new table has no rows and an empty index |
| `Table.Table.Insert` | src/engine/executor.rs:211-344 | succeeds if and only if the row is typed, its key an unused integer and it fits a page; then exactly that row is new; otherwise nothing changed; the log keeps in step |
| `Table.Table.FindPage` | src/engine/executor.rs:257-287 | the first page with room: none before it has; none at all only if no page has |
| `Table.Table.InsertBytes` | src/engine/executor.rs:241-343 | begin, place in the first page with room or a new one, commit; a row too large leaves the transaction open |
| `Table.Table.Place` | src/engine/executor.rs:271-330 | bytes logged and on the page and key in the index, agreement kept |
| `Table.Table.Commit` | src/engine/executor.rs:332-335 | the log's committed pages are the heap; this is a state a crash can lead back to |
| `Table.Table.Delete` | src/engine/executor.rs:555-648 | succeeds if and only if the filter can be decided on every row; then exactly the chosen rows go, `!=`, IS NULL and texts included; on failure some of them; agreement kept either way |
| `Table.Table.DeleteSlot` | src/engine/executor.rs:589-629 | one slot: gone if live and matching, else untouched |
| `Table.Table.Update` | src/engine/executor.rs:651-825 | succeeds if and only if every row, in visiting order, is decided and, where chosen, keeps its key free among the rows as revised so far, takes the assignments and does not grow; then each chosen row has its cells set, in its place, and every other is as before; on failure some of them; agreement kept either way |
| `Table.Table.UpdateSlot` | src/engine/executor.rs:691-805 | one slot: the condition above for its row, and the row revised, or nothing changed |
| `Table.Table.Refuse` | src/engine/executor.rs:769-788 | a growing row is logged, refused and its transaction aborted; rows and slots unchanged |
| `Table.Table.UpdateRow` | src/engine/executor.rs:716-801 | succeeds if and only if the key check, the assignments and the length allow it; on failure nothing changed |
| `Table.Table.CheckKey` | src/engine/executor.rs:719-741 | accepts if and only if no assignment makes the key NULL or takes a key in use |
| `Table.Table.Assign` | src/engine/executor.rs:743-764 | all assignments in order, refused at the first unknown column or wrong type |
| `Table.Table.SeqScan` | src/engine/executor.rs:378-416 | the answer: matching rows projected, page by page and slot by slot, or the first error |
| `Table.Table.TryIndexSelect` | src/engine/executor.rs:481-551 | used if and only if the key column is compared with an integer by =, <, <=, > or >=; then the rows the sequential scan finds, by ascending key |
| `Table.Table.Select` | src/engine/executor.rs:348-416 | lists what is asked of every row the filter chooses, once each, in key order through the index and page by page elsewhere; fails if and only if some row cannot be decided or is chosen and a column asked for does not exist |
| `TableLog.HistoryCommit` | src/engine/executor.rs:332-335 | after a commit the log leads back to this table, and before it to the tables before |
| `TableLog.CrashedTable` | src/recovery/wal.rs:112-241 | crash at any byte of the log of a table: the log manager's own pages get the tuples of the last committed statement if and only if the one cut short deleted nothing that fits back |
| `Page.ImageLayout` | src/storage/page.rs:82-225 | the bytes of a page built up by inserts and deletes lay out exactly its tuples |
| `Page.SlottedPage.FromBytes` | src/storage/page.rs:99-105 | a page read back from bytes holds what they lay out |
| `PoolHeap.CopyPage` | src/engine/executor.rs:86-108 | a recovered page replaces the pool's where it can be fetched, and is dropped otherwise |
| `PoolHeap.CopyBack` | src/engine/executor.rs:82-113 | all recovered pages so copied, in any order, and flushed: the file alone holds the result |
| `TableRecovery.RebuildIndex` | src/engine/executor.rs:115-148 | for distinct keys, a new tree holding exactly the map from integer keys to record ids of the listed pages the pool can fetch; undecodable and keyless rows skipped |
| `TableRecovery.FitComesBack` | src/recovery/wal.rs:214-223 | a delete cut short whose bytes fit back: a live tuple with the logged bytes, beyond the committed ones, on a page with a committed row |
| `TableRecovery.BackExactly` | src/engine/executor.rs:72-155 | the rows that come back are the last committed ones if and only if no delete cut short fits back, every listed page with a committed row is readable, and no readable listed page unknown to the log holds a row |
| `TableRecovery.Reopen` | src/engine/executor.rs:72-155 | open and recover over any surviving log and file: pool, rows and index as above, through any page list stored since the statement |
| `TableRecovery.UnflushedInsertLost` | src/engine/executor.rs:332-341 | one insert, crashed between its synced Commit and its page write: the committed row does not come back |
| `Catalog.Save` | src/storage/catalog_store.rs:32-88 | the loops write the version 2 file for the order the tables are met in |
| `Formats.CatalogBytes` | src/storage/catalog_store.rs:32-77 | the bytes of a saved catalog with one table of three column types and one index |
| `Formats.NameOnly` | src/storage/catalog_store.rs:118-128 | bytes that read as a name are that name's encoding |
| `Formats.ColumnOnly` | src/storage/catalog_store.rs:146-177 | bytes that read as a column are that column's encoding; a flag other than one means no key |
| `Catalog.NewSchemaKey` | src/engine/catalog.rs:15-20 | a schema is as made if and only if its key is the name of its first flagged column, or none where none is flagged |
| `Catalog.Load` | src/storage/catalog_store.rs:92-193 | the loops compute the decoding function, every truncation an error; every table loaded stands under its name and has the key its columns say |
| `Catalog.LoadSaved` | src/storage/catalog_store.rs:32-193 | a catalog whose keys are right is loaded back from its saved file, keys included, for any table order and anything after the end |
| `Catalog.LoadOld` | src/storage/catalog_store.rs:130-192 | a version 1 file gives the same tables, names and types, with no column flagged, no key and no indexes |

## Left out

- BTree.BTree.Insert: keys are distinct, the primary-key use; with duplicates a split can leave equal keys on both sides of a separator and lookups only go right.
- BTree.BTree.InsertRecursive: the key is new to the subtree, as above.
- BTree.BTree.InsertLeaf: the key is new to the leaf, as above.
- BTree.BTree.InsertInternal: the key is new below the node, as above.
- Hnsw.HnswGraph.Insert: the random level is an input, ids are fresh, and the node list is a map by id.
- HnswSearch.SortByDist: the metric gives reals, so floating-point rounding and NaN distances are not modelled.
- HNSW recall and reachability of every node: pruning can disconnect nodes.
- LockSteps.AcquireInv: not every real wait has an edge, because edges are recorded only at enqueue time.
- Wake-up of waiting upgrades: the code does not do it.
- Recovery.RecoverExact: exact for logs in which an id that commits anywhere commits wherever it logs a change (`FatesAgree`), which ids used once imply. The code restarts ids in each session; for other logs only the failing case `ReusedIdRevivesRow` is stated.
- Recovery.RedoTracks: ids as for RecoverExact.
- Recovery.RedoLandsInLoggedSlot: ids as for RecoverExact.
- Recovery.RowsKept: ids as for RecoverExact.
- Recovery.TailExact: ids as for RecoverExact.
- Recovery.CrashRecovery: records of two transactions do not alternate; the executor begins one only when the one before has ended or failed.
- Wal.WalManager.LogInsert: the transaction is the one begun last, as above.
- Wal.WalManager.LogDelete: the transaction is the one begun last, as above.
- Wal.WalManager.LogUpdate: the transaction is the one begun last, as above.
- Wal.WalManager.CommitTxn: the transaction is the one begun last, as above.
- Wal.WalManager.AbortTxn: the transaction is the one begun last, as above.
- Wal.Restart: appending goes on from whole frames; a log whose last frame was torn is recovered from, not appended to.
- BufferPool.BufferPool.FetchPage: one outstanding pin at a time and writes before the unpin, the executor's own discipline.
- BufferPool.BufferPool.FindFreeFrame: called with no pin outstanding, by that discipline.
- BufferPool.BufferPool.NewPage: called with no pin outstanding, by that discipline.
- BufferPool.BufferPool.Unpin: a written page is reported dirty, by that discipline.
- Running out of 32-bit page and transaction ids: crash results are for logs whose ids and lengths fit their fields.
- File calls, fsync, rename and I/O errors; the log is a byte sequence and the disk a map of pages.
- CRC-32: an arbitrary function of the page bytes. Float values: eight opaque bytes compared by an arbitrary function.
- Rows.DeserializeRow: a slice past the end of the row, where the code panics, is an error like the others.
- Table.Table.Insert: too few values, where the code panics, is a failure like the others; pages are lists of tuples, as the page model justifies, and the buffer pool's calls are not repeated.
- TableRecovery.RebuildIndex: the rows that come back have distinct keys, as those of every committed statement have; a deleted row that came back can break this.
- TableRecovery.Reopen: all statements before the crash succeeded, a failed one before it being covered by RecoverExact alone; readable file pages hold what the page operations write; distinct keys as for RebuildIndex.
- Table.Table.constructor: one table on a log. Statement and crash results are for a database with one table: the heap is the table's own field, and after its statements no second table on the same log is in step.
- Secondary indexes made by hand, with duplicate keys.
- ORDER BY and LIMIT, which only permute and cut an answer; the SQL lexer and parser; the REPL; table page lists on disk.
- The byte format of tree nodes: the index lives in memory and nothing in the engine uses it.
