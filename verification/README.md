# Verified model of the vec database core

This project models, in Dafny 4.11, the parts of the vec embedded vector database where
correctness rests on state, order or arithmetic rather than on a single function:

- **Transactions** (`mvcc/`): version chains, snapshot reads, first-committer-wins
  validation, the watermark oracle and garbage collection, as classes and as one state
  machine over every interleaving of Begin, Stage, Commit, Abort, Deregister, GC and Prune;
  and the id map under the single-writer lock.
- **Pages** (`pager/`, `format/`): the buffer pool over a file, CLOCK eviction, allocation,
  checkpoints, the freelist chain, and the page and database header formats.
- **Indexes** (`index/`): the brute-force scan as oracle; HNSW search, construction and
  deletion; Vamana pruning and construction; inverted lists; k-means training.
- **Scans and codecs** (`query/`, `quant/`): the morsel-parallel top-k scan and product
  quantization.
- **Backups** (`bulk/`): the segment codec, the dump printer and the statement scanner.

Each component has a specification (a function, or a predicate on values) and the code in
the form the source has it: a class whose methods update fields, a loop over an array, or a
function. Methods are tied to the specification, and the theorems are about it.

## Results

- In every run each live transaction reads its own latest write, else the log at its read
  point (`SnapshotReads`), and later steps by others never change that (`RepeatableRead`).
  No two committed transactions that wrote a common key overlapped
  (`NoOverlappingWriters`), and a commit is refused only for a real conflict
  (`RefusedOnlyForConflict`). Validation at any read point answers expired exactly when the
  next commit has been forgotten, and a clear verdict is safe over the whole log
  (`VerdictExact`, `ClearIsSafe`). GC loses nothing a live or future snapshot can read, and
  leaves exactly what one may need (`CollectExact`).
- `Lookup` and `Reverse` stay mutually inverse for every snapshot (`Bijection`).
- The pool always shows the last bytes written, evicts no pinned frame, gives every frame
  its second chance (`Sweep`), and reports exhaustion exactly when every frame is stuck. A
  checkpoint leaves a clean pool, the encoded header on page 1, a chain that holds the free
  pages, and a checksum that verifies on every page it wrote. A reopened pager reads
  the header back and allocates safely exactly when the file is long enough to hold every
  free page (`ReopenSafe`); `PagerRun.ReopenTwice` is a run after which it is not. The
  chain of trunks can be followed to its end exactly when no trunk is repeated
  (`ChainEnds`).
- An HNSW search begins where the greedy descent ends. For any beam width, what it saw and
  left out is no nearer than any of a full set of results, and every returned or nearer
  node had its neighbours seen (`Beam`); with a wide enough beam it returns exactly the
  brute-force list. So does an inverted-file search over every cell. A build is the
  insertion of its points one by one (`Build`). Every Build, Insert and Delete keeps the graph well formed. An insertion changes exactly the lists it should,
  to what its searches found (`Inserted`), and leaves no node without neighbours while a
  live node is within reach (`NeverAlone`). A Vamana build is two passes of linking, without
  slack and then with it, after which every node but the medoid has an out-edge.
- Robust pruning is characterised up to uniqueness (`PrunedUnique`).
- The parallel scan returns the k best whatever the schedule, and the top-k operator the k
  best of what its child delivers.
- Reassigning points never raises the k-means cost exactly when every point has a centroid
  below the largest float or the first centroid nearest (`AssignExact`); training on data
  within range never raises it, and `RunRaises` is a run on far data that does.
  Lookup-table distances are the distances to the reconstruction. Encoding is optimal
  exactly when `Encodable` holds (`EncodeOptimal`).
- Segments decode to what was encoded exactly when every frame's length fits in 32 bits,
  and accepted bytes re-encode to themselves. Scanning a dump and reading its statements
  gives back the table's rows (`DumpRoundTrip`).

## Where code and comments differ

The model follows the code.

- `CommittedRing.Prune` keeps the entry at the watermark itself (`mvcc/conflict.go:125`);
  its comment says entries at the watermark go too.
- `Allocate` takes the page off the free list before it finds a frame
  (`pager/ops.go:116-137`). When no frame can be had the page is neither live nor free; the
  model records it as leaked.
- `Checkpoint` marks the frame of page 1 clean before it writes the page. When that write
  fails, `HeaderLost` says exactly when the page is still safe.
- The reseeding of an empty cluster compares points with centroids of which the later ones
  are still sums, not means (`quant/kmeans.go:112-124`). The cost is not affected.
- The search for the nearest centroid starts at the largest float and the first centroid
  (`quant/kmeans.go:79`), so a point beyond the largest float of every centroid goes to
  the first one, near or not (`AssignExact`, `RunRaises`).
- A free list with a repeated page can make the trunk chain a cycle, which `loadFreelist`
  follows without end (`pager/ops.go:223-237`, `ChainEnds`).
- k-means returns fewer rows than asked for when the sample is smaller, so a trained
  codebook is well formed exactly when the sample has at least `ksub` rows (`TrainPQ`).

## Model

| member | source | states |
|---|---|---|
| `VersionChain.CollectKeepsReads` | mvcc/delta.go:135-162 | Collecting a chain at a watermark changes no read at or above it; the found entry changes only when the chain is dropped, and then it was a tombstone |
| `VersionChain.CollectExact` | mvcc/delta.go:135-162 | An entry survives collection exactly when no entry in front of it is committed at or below the watermark and the chain does not begin with such a tombstone |
| `VersionChain.CollectDone` | mvcc/delta.go:135-162 | A collected chain has at most one entry at or below the watermark, the last, and collecting again changes nothing |
| `VersionChain.FindDrop` | mvcc/delta.go:107-132 | Dropping a transaction's uncommitted entries changes nothing for a view that sees none of them |
| `VersionChain.DropEmbeds` | mvcc/delta.go:107-132 | What survives an abort keeps its order, and an entry survives exactly when it is not one of the transaction's own uncommitted ones |
| `VersionTable.VersionTable.Stage` | mvcc/delta.go:44-49 | The entry is put at the front of its key's chain and the key is recorded for the transaction; nothing else changes |
| `VersionTable.VersionTable.Visible` | mvcc/delta.go:55-72 | The value of the newest entry the snapshot sees, none if that is a tombstone or there is no such entry |
| `VersionTable.VersionTable.VisibleEntry` | mvcc/delta.go:76-88 | The newest entry the snapshot sees, tombstones told apart from absence |
| `VersionTable.VersionTable.Commit` | mvcc/delta.go:91-104 | Every uncommitted entry of the transaction at its staged keys gets the sequence number; no other entry changes |
| `VersionTable.VersionTable.Abort` | mvcc/delta.go:107-132 | Every uncommitted entry of the transaction at its staged keys is removed, and chains left empty go |
| `VersionTable.VersionTable.GC` | mvcc/delta.go:135-162 | Every chain is cut behind its newest entry at or below the watermark, and chains that come down to a settled tombstone go |
| `VersionTable.CollectAllExact` | mvcc/delta.go:135-162 | A key is dropped exactly when its chain begins with a tombstone committed at or below the watermark; every other chain is collected |
| `VersionTable.VersionTable.Len` | mvcc/delta.go:166-170 | The number of keys with a chain |
| `Conflict.Clock.NextSeq` | mvcc/mvcc.go:47-51 | Sequence numbers rise by one |
| `Conflict.Clock.NextTxn` | mvcc/mvcc.go:54-54 | Transaction numbers rise by one |
| `Conflict.WatermarkOracle.Register` | mvcc/oracle.go:27-31 | The read point of the transaction is recorded |
| `Conflict.WatermarkOracle.Deregister` | mvcc/oracle.go:35-39 | The transaction is forgotten |
| `Conflict.WatermarkOracle.Watermark` | mvcc/oracle.go:43-56 | The least live read point, or the clock when there is none; with no read point ahead of the clock, the greatest sequence at or below the clock and every live read point |
| `Conflict.WriteSet.MarkModified` | mvcc/conflict.go:38-38 | The id joins the modified ids |
| `Conflict.WriteSet.MarkInserted` | mvcc/conflict.go:41-43 | The position joins the inserted positions |
| `Conflict.WriteSet.ConflictsWith` | mvcc/conflict.go:47-60 | True exactly when some id was modified by both |
| `Conflict.CommittedRing.Record` | mvcc/conflict.go:87-91 | The write set is appended |
| `Conflict.CommittedRing.Validate` | mvcc/conflict.go:98-117 | Expired, the first conflicting later writer, or clear, as the retained entries say; `ValidatedExact` and `VerdictExact` say what that means over the whole log |
| `Conflict.CommittedRing.Prune` | mvcc/conflict.go:121-131 | The leading entries below the watermark go and the rest stay in order |
| `Conflict.ConflictExact` | mvcc/conflict.go:98-117 | The verdict is clear exactly when no retained writer after the read point shares an id, and a conflict names such a writer |
| `Conflict.WriterLock.TryAcquire` | mvcc/writerlock.go:33-40 | Takes the lock exactly when it was free and reports which |
| `Conflict.WriterLock.Release` | mvcc/writerlock.go:44-49 | The lock is free afterwards |
| `Transactions.LiveRead` | mvcc/delta.go:55-72 | Under the table invariant a live transaction's read of a chain is its own latest write, else the log at its read point |
| `Transactions.FreshRead` | mvcc/delta.go:55-72 | So is the read of an unregistered snapshot at any sequence collection has not passed, whatever transactions were in flight then |
| `Transactions.BeginInv` | mvcc/mvcc.go:57-77 | Taking a snapshot keeps the table invariant |
| `Transactions.StageInv` | mvcc/delta.go:44-49 | A staged write keeps the table invariant |
| `Transactions.StagedRead` | mvcc/delta.go:44-72 | The writer reads what it has just staged, and every other key as before |
| `Transactions.CommitInv` | mvcc/delta.go:91-104 | Committing a transaction that no later committer opposes keeps the table invariant |
| `Transactions.AbortInv` | mvcc/delta.go:107-132 | Aborting keeps the table invariant |
| `Transactions.EndInv` | mvcc/oracle.go:35-39 | Deregistering keeps the table invariant |
| `Transactions.CollectInv` | mvcc/delta.go:135-162 | Collecting at or below the watermark keeps the table invariant |
| `SnapshotIsolation.NeverExpires` | mvcc/conflict.go:98-106 | A live transaction is never told that its snapshot expired |
| `SnapshotIsolation.ValidateExact` | mvcc/conflict.go:98-117 | A live transaction is cleared exactly when nobody committed an overlapping write after its read point |
| `SnapshotIsolation.ValidatedExact` | mvcc/conflict.go:98-117 | At any read point, registered or not: expired exactly when the next commit is in the log and no longer retained; otherwise the first logged commit after it that wrote one of the keys; clear exactly when there is none |
| `SnapshotIsolation.PruneExact` | mvcc/conflict.go:121-131 | Pruning forgets exactly the retained commits below the watermark |
| `SnapshotIsolation.StepInv` | mvcc/delta.go:44-162 | Every step keeps the table and ring invariants |
| `SnapshotIsolation.ReachableInv` | mvcc/delta.go:44-162 | They hold in every state of every run |
| `Guarantees.SnapshotReads` | mvcc/mvcc.go:67-77 | In every run a live snapshot reads its own latest staged write, else the last write in the log up to its read point |
| `Guarantees.NoOverlappingWriters` | mvcc/conflict.go:47-131 | In every run, of two committed transactions that wrote a common key one had committed by the time the other took its snapshot |
| `Guarantees.RefusedOnlyForConflict` | mvcc/conflict.go:98-117 | In every run a live transaction's commit is refused exactly when a later committer wrote one of its keys |
| `Guarantees.VerdictExact` | mvcc/conflict.go:98-117 | So in every state of every run, for every write set and every read point between the start and the clock |
| `Guarantees.ClearIsSafe` | mvcc/conflict.go:98-117 | A clear verdict means that no transaction the log holds after the read point wrote any of the keys, whether or not its entry was pruned |
| `Guarantees.RepeatableRead` | mvcc/delta.go:55-162 | What a live transaction reads at a key is unchanged by any run of other transactions' steps |
| `Guarantees.CollectLossless` | mvcc/delta.go:135-162 | GC at or below the watermark changes no live read, drops no entry of a live writer, and alters a found entry only from tombstone to absent on a dropped chain |
| `Guarantees.CollectInvisibleToFresh` | mvcc/delta.go:135-162 | Nor does it change any read of an unregistered snapshot at or above the watermark, whatever transactions were in flight |
| `Guarantees.StaleWatermark` | mvcc/oracle.go:43-56 | A watermark computed earlier in a run is still at or below the watermark later |
| `IdMap.IDMap.Assign` | mvcc/typed.go:140-143 | Stages the pair in both tables |
| `IdMap.IDMap.Delete` | mvcc/typed.go:147-150 | Stages a tombstone in both tables |
| `IdMap.IDMap.Lookup` | mvcc/typed.go:154-156 | The forward table's visible position |
| `IdMap.IDMap.Reverse` | mvcc/typed.go:160-162 | The reverse table's visible id |
| `IdMap.IDMap.Commit` | mvcc/typed.go:164-167 | Commits both tables at one sequence |
| `IdMap.IDMap.Abort` | mvcc/typed.go:169-172 | Aborts in both tables |
| `IdMap.IDMap.GC` | mvcc/typed.go:174-177 | Collects both tables at one watermark |
| `IdMap.StepInv` | mvcc/typed.go:126-177 | Every step of the single-writer protocol keeps the pairing of the two logs at every sequence and for the open writer |
| `IdMap.Bijection` | mvcc/typed.go:154-162 | In every run, for every live snapshot, an id looks up to a position exactly when the position reverses to the id |
| `IdMap.FreshBijection` | mvcc/typed.go:154-162 | So too for an unregistered snapshot at any sequence collection has not passed, whatever transactions were in flight |
| `IdMap.WriterReads` | mvcc/typed.go:140-162 | After Assign the writer finds the pair both ways, after Delete neither way, and everything else as before |
| `PageFormat.HeaderRoundTrip` | format/page.go:103-135 | Decoding inverts encoding of the page header, whatever follows it |
| `PageFormat.HeaderLayout` | format/page.go:103-117 | Where each field of an encoded page header lies |
| `PageFormat.EncodeHeader` | format/page.go:103-117 | The first 32 bytes become the header and the rest of the page stays |
| `PageFormat.SealVerifies` | format/page.go:141-166 | A sealed page verifies, and with checksums on only the sealed tail does |
| `PageFormat.WritePageChecksum` | format/page.go:141-150 | The last four bytes become the checksum of the rest |
| `PageFormat.EncodeTrunk` | format/alloc.go:60-75 | The page becomes header, leaves and zeros |
| `PageFormat.DecodeTrunk` | format/alloc.go:78-88 | The trunk a page holds |
| `PageFormat.TrunkRoundTrip` | format/alloc.go:60-88 | A trunk reads back whatever bytes follow its leaves |
| `PageFormat.SealedTrunk` | format/alloc.go:47-88 | Sealing a trunk within its capacity does not disturb it |
| `DbHeader.DbHeaderRoundTrip` | format/header.go:113-221 | Decoding the encoded database header gives the header back, whatever follows it on the page, exactly when its text encoding is 0; otherwise it is refused as corrupt |
| `DbHeader.DbHeaderLayout` | format/header.go:134-168 | Where each field of an encoded database header lies |
| `DbHeader.FieldsDecoded` | format/header.go:173-221 | A header that decodes has its fields at the same places |
| `DbHeader.DecodedFits` | format/header.go:121-221 | A header that decodes has a legal page size and fields that fit, and with checksums on it carries the checksum of the bytes in front of it |
| `DbHeader.IntactVerifies` | format/page.go:154-166 | A page passes verification exactly when the header asks for no checksums or the last four bytes are the CRC of the rest |
| `Freelist.SelectTrunks` | pager/ops.go:241-258 | Stops with the least number of trunks that is enough for all leaves, taken from the end of the list |
| `Freelist.LegalGeometry` | format/alloc.go:47-58 | A trunk holds as many leaves as fit between its header and the reserved bytes and checksum, and no more would |
| `Freelist.PersistFreelist` | pager/ops.go:241-284 | Writes exactly the selected trunks with the leaves spread over them, stopping only at a trunk whose write fails |
| `Freelist.LoadFreelist` | pager/ops.go:223-237 | Returns the pages of the chain, or fails exactly when a trunk is past the end of the file |
| `Freelist.FreelistRoundTrip` | pager/ops.go:223-284 | With distinct trunks, following the chain from the last trunk written visits those trunks and yields the same pages, each as often as it was free |
| `Freelist.ChainEnds` | pager/ops.go:223-284 | Following the chain comes to an end exactly when no trunk page is repeated; otherwise it is a cycle |
| `Freelist.WriteTrunksElsewhere` | pager/ops.go:258-284 | No page but the trunks is written |
| `Freelist.TrunksVerify` | pager/ops.go:258-284 | Every trunk written passes checksum verification, and pages that did still do |
| `BufferPool.WriteBackOk` | pager/ops.go:101-111 | Writing a frame back keeps the pool in agreement with the page store |
| `BufferPool.StampOk` | pager/ops.go:101-108 | Stamping a frame's checksum without writing it keeps that agreement |
| `BufferPool.HeaderLast` | pager/ops.go:159-192 | Writing page 1 last leaves a valid pool without dirty frames |
| `BufferPool.HeaderLost` | pager/ops.go:159-192 | When that write fails the pool stays valid exactly when page 1 was on file already, is still owed a dirty mark, or has no frame |
| `BufferPool.HeaderLostInput` | pager/ops.go:180-188 | A valid pool that such a failure leaves invalid |
| `BufferPool.DroppedMark` | pager/ops.go:42-50 | Releasing the last pin of a written frame without the dirty flag keeps the pool valid exactly when the file has those bytes anyway |
| `BufferPool.DeadPage` | pager/ops.go:13-66 | Getting a page that is not live breaks the agreement of index and frames, and allocating it then leaves two frames with its number |
| `Pager.Pager.Create` | pager/pager.go:88-118 | A new database has one live page, on file with the encoded header in front, whose counts and counters are as given, and nothing free |
| `Pager.Open` | pager/pager.go:122-153 | The page size and trunk come from the header that page 1 decodes to, the page count from the file, the free list from the chain; it fails exactly without a header, with one that does not decode, or with a trunk past the end; the pager is valid exactly when the pages are partitioned |
| `Pager.Pager.Get` | pager/ops.go:13-38 | A resident page keeps its frame; otherwise the frame, chosen by the hand unless one was empty, holds the page as the file has it. Either way it shows the last bytes written, with one more pin and its reference bit set; exhaustion is reported exactly when every frame is stuck; pinned frames stay |
| `Pager.Pager.Write` | pager/pager.go:37-51 | Bytes written through a pin are the page's new last bytes |
| `Pager.Pager.Unpin` | pager/ops.go:42-50 | Releases one pin and marks the frame dirty if told to; the pager stays valid exactly unless a written frame loses its last pin unmarked while the file has other bytes |
| `Pager.Pager.WriteBack` | pager/ops.go:101-111 | The frame's checksum is stamped; then the file gets the page, where it passes checksum verification unless it is page 1, and the frame is clean, unless the write fails |
| `Pager.Pager.Visit` | pager/ops.go:76-94 | One position of the hand: only an unpinned frame without its reference bit is taken, and only if it is clean or can be written; a frame with the bit loses it |
| `Pager.Pager.Sweep` | pager/ops.go:74-96 | Second chance: the frame taken is the first from the hand that is not stuck and was not used recently, or, when all that are not stuck were, the first of those; the hand stops behind it. None is taken exactly when all are stuck |
| `Pager.Pager.Evict` | pager/ops.go:68-97 | The first empty frame if there is one, else what the hand finds; none exactly when all are stuck. No pinned frame is touched and no other frame changes but for its reference bit and tail checksum |
| `Pager.SweepDone` | pager/ops.go:77-96 | A sweep that takes nothing has seen every frame stuck |
| `Pager.VictimFound` | pager/ops.go:74-96 | Why: what the hand has been over was used recently or is stuck, and in its second sweep is stuck |
| `Pager.Pager.Allocate` | pager/ops.go:116-137 | Hands out a page that is not live, zeroed and pinned; if no frame can be had the page is lost |
| `Pager.Pager.Free` | pager/ops.go:142-154 | The page leaves the live pages and joins the free list |
| `Pager.Pager.Checkpoint` | pager/ops.go:159-192 | It fails only where a write does. On success no frame is dirty, the file holds every live page's bytes, the encoded header on page 1 and the free chain under its trunk; every page that was dirty and every trunk lies on file with its checksum; the header's counts are the pager's and its counter advances modulo 2^32; and the file ends where it did or at the farthest page written. When the header's write fails, the state before decides exactly whether page 1 is lost |
| `Pager.CountedAdvances` | pager/ops.go:159-192 | The header a checkpoint writes has the page and free counts, the change counter advanced modulo 2^32 and repeated in the version field, and nothing else changed but the trunk |
| `Pager.PartitionSafe` | pager/ops.go:116-152 | While free, live and lost pages partition the numbers, repeated allocation never hands out a live page or one page twice |
| `Pager.FreedTwice` | pager/ops.go:142-154 | Freeing a free page makes allocation hand it out twice |
| `Pager.ReopenSafe` | pager/pager.go:142-152 | After a reopen allocation is safe exactly when the file holds every free page |
| `Pager.Reopen` | pager/pager.go:122-153 | Reopening reads the header back from page 1 and brings back every live page and the same free pages; the result is valid, and allocates safely, exactly when the file holds every free page |
| `PagerRun.ReopenTwice` | pager/pager.go:142-152 | A run of Create, three Allocates with their Unpins, two Frees, Checkpoint and Open after which the pager hands out page 4 twice |
| `Ranking.TopKUnique` | index/heap.go:11-16 | Distance then position leave only one list of the k best |
| `Heap.Rise` | index/heap.go:18-28 | Pushing keeps the heap order and adds exactly the candidate |
| `Heap.TakeRoot` | index/heap.go:32-58 | Popping removes the best under the order and keeps the rest a heap |
| `Heap.CandidateHeap.Push` | index/heap.go:76-86 | The heap holds one candidate more |
| `Heap.CandidateHeap.Pop` | index/heap.go:90-116 | Returns the first candidate under the order and keeps the others |
| `TopK.TopKHeap.Push` | query/batch.go:112-125 | The heap keeps the k best of all candidates offered so far |
| `TopK.TopKHeap.Drain` | query/batch.go:129-136 | The heap's candidates nearest first |
| `TopK.MergeBest` | query/ops.go:129-135 | The k best of the shares' k best are the k best of everything |
| `TopK.RunJobs` | query/context.go:90-122 | However the workers interleave, each heap ends with the best of its own share |
| `TopK.MakeShares` | query/ops.go:106-123 | The chunks are disjoint and cover every item |
| `TopK.FlatScan` | query/ops.go:82-138 | The result is the first max(k,1) of all scanned candidates by distance then position, for every worker count and schedule |
| `TopKOp.Next` | query/ops.go:167-193 | The operator emits exactly the k best, k at least 1, of the selected rows its child delivers before the first empty batch, best first |
| `TopKOp.Collect` | query/ops.go:181-191 | The rows that count are those the selection names, or all |
| `TopKOp.WriteCandidates` | query/ops.go:371-387 | A batch whose live rows are exactly the candidates |
| `Flat.Flat.Insert` | index/flat.go:61-75 | Stores the vector and lifts the tombstone, or reports the error |
| `Flat.Flat.Delete` | index/flat.go:77-87 | Tombstones a stored position |
| `Flat.Flat.Search` | index/flat.go:89-115 | The k best of all live admitted points |
| `HnswSearch.GreedyDescend` | index/hnsw.go:386-406 | Ends, where the function that always moves to the closest neighbour does: at a node no farther than the entry with no nearer neighbour at the layer |
| `HnswSearch.SearchLayer` | index/hnsw.go:411-454 | Ends with at most ef ranked live admitted nodes it visited. If a visited one is left out, the results are full and none is farther. Every returned node, every node nearer than the farthest result, and with room to spare every visited node, had all its neighbours visited |
| `HnswSearch.BeamAll` | index/hnsw.go:411-454 | So a search with room to spare has visited all that is within reach and returned every answer in it |
| `HnswSearch.BeamWide` | index/hnsw.go:411-454 | So if at most ef answers are within reach, all are returned |
| `HnswSearch.BeamFinds` | index/hnsw.go:411-454 | And a search finds something whenever an answer is within reach |
| `HnswSearch.BeamCut` | index/hnsw.go:516-520 | The first k results of a search are those of a search with room for k |
| `HnswLinks.SelectNeighbors` | index/hnsw.go:342-382 | The loops compute the selection function |
| `HnswLinks.SelectChosen` | index/hnsw.go:342-382 | A selection has as many members as there is room for, each a candidate, none twice |
| `HnswLinks.SelectDiverse` | index/hnsw.go:342-382 | The leading choices are mutually diverse, every other candidate is nearer to one of them than to the base, and only such candidates fill the rest |
| `HnswLinks.SelectGreedy` | index/hnsw.go:342-382 | The choice is greedy: the leading choices and the filling are each in order of distance; a candidate not leading is overtaken by an earlier leading one, or comes after all of a full list; the filling is the first of the overtaken |
| `HnswLinks.SelectFirst` | index/hnsw.go:342-382 | The first candidate is always chosen first |
| `HnswLinks.PruneChosen` | index/hnsw.go:329-337 | Pruning keeps distinct members of the list, as many as allowed |
| `HnswLinks.PruneNearest` | index/hnsw.go:329-337 | Pruning always keeps the member nearest the node, and without the heuristic drops nothing nearer than what it keeps |
| `HnswGraph.RelinkGood` | index/hnsw.go:309-325 | A list offered a link stays within bounds, distinct and free of self-loops, takes the newcomer while there is room and stays full when full |
| `HnswGraph.DegreeBounds` | index/hnsw.go:309-325 | In a well-formed graph a base-layer list holds at most M0 neighbours and one above at most M, all distinct, tall enough and not the node itself |
| `HnswGraph.TallClosed` | index/hnsw.go:411-454 | Searches of a layer stay among the nodes that reach it |
| `HnswGraph.ReachIs` | index/hnsw.go:411-454 | The meet of all closed sets around an entry is the least one |
| `HnswGraph.ProbedSome` | index/hnsw.go:286-287 | A layer's search, and the selection from it, are non-empty whenever a live node is within reach of the entry |
| `HnswGraph.ProbedNext` | index/hnsw.go:293-297 | The next layer is searched from the nearest node found, or from the same entry if none was |
| `Hnsw.NewHNSW` | index/hnsw.go:79-125 | Refuses a bad dimension or beam exactly; otherwise an empty valid index with the degrees and beam given, or 16, twice the degree and 200 |
| `Hnsw.HNSW.PruneNeighbors` | index/hnsw.go:329-337 | The loop computes the pruned list |
| `Hnsw.HNSW.LinkBack` | index/hnsw.go:309-325 | Exactly one list changes, to what offering the link makes of it |
| `Hnsw.HNSW.Descend` | index/hnsw.go:273-279 | The descent ends where the greedy walks of the layers above do, no farther than the entrypoint and locally nearest |
| `Hnsw.HNSW.ConnectLayer` | index/hnsw.go:282-298 | At one layer the node takes the neighbours selected from what a beam search from the given entry found, exactly those are offered the link back, and the next entry is the nearest found |
| `Hnsw.HNSW.InsertLocked` | index/hnsw.go:256-304 | The whole effect of an insertion on every list: the layers are searched from the top down, from where the descent ended and then from the nearest node found above, and each list is selected from its search. The entrypoint rises exactly when the node is the first or the highest |
| `Hnsw.HNSW.Insert` | index/hnsw.go:239-252 | Keeps the graph well formed and inserts, or reports the error and changes nothing |
| `Hnsw.HNSW.Build` | index/hnsw.go:176-207 | Takes over the parameters given, else keeps those in force; fails exactly when closed or some vector has the wrong dimension. On success the graph is what inserting the positions one after the other leaves, each at its own level, from the empty graph, with the vectors stored so far |
| `Hnsw.HNSW.Fill` | index/hnsw.go:188-206 | The insertions: every stage follows from the one before by one insertion, and the first vector of the wrong dimension stops it |
| `Hnsw.HNSW.Delete` | index/hnsw.go:538-553 | Tombstones the node and keeps the graph well formed; the entrypoint changes only if it was the one, and then to its heir |
| `Hnsw.HNSW.RepairEntrypoint` | index/hnsw.go:558-588 | The heir is the first live neighbour from the top layer down, else the highest live node, else none when nothing is live |
| `Hnsw.HNSW.Search` | index/hnsw.go:474-521 | Errors exactly when closed or the dimension is wrong. Otherwise the first k of a beam search from where the greedy descent ends, as wide as asked for (50 if not), but at least k: an answer seen and left out means k nearer or equal results, and every returned or nearer node had its neighbours seen. When at most efSearch answers (50 if not given) are within reach, exactly the k best of them |
| `Hnsw.HNSW.Close` | index/hnsw.go:591-599 | Empties and closes the index |
| `Hnsw.MatchesFlat` | index/hnsw.go:474-521 | Then the result is the brute-force list over the reachable points |
| `Hnsw.LinksBothWays` | index/hnsw.go:288-292 | Every neighbour an inserted node took was live and lists it back, unless its list was full, and then the list stays full |
| `Hnsw.NeverAlone` | index/hnsw.go:266-298 | If a live node is within reach of where the descent ended, the new node has neighbours at every layer it joins |
| `VamanaPrune.Dedup` | index/vamana.go:190-203 | The first occurrence of each position other than p |
| `VamanaPrune.RobustPrune` | index/vamana.go:190-224 | At most R ranked candidates, none covered by an earlier kept one; each rejected one is covered by a nearer kept one or comes after all R |
| `VamanaPrune.PrunedUnique` | index/vamana.go:190-224 | Only one list has these properties |
| `VamanaPrune.OutcomeUnique` | index/vamana.go:190-224 | So what pruning returns is determined by the candidates alone |
| `VamanaPrune.PrunedList` | index/vamana.go:190-224 | A pruned list is distinct, within R, and leaves out p |
| `Vamana.GreedyForBuild` | index/vamana.go:228-262 | Ends; returns each visited node once, the start among them, all within reach of it; every visited node no farther than the L-th result had its edges followed |
| `Vamana.NthIs` | index/vamana.go:504-513 | The bound of the search is the distance of the last of the L best |
| `Vamana.SweptAll` | index/vamana.go:228-262 | So with at most L results they are all that can be reached |
| `Vamana.Vamana.LinkBackward` | index/vamana.go:165-185 | One list changes: unchanged if linked, extended while there is room, else pruned |
| `Vamana.Vamana.LinkIn` | index/vamana.go:151-161 | The node's edges are pruned from what a search from the medoid returns, exactly those are offered the edge back, and the graph keeps its bounds |
| `Vamana.LinkedSome` | index/vamana.go:151-161 | A node linked while the medoid is another node has an out-edge |
| `Vamana.LinkedKeeps` | index/vamana.go:165-185 | Linking a node in takes no other node's last out-edge |
| `Vamana.Vamana.constructor` | index/vamana.go:67-103 | An empty valid index; degree, pool and slack default to 64, 100 and 1.2 |
| `Vamana.Vamana.BuildPass` | index/vamana.go:151-161 | The nodes are linked in one after the other in the given order, all at the given slack; every node but the medoid comes out with an out-edge, out-degree stays at most R, without self-edges or repeated edges |
| `Vamana.Vamana.Build` | index/vamana.go:108-148 | From isolated points, two passes over one permutation of the positions, the first at slack 1 and the second at alpha, give the graph; the medoid is nearest the centre and every other node has an out-edge |
| `Vamana.Vamana.Insert` | index/vamana.go:360-390 | Stores the point and links it in, keeping the graph's bounds |
| `Vamana.Vamana.Delete` | index/vamana.go:394-405 | Tombstones the point and replaces the medoid if it was the one |
| `Vamana.Vamana.ComputeMedoid` | index/vamana.go:415-453 | The live point nearest the centre, or none exactly when no live point is nearer than the largest float |
| `Vamana.Shuffle` | index/vamana.go:516-525 | A permutation |
| `Ivf.IVF.CoarseQuantize` | index/ivf.go:219-228 | The first nearest centroid, or the first cell when no distance is below the largest float |
| `Ivf.PlaceOk` | index/ivf.go:172-197 | Placing a fresh point keeps every stored position in exactly one list, its nearest cell's |
| `Ivf.PlaceExact` | index/ivf.go:241-254 | And placing one keeps that exactly when the position is fresh; a stored one is posted twice |
| `Ivf.OnePosting` | index/ivf.go:172-197 | No position is posted twice |
| `Ivf.CellCount` | index/ivf.go:131-147 | The number asked for, reduced to what leaves 39 points a cell on average, and at least one |
| `Ivf.IVF.Build` | index/ivf.go:117-199 | The cells are the ones trained for that number; the posting lists partition exactly the given positions, each in its nearest cell; without positions the index is untrained |
| `Ivf.IVF.Insert` | index/ivf.go:231-256 | The point joins its nearest cell, or the error is reported and nothing changes; the index stays valid exactly when the call is refused or the position was not stored |
| `Ivf.IVF.Delete` | index/ivf.go:260-268 | Tombstones a stored position |
| `Ivf.IVF.Search` | index/ivf.go:273-363 | As many results as wanted points lie in the probed cells, up to k. Without a codec the k best of them by distance; through one the k best by exact distance of the max(3k, 128) best by the codec's, or max(k times the given factor, 128), and so the k best of all when they are no more than that |
| `Ivf.AnsweredFull` | index/ivf.go:323-363 | Why: cutting to k loses nothing else, and a shortlist with room for every wanted point holds them all |
| `Ivf.MatchesFlat` | index/ivf.go:273-363 | Probing every cell returns the brute-force list, exactly, or through a codec whose shortlist has room for every wanted point |
| `Lloyd.MoveLowers` | quant/kmeans.go:97-124 | Moving a centroid to the mean of its points, or an unused one anywhere, never raises the cost |
| `Lloyd.AssignLowers` | quant/kmeans.go:75-92 | Reassigning every point never raises the cost, if every point has a centroid below the largest float or the first centroid nearest |
| `Lloyd.AssignExact` | quant/kmeans.go:75-92 | It never raises the cost, whatever the assignment was, exactly when that holds |
| `Lloyd.ServedBadly` | quant/kmeans.go:79-87 | A point sent to a centroid at four times the squared distance of another |
| `Lloyd.RoundLowers` | quant/kmeans.go:24-30 | Under the same condition one round never raises the cost |
| `KMeans.FindNearest` | quant/kmeans.go:79-87 | The first of the nearest centroids when one is below the largest float, else the first of all |
| `KMeans.AssignStep` | quant/kmeans.go:75-92 | Every point is assigned that centroid and a change is reported exactly when there is one |
| `KMeans.FindWorst` | quant/kmeans.go:128-141 | The point farthest from the centroid it is assigned to, as the centroids stand |
| `KMeans.UpdateStep` | quant/kmeans.go:97-124 | Every centroid becomes the mean of its points; one without points becomes the point farthest from its own centroid as they stand at that moment, earlier centroids final and later ones still sums |
| `KMeans.Place` | quant/kmeans.go:113-123 | One centroid of that step |
| `KMeans.Round` | quant/kmeans.go:24-30 | One call of each step is one round |
| `KMeans.Train` | index/kmeans.go:17-72 | Each stage follows from the one before by a round, from the initial centroids to the result; it stops early only after a round that moved no point; and the cost never rises from stage to stage, for all data whose distances stay below the largest float |
| `KMeans.RunLowers` | index/kmeans.go:17-72 | The reason: on such data every round of every run serves every point well |
| `KMeans.RunRaises` | index/kmeans.go:17-72 | A run on five far points, from two of them as centroids, whose second round raises the cost more than twentyfold |
| `Pq.Decode` | quant/pq.go:79-84 | The chosen centroids end to end |
| `Pq.TableSumIs` | quant/pq.go:113-140 | The sum of table entries is the squared distance, or negated dot product, from the query to the reconstruction |
| `Pq.BuildTable` | quant/pq.go:113-130 | Every entry is the distance from a part of the query to a centroid |
| `Pq.TableDistance` | quant/pq.go:134-140 | The lookup sum is the distance to the reconstruction |
| `Pq.Encode` | quant/pq.go:62-75 | Each byte names the first of the nearest centroids of its part, or the first of all when none is below the largest float |
| `Pq.EncodeOptimal` | quant/pq.go:62-84 | The code decodes nearest among all codes exactly when every part has a centroid below the largest float or its first centroid is nearest |
| `Pq.EncodedBadly` | quant/pq.go:62-84 | A codebook and a vector for which it does not |
| `Pq.TrainBook` | quant/pq.go:45-56 | The book is the last stage of a k-means run on the rows, from the rows picked, ending when the iterations do or after a round that moved nothing |
| `Pq.TrainPQ` | quant/pq.go:33-58 | Errors exactly for an empty sample or an indivisible dimension; the book of each subspace is what such a run on its columns ended with; well formed exactly when the sample has at least ksub rows |
| `Segment.FrameTrip` | bulk/segment.go:97-116 | A written frame reads back whatever follows it |
| `Segment.FrameBack` | bulk/segment.go:153-186 | An accepted frame is written back as the same bytes |
| `Segment.EncodeSegment` | bulk/segment.go:71-95 | Computes the segment's bytes |
| `Segment.DecodeFrames` | bulk/segment.go:153-189 | Accepts exactly bodies that are nothing but sound frames in the announced number |
| `Segment.DecodeSegment` | bulk/segment.go:118-151 | Accepts exactly what the specification accepts and returns what it holds |
| `Segment.SegmentRoundTrip` | bulk/segment.go:71-189 | Decoding inverts encoding exactly when every frame's length fits in 32 bits |
| `Segment.AcceptedReencodes` | bulk/segment.go:71-189 | Any accepted byte string re-encodes to itself |
| `Scanner.StmtScanner.Next` | bulk/scan.go:35-107 | The flag-driven loop computes the scanning function and leaves the rest of the input |
| `Scanner.TokenPasses` | bulk/scan.go:63-106 | Bare text, string literals and quoted identifiers pass through unchanged |
| `Scanner.FillPasses` | bulk/scan.go:56-62 | Of white space and comments only white space is kept |
| `Scanner.ScanPrinted` | bulk/scan.go:35-107 | Scanning a printed script gives back exactly its statements, up to white space and comments before each |
| `Dump.InsertPrints` | bulk/dump.go:320-340 | The rendered INSERT statement is what its tokens print |
| `Dump.InsertPrintable` | bulk/dump.go:366-458 | Every rendered INSERT is fit for the scanner, whatever names and values it holds |
| `Dump.DumpData` | bulk/dump.go:326-362 | The text of one statement a batch of rows, then an empty line; `DumpRoundTrip` reads the rows back from it |
| `Dump.DumpScans` | bulk/dump.go:326-362 | Scanning the dump of a table gives exactly its INSERT statements |
| `DumpReader.ValueYields` | bulk/dump.go:412-434 | A rendered value is read as one lexeme that stands for that value, whatever follows it |
| `DumpReader.NameYields` | bulk/dump.go:438-458 | So is a rendered name |
| `DumpReader.InsertBack` | bulk/dump.go:320-340 | Reading a rendered INSERT gives the table, the columns and the rows it was made from |
| `DumpReader.DumpRoundTrip` | bulk/dump.go:314-362 | Dumping a table, scanning the text and reading each statement gives the table's name and columns every time and its rows in order, none lost, repeated or changed; every statement but the last has a full batch |

## Left out

- Floating point: distances and coordinates are reals; NaN and rounding are not modelled. The sentinel `MaxFloat32` is kept.
- 64-bit wrap-around of the commit clock and transaction counter.
- `WriterLock.Acquire`, which blocks; `TryAcquire` and `Release` carry the discipline.
- `VectorDelta` and `MetaDelta`: thin facades over the version table.
- SnapshotIsolation.StepInv: taking a snapshot and registering it, and validating, stamping and recording a commit, are each one step; the lock that makes them so belongs to the caller. A snapshot's in-flight list names active transactions only.
- IdMap.StepInv: writers assign only ids and positions they see unmapped and delete only pairs they see mapped.
- Pager.Pager.Get: asks that the page be live; `DeadPage` shows what becomes of the pool otherwise.
- Pager.Pager.Free: asks for a live, unpinned page other than page 1; `FreedTwice` shows what a second free does.
- Pager.Pager.Allocate: asks that the page count stay below 2^32.
- Pager.Pager.Write: stands for writes through the frame's byte slice; frames are named by slot.
- Pager.Open: takes a file of whole pages of the header's page size, fewer than 2^32 of them, whose chain ends or runs past the end; the file system is not part of the model. A short read is a page of zeros, as in the source.
- Pager.Pager.Create: asks for a legal page size; the default and the refusal of others are left out.
- DbHeader.DbHeaderRoundTrip: encoding is a function from the header to its bytes, not a sequence of writes into a buffer, and the header's own checksum is not kept as a field. `CheckVersion` and `CheckFeatures` are left out.
- Which writes fail is an input (`failing`), as is the CRC.
- Log sequence numbers, `SetTxnHighWater`, `SetCatalogRoot` and `Close` of the pager.
- Hnsw.HNSW.Insert: takes the level as input and asks for a position that is not stored; re-inserting one relinks the node from itself in the source. Position 0xFFFFFFFF is excluded because it stands for "none".
- Hnsw.HNSW.Build: asks for distinct positions, none of them 0xFFFFFFFF.
- Hnsw.HNSW.Search: takes k as a natural number, as does Flat.Flat.Search; a negative k makes the source slice out of range.
- Codecs and reranking inside HNSW; statistics, persistence and recovery of every index.
- Vamana.Vamana.Build: the centre that stands for the mean of the live vectors is an input, and so are the shuffle's draws.
- Vamana.Vamana.Insert: excludes position 0xFFFFFFFF.
- TopK.FlatScan: asks for distinct positions.
- TopKOp.Next: the child's batches are an input and deliver no row twice; a failing child and the second call, which yields nothing, are left out.
- The beam search of Vamana, SPANN and the hybrid indexes.
- Ivf.IVF.Build: asks for distinct positions; the trained centroids and the residual codec are inputs; a failing codec training is not modelled.
- KMeans.Train: the initial centroids are any points of the sample; the random choice among them is an input. Loops over the coordinates of a row are folded into vector operations.
- Pq.TrainPQ: asks for at least one subspace and between 1 and 256 centroids; the finiteness check is left out, and so is the training of rotated codebooks.
- Cancellation through contexts, locks around single calls, and compression of segments.
- White space outside ASCII in the scanner.
- Dump.DumpData: formatted numbers arrive as one word without semicolon or comment mark, other than NULL, TRUE and FALSE; times, byte strings and vectors arrive as text without quotes. Schema statements and the dump header are not modelled.
- DumpReader.DumpRoundTrip: the reader of INSERT statements is a specification of their meaning, not a model of the SQL parser; a formatted number stands for itself, and what is quoted verbatim is read as text.
- Plans, post-filters, gathering and reranking of the query executor.
- The server, the command line, encryption, authentication and auditing.
