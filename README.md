# DatabaseBackendEngine storage core in Dafny

This project models four pieces of the CMU 15-445 style storage engine and proves properties of them:

- **Extendible hash table.** This is the page table of the buffer pool. It lives in `extendible_hash.dfy`, module `ExtendibleHashing`. Buckets are objects held in an arena. The directory is a sequence of arena indices, so several slots can share one bucket, as the `shared_ptr` directory does. `TableView` is the value of the whole table. The functions `FindSpec`, `RemoveSpec`, `SplitSpec` and `InsertSpec` state what each operation does to it. Every method of the class is proved to move its `View()` exactly as the matching function says, and also to keep its invariant.
- **B+ tree insert path.** This is `b_plus_tree.dfy`, module `BPlusTreeIndex`. It runs over an abstract buffer pool (`buffer_pool.dfy`) that holds page contents, pin counts, dirty pages and a fixed number of frames. The page layouts the tree casts raw pages to are values of one datatype (`tree_page.dfy`). The tree's page-class calls are functions over that datatype, with the contracts the tree relies on.
- **Index iterator step.** This is `index_iterator.dfy`: the iterator's position in a leaf and its move to the next leaf through the buffer pool.
- **Log-record decoder.** This is `log_recovery.dfy`: the `DeserializeLogRecord` function, over little-endian two's complement 32-bit fields.

`options.dfy` holds `Option` and `Outcome`. `Outcome` records how a step of the tree ended. `OutOfMemory` is the `bad_alloc` thrown when `NewPage` fails. `NullDereference` is a use of a null page: either the null `FetchPage` answers when no frame is free, or the null sibling `Split` returns.

## Where the model follows the code

Below, the textbook scheme is extendible hashing as the CMU 15-445 course presents it. Where the code departs from it, or from what its own declarations say, the model follows the code.

- The hash table starts at global depth 1 with two buckets, ids 0 and 1. The textbook scheme starts with one bucket at depth 0.
- `GetNumBuckets` counts directory slots whose bucket is not empty. A bucket shared by several slots is counted once per slot, not once per bucket.
- A split that does not double the directory rewires only the one slot `mId + len/2`. The textbook invariant that a bucket of local depth d is referenced by 2^(global−d) slots therefore does not hold, and the model does not claim it. Keys can then be lost, as the next section shows.
- That slot can lie beyond the directory. For example, the bucket with id 5 at local depth 2 in a table of global depth 3 gives 5 + 4 = 9 ≥ 8. The source then writes past the end of the vector, which is undefined behaviour. The model stops the split there, after the doubling and the local-depth increment, and `Insert` answers `SlotOutOfRange`.
- The capacity test of `Insert` uses the table-wide `mBucketDataSize`, not the bucket's own `isFull`.
- The `Bucket` constructor is called with two arguments but declared with three. The model passes the table's `mBucketDataSize` as the capacity.
- The doubling loop runs up to the vector's `capacity()`. The model runs it to the directory length.
- The split loop erases entries from the map it is iterating over. The model iterates over the key set the map had when the loop began.
- The B+ tree is a partly written skeleton, and the model follows it as written:
  - `IsEmpty` always answers true. So `Insert` always starts a new tree, which only inserts the header record, and `FindLeafPage` answers null.
  - `Split` returns null. So every path that uses the sibling ends in `NullDereference`.
  - The descent loop of `FindLeafPage` and the rest of `InsertIntoLeaf` are verified as the stand-alone methods `Descend` and `InsertIntoFoundLeaf`. Each starts from a root page that exists and a leaf that was found.
- The iterator header uses `index`, `leafPage` and `bufferPoolManager`, but the declared fields are `index_`, `leaf_` and `buff_pool_manager_`. The model reads them as the declared fields.

## Defects in the source that the model keeps as written

- `InsertIntoLeaf` returns on a duplicate key without unpinning the leaf (b_plus_tree.cpp:90-91). `BPlusTree.InsertIntoFoundLeaf` ensures that the pin counts are then unchanged, so the leaf's pin stays.
- The parent fetched in `InsertIntoParent` is never unpinned (b_plus_tree.cpp:177-190). `BPlusTree.IntoParentPage` ensures `pins == Pinned(old(pins), parent)`.
- The recursive `InsertIntoParent` call passes the child's `key`, not the split parent's separator (b_plus_tree.cpp:188). `BPlusTree.IntoParentPage` passes the same key.
- `FindLeafPage` ignores `leftMost` (b_plus_tree.cpp:312). `BPlusTree.Descend` takes the flag and does not use it.
- A split that does not double the directory can make keys unfindable (extendible_hash.cpp:147-165). Only slot `mId + len/2` is pointed at the new bucket. Every key whose new index is not `mId` moves there, but other slots that still name the old bucket keep pointing at it. An example, with every key its own hash and two entries per bucket:
  - Inserting 0, 2, 4, 8, 3 and 7 builds a table of global depth 3. Bucket 1 has local depth 1 and holds 3 and 7, and slots 1, 3, 5 and 7 share it. `InsertsWithoutSplit02`, `InsertWithSplit4`, `InsertWithSplit8` and `InsertsWithoutSplit37` prove this step by step.
  - Inserting 5 then splits bucket 1 without doubling. Slot 5 gets the new bucket, and 3 and 7 both move into it. Slots 3 and 7 still name the emptied bucket 1, so Find no longer sees 3 or 7 (`SplitWithoutDoublingLosesKeys`).
  - The new bucket is then full. The retry splits it, and that split's new slot 9 lies past the directory, so 5 is not stored (`InsertOf5`). After that Insert, none of 3, 7 or 5 is found (`InsertAfterLostKeys`).
  - The textbook scheme would re-point every slot whose low bits match the new bucket's. The model does not define that corrected split; see "Left out".

## Model

| member | source | states |
|---|---|---|
| ExtendibleHashing.BucketIndex | src/hash/extendible_hash.cpp:36-40 | the slot of a hash is below 2^depth, so it is a valid index of a directory of that length |
| ExtendibleHashing.BucketIndexIsMod | src/hash/extendible_hash.cpp:37-39 | the slot is the hash modulo 2^depth, which is the value the mask `hash & ((1 << mDepth) - 1)` computes |
| ExtendibleHashing.LowBitsExtend | src/hash/extendible_hash.cpp:134-136 | using one more hash bit keeps a hash's slot or moves it up by exactly 2^depth |
| ExtendibleHashing.DoublingKeepsLookups | src/hash/extendible_hash.cpp:134-141 | the directory appended to itself has length 2^(depth+1), and every hash reaches the same bucket under the new depth as under the old |
| ExtendibleHashing.SlotBucket | src/hash/extendible_hash.cpp:96-100 | the bucket of a key's slot is a bucket of the arena |
| ExtendibleHashing.UsedFlags | src/hash/extendible_hash.cpp:81-85 | one flag per directory slot, set exactly when that slot's bucket holds an entry |
| ExtendibleHashing.CountBelowIsSize | src/hash/extendible_hash.cpp:80-87 | counting the set flags one position at a time gives the size of the set of flagged positions |
| ExtendibleHashing.InitialTable | src/hash/extendible_hash.cpp:20-25 | the table the constructor builds: depth 1, directory [0, 1], two empty buckets of local depth 1 with ids 0 and 1, counter 2; InitialTableShape proves its invariant |
| ExtendibleHashing.FindSpec | src/hash/extendible_hash.cpp:94-106 | the reference for Find: the value stored for the key in the bucket its slot names, or None; ExtendibleHash.Find is proved against it |
| ExtendibleHashing.RemoveSpec | src/hash/extendible_hash.cpp:113-125 | the reference for Remove: erases the key from its slot's bucket when it is there and answers whether it was; RemoveSpecProperties proves what it keeps |
| ExtendibleHashing.SplitSpec | src/hash/extendible_hash.cpp:127-167 | the reference for Split: the optional doubling, the local-depth increment, the new bucket at slot mId + len/2 and the move of the entries, or a stop when that slot is past the directory; SplitDirectory and SplitPartition prove its shape |
| ExtendibleHashing.InsertSpec | src/hash/extendible_hash.cpp:174-217 | the reference for Insert: store when the bucket has room, otherwise split and retry, or stop at an out-of-range split; InsertThenFind and InsertPreservesValid prove its properties |
| ExtendibleHashing.RetrySpec | src/hash/extendible_hash.cpp:196-214 | the reference for the retry after the first split: store when the key's bucket now has room, otherwise split once more without storing |
| ExtendibleHashing.LocalDepthSpec | src/hash/extendible_hash.cpp:56-71 | the reference for GetLocalDepth: -1 for an out-of-range slot or an empty bucket, otherwise that bucket's local depth; LocalDepthBounds proves its range |
| ExtendibleHashing.InitialTableShape | src/hash/extendible_hash.cpp:20-25 | the initial table satisfies the table invariant, has depth 1 and two slots referring to two distinct empty buckets, and both buckets have local depth 1 and ids 0 and 1 |
| ExtendibleHashing.SplitPreservesIndexable | src/hash/extendible_hash.cpp:134-136 | after a split the directory still has 2^depth slots, each naming a bucket of the arena |
| ExtendibleHashing.SplitPreservesValid | src/hash/extendible_hash.cpp:127-167 | a split keeps the table invariant: every local depth is between 1 and the global depth, every bucket has the table's capacity and an id that names a slot, and the counter equals the number of buckets |
| ExtendibleHashing.SplitDirectory | src/hash/extendible_hash.cpp:129-154 | the split bucket's local depth grows by one; doubling happens exactly when its local depth equalled the global depth, and then the length doubles, the depth grows by one and slot i + len refers to the bucket of slot i; otherwise depth and length stay; only the slot mId + len/2 is rewired, to the new bucket, and only when it is inside the directory |
| ExtendibleHashing.SplitPartition | src/hash/extendible_hash.cpp:146-166 | the new bucket is appended to the arena with the incremented local depth and id mId + len/2; it receives exactly the entries of the split bucket whose new index differs from the bucket's id, and the bucket keeps the others, their key sets disjoint and their union the old key set, with values unchanged; every other bucket keeps its entries |
| ExtendibleHashing.InsertWithoutSplit | src/hash/extendible_hash.cpp:188-195 | inserting into a bucket with fewer than mBucketDataSize entries stores the key without a split; depth, directory and bucket count are unchanged, Find then returns the new value, and every other key is found as before |
| ExtendibleHashing.InsertThenFind | src/hash/extendible_hash.cpp:188-208 | whenever Insert stores the key, whether at once or after one split, Find then returns the inserted value |
| ExtendibleHashing.InsertPreservesValid | src/hash/extendible_hash.cpp:196-214 | Insert keeps the table invariant, and the global depth never decreases and grows by at most two |
| ExtendibleHashing.SplitAddsNoKey | src/hash/extendible_hash.cpp:154-165 | a split only moves entries between buckets: a key held by no bucket before is held by none afterwards, on both the in-range and the out-of-range path |
| ExtendibleHashing.SecondOverflowDropsKey | src/hash/extendible_hash.cpp:210-214 | when the key's bucket is still full after the first split, Insert's final table is exactly the second split of that bucket, and a key that no bucket held before is held by none afterwards, so Find answers None for it |
| ExtendibleHashing.RemoveSpecProperties | src/hash/extendible_hash.cpp:113-125 | Remove answers whether the key was found in its slot's bucket; afterwards the key is not found, every other key is found as before, depth, directory and bucket count are unchanged, each bucket is either unchanged or has lost only the key, and the invariant holds |
| ExtendibleHashing.StoreVisibleThroughAliases | src/include/hash/extendible_hash.h:66 | a store through the key's slot is seen through another, distinct slot exactly when it refers to the same bucket; the bucket seen through any other slot is unchanged, and so is the directory |
| ExtendibleHashing.LocalDepthBounds | src/hash/extendible_hash.cpp:56-71 | GetLocalDepth answers -1 exactly for a slot outside the directory or a slot whose bucket is empty; otherwise it answers a depth between 1 and the global depth |
| ExtendibleHashing.InsertsWithoutSplit02 | src/hash/extendible_hash.cpp:188-195 | in the example, 0 and then 2 are stored at once in bucket 0 of the fresh table |
| ExtendibleHashing.InsertWithSplit4 | src/hash/extendible_hash.cpp:196-208 | in the example, 4 finds bucket 0 full; one split doubles the directory to [0, 1, 2, 1], moves 2 to the new bucket, and 4 is then stored |
| ExtendibleHashing.InsertWithSplit8 | src/hash/extendible_hash.cpp:196-208 | in the example, 8 finds bucket 0 full; one split doubles the directory to 8 slots, moves 4 to the new bucket, and 8 is then stored |
| ExtendibleHashing.InsertsWithoutSplit37 | src/hash/extendible_hash.cpp:188-195 | in the example, 3 and then 7 are stored at once in bucket 1, which four slots share |
| ExtendibleHashing.SplitWithoutDoublingLosesKeys | src/hash/extendible_hash.cpp:147-165 | in the example table, which keeps the invariant, Find returns 3 and 7; the split for 5 does not double the directory, rewires slot 5 only, and afterwards Find returns None for both 3 and 7 |
| ExtendibleHashing.InsertOf5 | src/hash/extendible_hash.cpp:196-214 | in the example, the Insert of 5 splits twice and ends at the second split, whose new slot lies past the directory, without storing 5 |
| ExtendibleHashing.InsertAfterLostKeys | src/hash/extendible_hash.cpp:94-106 | after that Insert, Find returns None for 3, 7 and 5 |
| ExtendibleHashing.Bucket.constructor | src/include/hash/extendible_hash.h:42-45 | the bucket stores capacity, local depth and id as passed, and starts with no entries |
| ExtendibleHashing.Bucket.IsFull | src/include/hash/extendible_hash.h:47 | isFull: the bucket holds at least its capacity of entries; IsFullMatchesInsertTest ties it to Insert's test |
| ExtendibleHashing.PartitionBucket | src/hash/extendible_hash.cpp:157-166 | after the loop the split bucket holds exactly its entries whose index is its id, the new bucket holds exactly the others, and both local depths are unchanged |
| ExtendibleHashing.ExtendibleHash.constructor | src/hash/extendible_hash.cpp:19-25 | the new table's value is the initial table, and it satisfies the invariant |
| ExtendibleHashing.ExtendibleHash.GetGlobalDepth | src/hash/extendible_hash.cpp:46-50 | answers the global depth, which is at least 1, and changes nothing |
| ExtendibleHashing.ExtendibleHash.GetLocalDepth | src/hash/extendible_hash.cpp:56-71 | answers -1 for a slot outside the directory or a slot with an empty bucket, otherwise that bucket's local depth, which is between 1 and the global depth |
| ExtendibleHashing.ExtendibleHash.GetNumBuckets | src/hash/extendible_hash.cpp:76-88 | answers the number of directory slots whose bucket is not empty |
| ExtendibleHashing.ExtendibleHash.Find | src/hash/extendible_hash.cpp:93-106 | changes nothing, and answers the stored value exactly when the key is in the bucket its slot refers to |
| ExtendibleHashing.ExtendibleHash.SetEntries | src/hash/extendible_hash.cpp:119-123 | a write to a bucket's map through its shared pointer changes that bucket and no other, and keeps the invariant |
| ExtendibleHashing.ExtendibleHash.Remove | src/hash/extendible_hash.cpp:112-125 | changes the table exactly as RemoveSpec does, and keeps the invariant |
| ExtendibleHashing.ExtendibleHash.DoubleDirectory | src/hash/extendible_hash.cpp:133-141 | the directory becomes itself twice over, the depth grows by one, and the buckets are untouched |
| ExtendibleHashing.ExtendibleHash.IncrementLocalDepth | src/hash/extendible_hash.cpp:147 | only the split bucket's local depth changes, and it grows by one |
| ExtendibleHashing.ExtendibleHash.AddBucket | src/hash/extendible_hash.cpp:148-155 | a fresh empty bucket with the given local depth and the slot as id is appended, the slot refers to it, and the counter grows by one |
| ExtendibleHashing.ExtendibleHash.MoveEntries | src/hash/extendible_hash.cpp:157-166 | the split bucket and the new bucket end with the kept and the moved entries of the split bucket, and no other bucket changes |
| ExtendibleHashing.ExtendibleHash.GrowForSplit | src/hash/extendible_hash.cpp:129-147 | doubles the directory when the bucket's local depth equals the global depth, then increments that local depth |
| ExtendibleHashing.ExtendibleHash.SplitInto | src/hash/extendible_hash.cpp:148-166 | adds the new bucket at slot newBucketId and moves into it the entries of the bucket at slot splitBucketId that do not stay |
| ExtendibleHashing.ExtendibleHash.Split | src/hash/extendible_hash.cpp:127-167 | changes the table exactly as SplitSpec does, keeps the invariant, and answers whether the new slot was inside the directory |
| ExtendibleHashing.ExtendibleHash.IsFullMatchesInsertTest | src/hash/extendible_hash.cpp:188 | under the invariant, the bucket of a key's slot is full by isFull exactly when Insert's test against mBucketDataSize finds no room |
| ExtendibleHashing.ExtendibleHash.Insert | src/hash/extendible_hash.cpp:174-217 | changes the table exactly as InsertSpec does, keeps the invariant, and answers which branch was taken |
| ExtendibleHashing.ExtendibleHash.SplitThenRetry | src/hash/extendible_hash.cpp:196-216 | when the key's bucket is full, splits its slot, reports SlotOutOfRange if the split runs past the directory, and otherwise finishes as the second attempt does, all exactly as InsertSpec |
| ExtendibleHashing.ExtendibleHash.Retry | src/hash/extendible_hash.cpp:199-214 | the second attempt stores the key when its bucket now has room, and otherwise splits again without storing it |
| TreePages.WithParent | src/index/b_plus_tree.cpp:169-170 | SetParentPageId sets the parent and keeps a tree page a tree page with the same id and size |
| TreePages.IndexOf | src/index/b_plus_tree.cpp:90 | answers the first position holding the element, and None exactly when the element is absent |
| TreePages.LeafLookup | src/index/b_plus_tree.cpp:89-92 | leaf Lookup finds a value exactly when the key is in the leaf; the value is the one stored beside the key |
| TreePages.InsertPosition | src/index/b_plus_tree.cpp:95 | the insert position lies after every key not above the new key and before every key above it |
| TreePages.LeafInsert | src/index/b_plus_tree.cpp:94-97 | leaf Insert yields a well-formed leaf with the same id, parent, max size and next link; it answers the new size, which is one more for an absent key; a present key leaves the page as it was |
| TreePages.LeafInsertThenLookup | src/index/b_plus_tree.cpp:90-95 | after a leaf insert of an absent key, Lookup finds the new value and every other key's lookup is unchanged |
| TreePages.LeafInit | src/index/b_plus_tree.cpp:133 | leaf Init yields an empty well-formed leaf with the given id and parent and no successor |
| TreePages.InternalInit | src/index/b_plus_tree.cpp:164 | internal Init yields an empty internal page with the given id and parent |
| TreePages.SplitPoint | src/index/b_plus_tree.cpp:135 | the donor keeps at most all of its entries, and a page of two or more entries is cut into two non-empty halves |
| TreePages.LeafMoveHalfTo | src/index/b_plus_tree.cpp:135 | the donor's lower half stays, its upper half is appended to the recipient, together they are the donor's entries in order, and ids and parents are kept |
| TreePages.LeafMoveHalfToSorted | src/index/b_plus_tree.cpp:135 | moving half of a leaf into an empty leaf leaves two well-formed leaves, every key of the lower one is below every key of the upper one, and a leaf of at least two entries gives two non-empty leaves |
| TreePages.InternalLookup | src/index/b_plus_tree.cpp:312 | internal Lookup answers one of the page's children |
| TreePages.InternalLookupRange | src/index/b_plus_tree.cpp:312 | the child chosen is the one whose key range holds the key, and no other child's range does |
| TreePages.InsertNodeAfter | src/index/b_plus_tree.cpp:182 | the page keeps its id, parent, max size and one key per child, and the answer is its new size, which is one more when the old child is present |
| TreePages.InsertNodeAfterPlacement | src/index/b_plus_tree.cpp:182 | the new child comes directly after the old one, the key is beside it, and every other entry keeps its order |
| TreePages.PopulateNewRoot | src/index/b_plus_tree.cpp:173 | the root is a well-formed internal page with exactly the two children given |
| TreePages.NewRootRouting | src/index/b_plus_tree.cpp:173 | the new root sends keys below the separator to the old node and all other keys to the new one |
| TreePages.InternalMoveHalfTo | src/index/b_plus_tree.cpp:135 | the donor's lower half of children and keys stays, the upper half is appended to the recipient, and together they are the donor's children and keys in order |
| TreePages.Reparented | src/index/b_plus_tree.cpp:135 | every moved child that is a tree page names the recipient as parent, and every other page is unchanged |
| TreePages.InsertRecord | src/index/b_plus_tree.cpp:337 | the header gains a record for a name not yet registered and is unchanged otherwise |
| TreePages.UpdateRecord | src/index/b_plus_tree.cpp:340 | the header's record changes for a registered name, and the header is unchanged otherwise |
| BufferPool.Pinned | src/index/b_plus_tree.cpp:302 | a fetch adds one pin to the fetched page and none to any other page |
| BufferPool.Unpinned | src/index/b_plus_tree.cpp:317 | an unpin removes one pin from the page and none from any other page |
| BufferPool.UnpinAfterPin | src/index/b_plus_tree.cpp:333-341 | one fetch followed by one unpin leaves the pin counts as they were |
| BufferPool.PinHandOver | src/index/b_plus_tree.cpp:310-317 | fetching the child and then unpinning the parent moves the extra pin from the parent to the child |
| BufferPool.BufferPoolManager.FetchPage | src/index/b_plus_tree.cpp:302 | pins and answers the page when it is pinned already or a frame is free; otherwise answers null and changes nothing |
| BufferPool.BufferPoolManager.NewPage | src/index/b_plus_tree.cpp:124 | with a free frame, allocates the next page id, pinned once and holding no layout; otherwise answers null and changes nothing |
| BufferPool.BufferPoolManager.UnpinPage | src/index/b_plus_tree.cpp:317 | drops one pin and records the dirty flag; answers false and changes nothing for a page that is not pinned |
| BufferPool.BufferPoolManager.WritePage | src/index/b_plus_tree.cpp:169-173 | a write through a held page pointer changes that page's content and nothing else |
| BufferPool.BufferPoolManager.WritePages | src/index/b_plus_tree.cpp:135 | the re-parenting writes of MoveHalfTo replace the page contents and leave pins and dirty pages as they were |
| BPlusTreeIndex.LeafFor | src/index/b_plus_tree.cpp:306-318 | the descent from a page by internal Lookup reaches a leaf |
| BPlusTreeIndex.SplitPages | src/index/b_plus_tree.cpp:130-135 | the page store after Split: the new page is Init'ed with the node's kind and parent and receives the upper half of the node; for an internal node, the moved children are re-parented to it |
| BPlusTreeIndex.SplitPagesOverwrite | src/index/b_plus_tree.cpp:124-135 | what the new page held before Split does not matter |
| BPlusTreeIndex.SplitLeafShape | src/index/b_plus_tree.cpp:130-135 | splitting a leaf gives two well-formed leaves under their own ids, with the node's parent, holding together the node's keys and values in order, the lower half below the upper; the node keeps the split point's count, and no other page changes |
| BPlusTreeIndex.SplitInternalShape | src/index/b_plus_tree.cpp:130-135 | splitting an internal page gives two internal pages under their own ids holding together the node's children and keys in order, the node keeping the lower half |
| BPlusTreeIndex.SplitInternalParents | src/index/b_plus_tree.cpp:135 | after an internal split every moved child names the new page as its parent, the header page is unchanged, and every page that is neither the node nor a moved child keeps its content |
| BPlusTreeIndex.NewRootShape | src/index/b_plus_tree.cpp:159-175 | the new root is a parentless internal page of two children that routes keys below the separator to the old node and the rest to the new one; both nodes name it as parent, and the header's record of the index names it |
| BPlusTreeIndex.NewRootPages | src/index/b_plus_tree.cpp:159-175 | the page store after a new root is made: the root holds (old, key, new), the header's record names it, and both nodes name it as parent; NewRootShape proves its shape |
| BPlusTreeIndex.BPlusTree.constructor | src/index/b_plus_tree.cpp:15-21 | stores the name, buffer pool and root page id |
| BPlusTreeIndex.BPlusTree.IsEmpty | src/index/b_plus_tree.cpp:26-27 | always answers true |
| BPlusTreeIndex.BPlusTree.Insert | src/index/b_plus_tree.cpp:53-64 | inserts the index's record into the header, unpins the header dirty and answers true; fails with a null dereference and no change when the header cannot be fetched |
| BPlusTreeIndex.BPlusTree.UpdateRootPageId | src/index/b_plus_tree.cpp:331-342 | applies InsertRecord to the header when insertRecord is set and UpdateRecord otherwise; the header is marked dirty and the pin counts end as they began |
| BPlusTreeIndex.BPlusTree.FindLeafPage | src/index/b_plus_tree.cpp:295-300 | with IsEmpty always true, answers null |
| BPlusTreeIndex.BPlusTree.Descend | src/index/b_plus_tree.cpp:302-320 | from an existing root, reaches the leaf that internal Lookup leads to; only that leaf keeps an extra pin, and no content or dirty flag changes; it always succeeds when two frames are free |
| BPlusTreeIndex.BPlusTree.InsertIntoLeaf | src/index/b_plus_tree.cpp:83-88 | with FindLeafPage answering null, answers false and inserts nothing |
| BPlusTreeIndex.BPlusTree.InsertIntoFoundLeaf | src/index/b_plus_tree.cpp:89-111 | a duplicate answers false and changes nothing: pages, pins, dirty set, root id and next page id are as before; an entry that fits is written by leaf Insert, the leaf is unpinned dirty, root id and next page id are unchanged, and the answer is true; an overflow splits and ends in OutOfMemory or NullDereference |
| BPlusTreeIndex.BPlusTree.Split | src/index/b_plus_tree.cpp:121-138 | fails with OutOfMemory and no change when no frame is free; otherwise the new page is the next page id, left pinned, the store becomes SplitPages of the node into it, and the answer is null |
| BPlusTreeIndex.BPlusTree.MoveHalfTo | src/index/b_plus_tree.cpp:130-135 | Init and MoveHalfTo leave the store as SplitPages describes, with pins unchanged |
| BPlusTreeIndex.BPlusTree.InsertIntoParent | src/index/b_plus_tree.cpp:149-191 | a parentless node gets a new root exactly when frames allow, as NewRoot states; a node with a parent succeeds exactly when the parent can be fetched and fits after InsertNodeAfter, and then the parent holds the result and stays pinned while root id and next page id are unchanged; a null new node ends in a fault |
| BPlusTreeIndex.BPlusTree.NewRoot | src/index/b_plus_tree.cpp:158-175 | succeeds exactly when a frame is free for the root and the header can then be fetched; then root_page_id_ is the new page, one page id has been allocated, the store is NewRootPages and the pin counts are as before |
| BPlusTreeIndex.BPlusTree.AllocateRoot | src/index/b_plus_tree.cpp:158-166 | allocates the next page id as an empty parentless internal page, makes it the root and updates the header's record; it succeeds exactly under the frame condition |
| BPlusTreeIndex.BPlusTree.LinkNewRoot | src/index/b_plus_tree.cpp:168-173 | both nodes name the root as parent, and the root gets (old, key, new) |
| BPlusTreeIndex.BPlusTree.IntoParentPage | src/index/b_plus_tree.cpp:176-190 | the parent is fetched and gets InsertNodeAfter(old, key, new); it succeeds exactly when the parent was fetchable and fits, and then only the parent changes, it stays pinned, and root id and next page id are unchanged |
| IndexIterators.IndexIterator.IsEnd | src/include/index/index_iterator.h:24 | isEnd: the current leaf has no successor; Next keeps an iterator at the end on the same leaf |
| IndexIterators.IndexIterator.constructor | src/include/index/index_iterator.h:18-19 | stores the leaf, position and buffer pool |
| IndexIterators.IndexIterator.Current | src/include/index/index_iterator.h:26-28 | the entry at the current position: its key is found at `index` in the leaf, exactly `index` keys of the leaf are below it, and its value is what the leaf's Lookup of that key yields |
| IndexIterators.IndexIterator.Next | src/include/index/index_iterator.h:30-45 | inside a leaf, or at the end of the last leaf, the position grows by one on the same leaf; an iterator at the end stays at the end; past the end of a leaf with a successor, the position is 0, the page id the leaf records is unpinned clean and the successor is fetched and made current, or, when no frame is free, the step ends in NullDereference on the same leaf; page contents never change |
| LogRecovery.Uint32At | src/logging/log_recovery.cpp:17 | four bytes read as an unsigned number are below 2^32 |
| LogRecovery.Int32At | src/logging/log_recovery.cpp:17-22 | four bytes read as a signed int are a 32-bit value |
| LogRecovery.Int32RoundTrip | src/logging/log_recovery.cpp:17-22 | reading back the four bytes of a 32-bit int gives that int |
| LogRecovery.DeserializeLogRecord | src/logging/log_recovery.cpp:14-51 | succeeds exactly when size ≥ 0, lsn and txn id are valid and the type is not INVALID; on failure the record is untouched; on success the header fields are the ints at offsets 0, 4, 8, 12 and 16; INSERT takes the rid at 20 and the tuple from 28, NEWPAGE the page id at 20, and other types keep the payload fields |
| LogRecovery.HeaderFields | src/logging/log_recovery.cpp:17-22 | every header field written by the encoder reads back from its offset |
| LogRecovery.NewPageRecordRoundTrip | src/logging/log_recovery.cpp:45-50 | an encoded valid NEWPAGE record decodes to its fields and page id |
| LogRecovery.InsertRecordRoundTrip | src/logging/log_recovery.cpp:38-44 | an encoded valid INSERT record decodes to its fields, rid and tuple bytes |

## Left out

- Concurrency: the `std::lock_guard` in every hash-table operation. The table is modelled single-threaded.
- `LOG_INFO`, `LOG_DEBUG` and `std::cout` output. These are I/O.
- `std::hash`. It is the constant function `hashKey` chosen at construction.
- The buffer pool's internals (src/buffer/buffer_pool_manager.cpp is not part of this model). Only what the tree and the iterator can observe is kept.
- The page classes (leaf, internal and header pages) are not part of this model. Each method the tree calls is a function over the `Page` datatype, with the contract the tree relies on. Keys are integers under `<`, standing for `GenericKey` under the comparator.
- src/include/common/config.h and src/include/logging/log_record.h are not part of this model. Their constants (`INVALID_PAGE_ID`, `HEADER_PAGE_ID`, `INVALID_LSN`, `INVALID_TXN_ID`, `HEADER_SIZE`, the `LogRecordType` encodings) are written out as named constants.
- TreePages.LeafMoveHalfTo: does not update the next-leaf links, because the tree's Split does not show it doing so.
- TreePages.SplitPoint: the donor keeps n/2 entries. This is one choice of cut; the page class that fixes it is not visible.
- `LogRecord::insert_rid_` is assigned from an int (log_recovery.cpp:39). The model keeps that int rather than building a `RID`.
- LogRecovery.DeserializeLogRecord: `Tuple::DeserializeFrom` (log_recovery.cpp:44) is modelled as taking every byte from offset 28 on; the tuple's own size prefix is not interpreted.
- LogRecovery.DeserializeLogRecord: its precondition `Readable` asks for at least 20 bytes, and at least 28 for an INSERT or 24 for a NEWPAGE whose header is valid. The source reads through a bare `const char *` and checks no length, so a shorter buffer is an out-of-bounds read there; the model does not describe that read.
- `LogRecovery::Redo` and `Undo`. They are disk reads, buffer-pool fetches and table-page inserts outside the decoder.
- B+ tree stubs with constant bodies, which have no logic: `GetValue`, `Remove`, `CoalesceOrRedistribute`, `Coalesce`, `Redistribute`, `AdjustRoot`, `Begin`, `ToString`.
- `InsertFromFile` and `RemoveFromFile`. These are file I/O.
- src/concurrency/lock_manager.cpp. Its subject is blocking synchronisation.
- The `InsertIntoLeaf` branch of `BPlusTree.Insert` (b_plus_tree.cpp:61) is never taken, because `IsEmpty` always answers true. It is modelled on its own as BPlusTree.InsertIntoLeaf and BPlusTree.InsertIntoFoundLeaf.
- The null-bucket tests of `Insert` (extendible_hash.cpp:182-186, 201-205) and the range tests of `Find` and `Remove` (extendible_hash.cpp:97-99, 116-118) can never fire. Every slot names a bucket, and every index is below the directory length.
- Fixed-width integers in the hash table. Depths, slots, bucket ids and the counter are unbounded `nat`s. The source computes the slot as `hash & ((1 << mDepth) - 1)` on a 32-bit `int` (extendible_hash.cpp:38), which is undefined from depth 31 on, and it narrows the `size_t` hash to `int`. `int newBucketId` (extendible_hash.cpp:148) and the iterator's `int index_` are 32-bit too. The model does not capture the wrap-around or the undefined behaviour.
- The corrected split of extendible hashing, which re-points every slot whose low local-depth bits match the new bucket's id, is not modelled. The model keeps the split as written; the lost keys are the defect described above.
- BufferPool.BufferPoolManager.WritePages: the children that internal MoveHalfTo re-parents (`TreePages.Reparented`) get new content but are not added to the dirty set. The page class that fetches and unpins them is not part of this model, so their unpin flags are not known.
- IndexIterators.IndexIterator.Next: a successor that is not a leaf is not ruled out; the iterator then sits on that page as the source's cast would.
