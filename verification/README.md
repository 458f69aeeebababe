# Verified models of Gaia-ECS containers, sorting and entity tables

Gaia-ECS is an entity component system written in C++. This project models the parts of it whose correctness rests on
invariants that the code keeps but does not state, and proves what those parts promise.

- **Sorting** (`ordering`, `swap_trace`, `comparing`, `powers`, `heap_sort`, `partition`, `introsort`,
  `sorting_networks`, `sort`): both forms of the introsort with their unguarded scans, depth budget and heapsort
  fallback, the shortcut for ranges in order or reversed, and the sorting networks for small ranges. Comparison
  calls, nesting and partitions along a chain are counted in ghost parameters.
- **Chunks and archetypes** (`chunk_view`, `chunk`, `column_merge`, `archetype_view`, `archetype`, `archetype_sort`,
  `chunk_storage`, `chunk_run`): rows split into disabled and enabled ones, swap-removal, back-pointers from entity
  records, the quicksort over the flat order of several chunks, the index of the first chunk with room, and the merge
  that moves columns between archetypes.
- **Slot lists** (`common`, `slot_spec`, `ilist`, `paging`, `paged_ilist`, `lockstep`): the implicit free list and its
  paged form, both proved against one specification, a stack of free slots with a generation per slot, and run side by
  side.
- **Paged sets and maps, intrusive list** (`sparse_pages`, `sparse_storage`, `tag_storage`, `page_storage`,
  `fwd_llist`).
- **Bits** (`words`, `word_scan`, `bit_words`, `bitset`, `dbitset`, `bitset_iterator`, `bit_view`, `version`): machine
  words are numbers below a power of two, for any width, with the operators defined bit by bit.

Objects that change in place are classes. A method is proved against a function of the old state, and what the
operation means for a caller is then proved about that function.

## Where the code departs from its intent

Each of these is kept as the code has it, and the condition under which the intended property holds is proved.

- The sorting network for 10 elements (`include/gaia/core/utility.h:1954-1990`, and the same comparators in the
  callback form) does not sort, for instance [0, 1, 1, 0, 1, 0, 0, 0, 0, 0]. `sort` therefore sorts all ranges of a
  length exactly when the length is not 10, and which ranges of 10 elements it leaves unsorted is stated exactly; the
  networks for all other lengths up to 17 are correct in both forms.
- Removing the first enabled row of a chunk that has disabled rows (`include/gaia/ecs/chunk.h:1206-1212`) also enables
  the last disabled entity without telling its record; every other removal is right.
- Deleting a chunk that is not empty (`include/gaia/ecs/archetype.h:666-684`) can put a chunk with room below the index
  of the first one with room; `Storage.Del` states exactly when it does not.
- Choosing a pivot among exactly two elements returns a strict maximum at `high`, which Hoare's partition could not
  take, exactly when the two are strictly ascending; the code never asks for fewer than 26.
- `ilist::alloc()` without a context leaves the old free-list link in the index field of a reused item, where the
  documentation promises the slot's own index (`include/gaia/cnt/ilist.h:415-441` against
  `include/gaia/cnt/ilist.h:148-149`): the index is right exactly for a new item.
- After `free_keep_live` iteration still visits the slot, against its documentation
  (`include/gaia/cnt/ilist.h:1346-1364`), and `has` already answers for the slot's next handle, which nobody was given.
  Freeing that handle, or freeing any slot of the plain list twice, makes the free list a cycle.
- `sparse_storage` cuts page numbers to 32 bits, so ids any number of full ranges apart are the same to it, and it
  answers rightly exactly for ids that fit or whose remainder is not listed; its tag form never lowers a page's counter
  and so never releases a page.
- `fwd_llist::empty` asserts that nothing is linked, which fails for every list that is not empty.
- Iterating a `page_storage` gets stuck past the end of a page without items that follows a page with items.
- Shrinking a `dbitset` leaves bits in the last word it keeps; flipping all bits of one whose size is a whole number
  of words flips one word too many.
- Reverse iteration over an empty bit set visits every position; forward inverse iteration runs past the size unless
  the size is a whole number of words, all bits are set, or the last position is unset.
- `GAIA_CLZ` and `GAIA_CTZ` return the number of clear bits below the lowest and above the highest set bit, the other
  way round than documented: for 1 they return 0 and 31. They are right exactly for zero and for words with as many
  clear bits at either end; the bit set code relies on what they return.
- `swap_bits` casts its mask to eight bits, so it swaps unequal bits only when both lie in the lowest byte.

## Model

| member | source | states |
|---|---|---|
| SwapTrace.SwapTarget.Swap | include/gaia/core/utility.h:1476-1490 | the swap callback: exchanges two elements and is the only way the callback forms reorder; the log records every call |
| SwapTrace.ReplayPerm | include/gaia/core/utility.h:1653-1675 | any sequence of swaps inside a range permutes that range and touches nothing outside it |
| SwapTrace.ReplayInStep | include/gaia/core/utility.h:1749-1778 | an array swapped in parallel by the same calls stays in step, element by element |
| Partitioning.SortMedianOfThree | include/gaia/core/utility.h:1431-1442 | returns one of the three indices, at a value that is a median of the three; at most three comparisons |
| Partitioning.SortNinther | include/gaia/core/utility.h:1456-1462 | the ninther of a large range is inside it and is never a strict maximum sitting at `high` |
| Partitioning.SortChoosePivot | include/gaia/core/utility.h:1452-1465 | the index of a median of the first, middle and last element, or of three such medians in ranges of more than 1024; from three elements on it is never a strict maximum sitting at `high`, on two exactly unless they are strictly ascending |
| Partitioning.TwoElementPivot | include/gaia/core/utility.h:1452-1465 | on two elements the chosen index is usable exactly when they are not in strictly ascending order |
| Partitioning.ScanUp | include/gaia/core/utility.h:1662-1664 | the unguarded upward scan stops inside the range, on the first element not smaller than the pivot |
| Partitioning.ScanDown | include/gaia/core/utility.h:1666-1668 | the unguarded downward scan stops inside the range, on the last element not larger than the pivot |
| Partitioning.QuickSortPartitionHoare | include/gaia/core/utility.h:1653-1675 | low <= split < high, nothing up to the split is larger than a sampled pivot and nothing after it is smaller; only swaps inside the range |
| Partitioning.SortOrderThree | include/gaia/core/utility.h:1518-1527 | afterwards the three positions are in order, a median of the three in the middle; no other position changes; only swaps |
| Partitioning.SortPreparePivotFirst | include/gaia/core/utility.h:1539-1554 | puts a median of the first, middle and last element first, in ranges of more than 128 a median of the medians of three samples; only swaps, twelve comparisons at most |
| Partitioning.ScanDownSmaller | include/gaia/core/utility.h:1578-1594 | the unguarded downward scan of the pivot-first form stops on an element smaller than the pivot, inside the range |
| Partitioning.QuickSortPartitionPivotFirst | include/gaia/core/utility.h:1566-1602 | smaller elements, then the element that came first, then elements not smaller; a permutation of the range |
| Partitioning.PivotSplits | include/gaia/core/utility.h:1803-1813 | both sides of a placed pivot can be sorted on their own |
| Introsort.InsertionSortSwaps | include/gaia/core/utility.h:1476-1490 | sorts the range by adjacent swaps only |
| Introsort.InsertionSortShifts | include/gaia/core/utility.h:1493-1506 | sorts the range, a permutation of it, nothing outside touched |
| HeapSort.HeapTop | include/gaia/core/utility.h:1716-1725 | the root of a heap is a largest element |
| HeapSort.HeapSiftDown | include/gaia/core/utility.h:1687-1705 | repairs a heap whose root alone is out of place, in twice the logarithm of the size |
| HeapSort.HeapSortRange | include/gaia/core/utility.h:1716-1725 | heapsort sorts the range by swaps inside it, within n * 3 * log2 n comparisons |
| Introsort.SortDepthLimit | include/gaia/core/utility.h:1730-1737 | the depth budget is twice the floor of the binary logarithm |
| Introsort.QuickSortSwaps | include/gaia/core/utility.h:1749-1778 | the callback form sorts by swaps only; termination rests on calls nested at most log2 n deep, each with less depth left than the one around it; comparisons bounded |
| Introsort.QuickSortMoves | include/gaia/core/utility.h:1788-1818 | the direct form sorts, a permutation; terminates by the same measure; comparisons bounded |
| Sorting.QuickSort | include/gaia/core/utility.h:2921-2926 | for n elements: sorted permutation, nesting <= log2 n, at most 2 * log2 n partitions on a chain, at most n * (9 * log2 n + 24) comparisons |
| Sorting.QuickSortCallback | include/gaia/core/utility.h:2937-2942 | the same for the form that reorders through the callback only |
| Sorting.IsAscending | include/gaia/core/utility.h:1618-1626 | whether no element is smaller than the one before it |
| Sorting.IsDescending | include/gaia/core/utility.h:1628-1636 | whether no element is larger than the one before it |
| Sorting.Reverse | include/gaia/core/utility.h:1638-1639 | mirrors the whole range by swaps |
| Sorting.TrySortedOrReversed | include/gaia/core/utility.h:1613-1641 | answers yes exactly for ranges in order or reversed, leaves those sorted and all others untouched |
| SortingNetworks.SeparatedIsSorted | include/gaia/core/utility.h:1828-2362 | a range separated at every threshold is sorted: the zero-one principle for any strict weak order |
| SortingNetworks.Network10Fails | include/gaia/core/utility.h:1954-1990 | the 10-element network leaves [a, b, b, a, b, a, a, a, a, a] unsorted whenever a is smaller than b |
| Sorting.NetworkSorts | include/gaia/core/utility.h:1828-2354 | for each length from 2 to 17 other than 10, the network sorts every input |
| Sorting.SortNetworkCallback | include/gaia/core/utility.h:2373-2906 | handles exactly up to 32 elements; sorts all of those lengths but 10, where it plays the faulty network; only swaps |
| Sorting.SortNetwork | include/gaia/core/utility.h:1827-2362 | the same for the form that swaps elements itself |
| Sorting.SortCallback | include/gaia/core/utility.h:2988-2997 | a permutation made by swaps only; sorted unless the length is 10 and the range neither in order nor reversed |
| Sorting.Sort | include/gaia/core/utility.h:2953-2964 | a permutation; sorted unless the length is 10 and the range neither in order nor reversed |
| Sorting.SortsExactlyOtherLengths | include/gaia/core/utility.h:2945-2997 | the outcome of sort is sorted for every range of length n exactly when n is not 10 |
| SortingNetworks.Network10SeparatesIff | include/gaia/core/utility.h:1954-1990 | the 10-element network is right at a threshold exactly outside 32 combinations of how many of the pairs it compares first are not below it |
| Sorting.TenSortedIff | include/gaia/core/utility.h:1954-1990 | the 10-element network sorts a range exactly when it is right at the range's own values |
| Sorting.SortsIff | include/gaia/core/utility.h:2953-2997 | exactly which outcomes of sort are sorted: all but those of 10 elements, neither in order nor reversed, that mislead the network at one of their values |
| Sorting.TenOutcome | include/gaia/core/utility.h:1954-1990 | the unsorted 10-element result really is an outcome of sort |
| Chunks.Chunk.AddEntity | include/gaia/ecs/chunk.h:843-853 | appends an enabled row; the caller records it |
| Chunks.Chunk.SwapChunkEntities | include/gaia/ecs/chunk.h:1233-1269 | exchanges two rows with all column values; both records trade rows and keep all else, every other record is kept |
| Chunks.Chunk.RemoveEntityInter | include/gaia/ecs/chunk.h:1135-1191 | the last row refills the hole, column by column, and its record learns its new row |
| Chunks.Chunk.RemoveEntity | include/gaia/ecs/chunk.h:1199-1226 | the result is consistent exactly unless the first enabled row is removed while there are disabled rows; even then every record names its true row and only the last disabled entity has the wrong flag; other records are kept |
| Chunks.Chunk.EnableEntity | include/gaia/ecs/chunk.h:1328-1365 | keeps the chunk consistent, moves the row across the boundary, keeps all other records |
| ChunkViews.AppendedContents | include/gaia/ecs/chunk.h:843-853 | adding stores the entity enabled with its values and changes no other |
| ChunkViews.SwappedContents | include/gaia/ecs/chunk.h:1233-1269 | swapping two rows of the same group changes nothing an entity can see |
| ChunkViews.ToggledContents | include/gaia/ecs/chunk.h:1328-1365 | enabling or disabling changes that entity's flag and nothing else |
| ChunkViews.RemovedContents | include/gaia/ecs/chunk.h:1199-1226 | removal takes one entity out and keeps the values and flags of all others |
| ChunkViews.RemovedFirstEnabled | include/gaia/ecs/chunk.h:1206-1212 | removing the first enabled row behind disabled ones also enables the last disabled entity |
| ChunkViews.RemovedIff | include/gaia/ecs/chunk.h:1199-1226 | removal does what it promises exactly outside that case |
| ChunkViews.RunRefines | include/gaia/ecs/chunk.h:843-1365 | over every legal run of add, remove, enable and disable the rows of a chunk are a map from entity to values and flag |
| ChunkRuns.PerformAll | include/gaia/ecs/chunk.h:843-1365 | such a run on a chunk with its records: disabled rows are exactly those below the boundary, the counts add up, every record names its row, contents as in the map |
| ColumnMerge.MoveForeignEntityData | include/gaia/ecs/chunk.h:1071-1127 | each destination column is handled once, in order: moved from the source column of its id if there is one, else default-constructed; no source column is moved from twice; both id lists strictly sorted |
| ColumnMerge.NoMatch | include/gaia/ecs/chunk.h:1104-1124 | when the merge has passed a destination id no source column has it |
| Archetypes.SwapChunkEntitiesAcross | include/gaia/ecs/chunk.h:1277-1322 | two entities trade rows and values, within one chunk or across two; their records trade chunk and row and keep their flags, all others are kept |
| Archetypes.TradedMatchIff | include/gaia/ecs/chunk.h:1277-1322 | after a trade the records are right exactly when both rows were on the same side of their boundaries |
| ArchetypeViews.FlatAt | include/gaia/ecs/archetype.h:869-900 | every row of a group has a flat index, and the flat order holds its entity there |
| ArchetypeViews.FlatPlace | include/gaia/ecs/archetype.h:869-900 | every flat index belongs to a row of the group |
| ArchetypeViews.FlatInjective | include/gaia/ecs/archetype.h:869-900 | different rows of a group have different flat indices |
| ArchetypeViews.FlatIndexOrder | include/gaia/ecs/archetype.h:869-900 | flat indices follow the chunks, and the rows within a chunk, exactly |
| ArchetypeViews.FlatDistinct | include/gaia/ecs/archetype.h:869-900 | no entity comes twice in a flat order |
| Archetypes.GetFlat | include/gaia/ecs/archetype.h:869-940 | the walk over the chunks finds the entity at a flat index, its row and its component values |
| Archetypes.ConsistentProper | include/gaia/ecs/chunk.h:1277-1322 | records that name true rows make it impossible for an entity to be stored twice |
| ArchetypeViews.TradedStores | include/gaia/ecs/chunk.h:1277-1322 | trading two rows of one group keeps every entity's values and flag |
| Archetypes.Trade | include/gaia/ecs/archetype.h:953-966 | trading two rows of one group keeps chunks and records consistent |
| ArchetypeViews.ByItemStrictWeak | include/gaia/ecs/archetype.h:943-1005 | comparing entities by their current values is a strict weak order when the user's comparison is |
| ArchetypeSort.PartitionFlat | include/gaia/ecs/archetype.h:943-966 | partitions a stretch of the flat order around its last entity, which ends at the returned index |
| ArchetypeSort.SortEntitiesInter | include/gaia/ecs/archetype.h:943-1005 | sorts a stretch of the flat order over several chunks; every record names its true chunk and row |
| ArchetypeSort.CountGroup | include/gaia/ecs/archetype.h:1018-1035 | the group sizes of the chunks add up to the length of the flat order |
| ArchetypeSort.SortEntities | include/gaia/ecs/archetype.h:1010-1055 | in each group no later row holds an entity and values smaller than those of an earlier row; each group is a permutation of itself; every entity keeps its values, flag and a true record |
| ChunkStorage.Storage.FocFreeChunk | include/gaia/ecs/archetype.h:689-717 | returns the lowest chunk with room and makes a new one only when all are full |
| ChunkStorage.Storage.TryUpdateFreeChunkIdx | include/gaia/ecs/archetype.h:722-730 | skips the chunk just filled; every chunk below the index stays full |
| ChunkStorage.Storage.TryUpdateAfterRemoval | include/gaia/ecs/archetype.h:734-750 | the index falls to the chunk removed from, or skips one full chunk; every chunk below it is full again |
| ChunkStorage.Storage.InsertEntity | include/gaia/ecs/archetype.h:686-730 | the entity goes, with its values, to the end of the lowest chunk with room; no other row of any chunk changes; afterwards it is stored enabled and all others as before; index invariant and records kept |
| ArchetypeViews.AppendedStores | include/gaia/ecs/chunk.h:843-853 | adding to one chunk adds to what the archetype stores, and nothing else changes |
| ArchetypeViews.RemovedStores | include/gaia/ecs/chunk.h:1199-1226 | removing from one chunk takes one entity out of what the archetype stores, and nothing else changes |
| ChunkStorage.Storage.RemoveEntityRaw | include/gaia/ecs/archetype.h:755-758 | keeps the index invariant and says where the index goes; the entity is no longer stored and all others are as before, exactly as for the chunk's own removal |
| ChunkStorage.Storage.Del | include/gaia/ecs/archetype.h:666-684 | the last chunk takes the place of the deleted one and its number; the index invariant holds afterwards exactly under the stated condition, always for an empty chunk |
| SlotSpec.AllocValid | include/gaia/cnt/ilist.h:415-441 | an allocated handle was not in use, is now, and no other handle is affected |
| SlotSpec.FreeValid | include/gaia/cnt/ilist.h:446-461 | freeing makes the handle stale and affects no other slot |
| SlotSpec.FreeThenAlloc | include/gaia/cnt/ilist.h:415-461 | the slot freed last is handed out next, one generation on, and nothing else has changed |
| SlotSpec.NewHandles | include/gaia/cnt/ilist.h:415-427 | while no slot is free, allocations number new slots in order, each in generation zero |
| SlotSpec.SeemsIff | include/gaia/cnt/ilist.h:443-455 | with generations cut to a width, a stale handle is taken for a live one exactly when its slot is in use and was freed a multiple of that width of times |
| SlotSpec.RetiredForever | include/gaia/cnt/ilist.h:446-461 | over every legal run a retired handle never comes back and is never issued again |
| SlotSpec.FreedIsStale | include/gaia/cnt/ilist.h:446-461 | a freed handle is not in use after any further legal run |
| SlotSpec.HandlesDistinct | include/gaia/cnt/ilist.h:385-461 | no legal run issues the same handle twice |
| SlotSpec.WalkIffChain | include/gaia/cnt/ilist.h:464-484 | validation accepts exactly the heads of acyclic chains of that many different slots ending at the tail mark |
| SlotSpec.PushTwiceCycles | include/gaia/cnt/ilist.h:446-461 | freeing a free slot closes a cycle: no walk reaches the tail mark |
| SlotSpec.RepresentsPush | include/gaia/cnt/ilist.h:446-461 | freeing keeps the list a list exactly when the slot was not free |
| Lockstep.RunBoth | include/gaia/cnt/ilist.h:1303-1364 | the same legal calls of alloc and free on a plain and a paged list return equal handles, those of the specification, and leave equal sizes, heads and free counts; the paged list holds exactly the payloads made and neither destroyed nor replaced |
| Lockstep.InStepReports | include/gaia/cnt/ilist.h:296-318 | two valid lists that stand for the same slots report the same size, head and free count |
| ImplicitLists.IList.Alloc | include/gaia/cnt/ilist.h:415-441 | returns what the slot specification returns; the item's index is its own slot exactly when the slot is new |
| ImplicitLists.IList.AllocCreated | include/gaia/cnt/ilist.h:385-411 | returns what the slot specification returns; the reused item names its own slot |
| ImplicitLists.IList.Free | include/gaia/cnt/ilist.h:446-461 | follows the slot specification; still a list exactly when the slot was not free, endless links otherwise |
| ImplicitLists.IList.Validate | include/gaia/cnt/ilist.h:464-484 | its verdict is whether that many links lead to the tail mark; never fails on a valid list |
| PagedLists.Page.Construct | include/gaia/cnt/ilist.h:783-789 | storage is allocated at need; mask, count and objects agree afterwards exactly when the slot was empty |
| PagedLists.Page.Destroy | include/gaia/cnt/ilist.h:791-799 | destroys one object, releases the storage with the last one |
| PagedLists.PagedIList.Alloc | include/gaia/cnt/ilist.h:1303-1330 | same handle as the slot specification, whatever pages were released; the payload knows its handle |
| PagedLists.PagedIList.Free | include/gaia/cnt/ilist.h:1335-1345 | follows the slot specification and destroys the payload; breaks the chain exactly for a handle answered but not issued |
| PagedLists.PagedIList.FreeKeepLive | include/gaia/cnt/ilist.h:1355-1364 | follows the slot specification and keeps the payload |
| PagedLists.PagedIList.Get | include/gaia/cnt/ilist.h:1044-1047 | returns the object that lives at an index |
| PagedLists.PagedIList.Has | include/gaia/cnt/ilist.h:999-1012 | true for every handle in use, false for every retired one; otherwise true only for the next handle of a kept slot |
| PagedLists.PagedIList.Validate | include/gaia/cnt/ilist.h:1367-1381 | as for the plain list |
| PagedLists.PagedIList.SkipDead | include/gaia/cnt/ilist.h:538-541 | stops at the next slot that still holds an object |
| PagedLists.PagedIList.Iterate | include/gaia/cnt/ilist.h:538-585 | meets every slot holding an object once in increasing order, those kept after freeing included |
| Paging.SplitUnique | include/gaia/cnt/paged_storage.h:1016-1018 | an index splits into page and slot in exactly one way |
| SparsePages.KeyExactIffNarrow | include/gaia/cnt/sparse_storage.h:1400-1401 | cutting the page number to 32 bits loses nothing exactly when it fits |
| SparsePages.WideIdsAlias | include/gaia/cnt/sparse_storage.h:1362-1367 | ids one full range apart are the same to the storage |
| SparsePages.LinkedAdd | include/gaia/cnt/sparse_storage.h:1403-1408 | dense and sparse side stay mutual inverses when an id is added |
| SparsePages.LinkedDel | include/gaia/cnt/sparse_storage.h:1436-1451 | dense and sparse side stay mutual inverses under swap-remove, whatever page the moved item is on |
| SparsePages.DenseCovers | include/gaia/cnt/sparse_storage.h:1240-1245 | the dense array names every stored key once and no other |
| SparsePages.FilledAtRest | include/gaia/cnt/sparse_storage.h:847-862 | filling a free slot keeps counter, ids and data of a page in agreement |
| SparsePages.EmptiedAtRest | include/gaia/cnt/sparse_storage.h:864-873 | emptying a slot keeps them in agreement and releases the page with its last item |
| SparseStorages.SparseStorage.Has | include/gaia/cnt/sparse_storage.h:1358-1375 | answers presence for any id, on released and missing pages too |
| SparseStorages.SparseStorage.TryGrow | include/gaia/cnt/sparse_storage.h:1247-1262 | adds empty pages as needed, one dense entry and one to the page counter |
| SparseStorages.SparseStorage.Add | include/gaia/cnt/sparse_storage.h:1391-1409 | stores a new item at the end of the dense order and adds pages only as far as its own; a present id changes nothing |
| SparseStorages.SparseStorage.Get | include/gaia/cnt/sparse_storage.h:1332-1351 | returns the datum stored for the id |
| SparseStorages.SparseStorage.Del | include/gaia/cnt/sparse_storage.h:1426-1452 | removes the item; the last dense entry takes its place; all other items kept |
| SparseStorages.SparseStorage.Iterate | include/gaia/cnt/sparse_storage.h:67-215 | follows the dense array and so meets each item once, with its datum |
| SparsePages.AllOnesOnLastPage | include/gaia/cnt/sparse_storage.h:1236-1238 | with a power-of-two page capacity the reserved id lies on the page with the largest number |
| SparseStorages.PresenceExactIff | include/gaia/cnt/sparse_storage.h:1358-1375 | while the listed ids fit, presence of an id is being listed exactly when the id fits or what is left of it is not listed |
| SparseStorages.WideIdsFound | include/gaia/cnt/sparse_storage.h:1358-1375 | ids any number of full ranges above a listed one are found although never added |
| TagStorages.TagStorage.HasInternal | include/gaia/cnt/sparse_storage.h:1724-1734 | answers presence for any id |
| TagStorages.TagStorage.Add | include/gaia/cnt/sparse_storage.h:1739-1753 | registers a new id at the end of the dense order and counts it on its page; a present id changes nothing |
| TagStorages.TagStorage.Del | include/gaia/cnt/sparse_storage.h:1757-1782 | unregisters by swap-remove; no page counter is lowered, so no page is released |
| ForwardLists.FwdList.Link | include/gaia/cnt/fwd_llist.h:132-146 | prepends a node that is not in the list; count and all back-links right |
| ForwardLists.FwdList.Unlink | include/gaia/cnt/fwd_llist.h:150-164 | removes a node at any position through its back-link; only its neighbours are written; the node ends unlinked |
| ForwardLists.FwdList.Has | include/gaia/cnt/fwd_llist.h:169-178 | finds a node exactly when it is in the list, and ends |
| ForwardLists.FwdList.Empty | include/gaia/cnt/fwd_llist.h:182-185 | the answer is right for every list; the assertion before it fails exactly for those that are not empty |
| ForwardLists.BackLinksLead | include/gaia/cnt/fwd_llist.h:11-24 | two lists that share a node are the same list |
| ForwardLists.ListsDisjoint | include/gaia/cnt/fwd_llist.h:117-128 | different lists share no node |
| PageStorages.SumUpdate | include/gaia/cnt/paged_storage.h:1022-1023 | changing one page changes the sum of the counters by the difference |
| PageStorages.FilledAtRest | include/gaia/cnt/paged_storage.h:361-388 | adding keeps a page's counter equal to its mask bits |
| PageStorages.EmptiedAtRest | include/gaia/cnt/paged_storage.h:403-409 | deleting keeps them equal and releases the page with its last item |
| PageStorages.PageStorage.Has | include/gaia/cnt/paged_storage.h:1111-1119 | answers membership in the map |
| PageStorages.PageStorage.Get | include/gaia/cnt/paged_storage.h:1087-1104 | returns the stored item |
| PageStorages.PageStorage.TryGrow | include/gaia/cnt/paged_storage.h:1025-1032 | adds empty pages as needed and counts one item |
| PageStorages.PageStorage.Add | include/gaia/cnt/paged_storage.h:1135-1158 | adds to the map, and pages only as far as its own; a present id changes nothing, not even a page |
| PageStorages.PageStorage.Del | include/gaia/cnt/paged_storage.h:1175-1188 | removes from the map; the counters stay the sum |
| PageStorages.PageStorage.Begin | include/gaia/cnt/paged_storage.h:546-569 | a new iterator stands on the first item |
| PageStorages.PageStorage.Next | include/gaia/cnt/paged_storage.h:584-607 | one step looks at the rest of the page and the first item of the next page only |
| PageStorages.PageStorage.Iterate | include/gaia/cnt/paged_storage.h:546-607 | meets every item once in order exactly when no page without items follows one with items; else it is stranded on the first such page, having met exactly the items before it |
| WordScans.ClearLowest | include/gaia/config/config_core.h:430-448 | clearing the lowest set bit lowers the bit count by one |
| WordScans.PopCnt | include/gaia/config/config_core.h:430-448 | the loop returns the number of set bits |
| WordScans.ScansOfOne | include/gaia/config/config_core.h:452-494 | for the word 1 of 32 bits there are 0 clear bits below and 31 above, so each scan returns the other's documented number |
| WordScans.Clz | include/gaia/config/config_core.h:450-471 | returns the number of clear bits below the lowest set bit; that is the documented number exactly for zero and for words with as many clear bits at either end |
| WordScans.Ffs | include/gaia/config/config_core.h:498-517 | zero for zero, else one more than the position of the lowest set bit |
| WordScans.Ctz | include/gaia/config/config_core.h:473-494 | returns the number of clear bits above the highest set bit; the documented number exactly in the same cases |
| BitWords.BitGetMask | include/gaia/cnt/bitset.h:214-221 | the range mask has exactly the bits from `from` to `to` |
| BitWords.RangeTurnedMore | include/gaia/cnt/bitset.h:223-232 | turning over the stretch that follows a turned range extends the range |
| BitWords.FlipRangeIn | include/gaia/cnt/bitset.h:211-232 | first, middle and last word masks flip each bit in the range once and no other |
| BitWords.SameWordsIffSameMembers | include/gaia/cnt/bitset.h:138-144 | with clear tails, equal words exactly when equal sets |
| BitWords.MembersUpTo | include/gaia/cnt/bitset.h:297-310 | the bit counts of the words add up to the number of set positions |
| Bitsets.Bitset.SetAll | include/gaia/cnt/bitset.h:158-165 | sets every position, nothing past the size |
| Bitsets.Bitset.Set | include/gaia/cnt/bitset.h:170-176 | adds or removes one position |
| Bitsets.Bitset.FlipAll | include/gaia/cnt/bitset.h:180-188 | complements the set; bits past the size stay clear |
| Bitsets.Bitset.Flip | include/gaia/cnt/bitset.h:192-197 | flips one position |
| Bitsets.Bitset.FlipRange | include/gaia/cnt/bitset.h:203-235 | symmetric difference with the range |
| Bitsets.Bitset.ResetAll | include/gaia/cnt/bitset.h:238-240 | empties the set |
| Bitsets.Bitset.Reset | include/gaia/cnt/bitset.h:244-247 | removes one position |
| Bitsets.Bitset.Test | include/gaia/cnt/bitset.h:252-255 | membership |
| Bitsets.Bitset.All | include/gaia/cnt/bitset.h:259-273 | whether every position is set |
| Bitsets.Bitset.Any | include/gaia/cnt/bitset.h:277-283 | whether some position is set |
| Bitsets.Bitset.None | include/gaia/cnt/bitset.h:287-293 | whether no position is set |
| Bitsets.Bitset.Count | include/gaia/cnt/bitset.h:297-310 | the number of set positions |
| Bitsets.Bitset.Equals | include/gaia/cnt/bitset.h:138-144 | set equality |
| DynamicBitsets.DBitset.TryGrow | include/gaia/cnt/dbitset.h:50-77 | the size grows to reach the wish, the storage only when that does not fit, to the words it needs; the set stays, bits past the size stay clear |
| DynamicBitsets.DBitset.Reserve | include/gaia/cnt/dbitset.h:165-195 | only the capacity grows, to whole words, and only when the wish exceeds it |
| DynamicBitsets.DBitset.Resize | include/gaia/cnt/dbitset.h:199-234 | keeps the members below the new size, in as many words as that needs; bits past it are clear exactly when no old member lay in the rest of the last kept word |
| DynamicBitsets.DBitset.Set | include/gaia/cnt/dbitset.h:334-341 | adds or removes one position and grows to reach it in both cases |
| DynamicBitsets.DBitset.SetAll | include/gaia/cnt/dbitset.h:316-329 | sets every position, nothing past the size |
| DynamicBitsets.DBitset.FlipAll | include/gaia/cnt/dbitset.h:344-357 | complements the set; for a whole number of words it also sets one word past the size |
| DynamicBitsets.DBitset.Flip | include/gaia/cnt/dbitset.h:361-364 | flips one position |
| DynamicBitsets.DBitset.FlipRange | include/gaia/cnt/dbitset.h:370-401 | symmetric difference with the range |
| DynamicBitsets.DBitset.Reset | include/gaia/cnt/dbitset.h:411-414 | removes one position |
| DynamicBitsets.DBitset.Test | include/gaia/cnt/dbitset.h:419-422 | membership |
| DynamicBitsets.DBitset.All | include/gaia/cnt/dbitset.h:426-439 | whether every position is set |
| DynamicBitsets.DBitset.Count | include/gaia/cnt/dbitset.h:465-480 | the number of set positions |
| DynamicBitsets.DBitset.Equals | include/gaia/cnt/dbitset.h:294-301 | set equality for equal sizes |
| DynamicBitsets.ItemsRepresent | include/gaia/cnt/dbitset.h:38-40 | the words the size needs, all an iterator looks at, stand for the whole set |
| BitsetIterators.BitsetIterator.FindNextSetBit | include/gaia/cnt/bitset_iterator.h:39-68 | the first wanted position after `pos`, or `pos` when there is none |
| BitsetIterators.BitsetIterator.FindPrevSetBit | include/gaia/cnt/bitset_iterator.h:70-95 | the last wanted position before `pos`, or `pos` when there is none |
| BitsetIterators.BitsetIterator.ConstructForward | include/gaia/cnt/bitset_iterator.h:103-155 | begin is the first wanted position or the size; end is one past the last wanted position, or the size; from other positions the next wanted one, or one past the one before |
| BitsetIterators.BitsetIterator.ConstructReverse | include/gaia/cnt/bitset_iterator.h:103-155 | rbegin is the last wanted position or the last position; rend is one before the first wanted position; from other positions one before the next wanted one, or the one before |
| BitsetIterators.BitsetIterator.NextForward | include/gaia/cnt/bitset_iterator.h:187-193 | steps to the next wanted position, or one further |
| BitsetIterators.BitsetIterator.NextReverse | include/gaia/cnt/bitset_iterator.h:178-186 | steps to the previous wanted position, or one back with 32-bit wrap |
| BitsetIterators.BitsetIterator.IterateForward | include/gaia/cnt/bitset_iterator.h:103-196 | meets exactly the wanted positions in increasing order; reaches the end exactly under the stated condition |
| BitsetIterators.BitsetIterator.IterateReverse | include/gaia/cnt/bitset_iterator.h:103-196 | meets the wanted positions in decreasing order, or every position when nothing is wanted and the tail is clear |
| BitsetIterators.SetIterations | include/gaia/cnt/bitset_iterator.h:25-37 | the wanted positions are the members, or the non-members for the inverse form |
| BitsetIterators.ForwardStops | include/gaia/cnt/bitset_iterator.h:103-196 | forward iteration over a set always ends at its end |
| BitsetIterators.InverseStopsIff | include/gaia/cnt/bitset_iterator.h:25-30 | forward inverse iteration ends at its end exactly when the size is a whole number of words, or the set is full, or its last position is unset |
| BitsetIterators.ReverseExactIff | include/gaia/cnt/bitset_iterator.h:134-140 | reverse iteration is exact exactly when something is wanted or the inverse tail is; else it meets every position |
| BitViews.ReadBack | include/gaia/core/bit_utils.h:23-63 | a stored block reads back and every block that does not overlap it reads as before |
| BitViews.BitView.Set | include/gaia/core/bit_utils.h:23-40 | writes the block, also across two bytes, and no bit outside it |
| BitViews.BitView.Get | include/gaia/core/bit_utils.h:45-63 | reads the number the bits of the block spell |
| BitViews.SwapBits | include/gaia/core/bit_utils.h:73-83 | swaps the two bits of a mask of any width exactly when they are equal or both lie in the lowest byte; of two unequal bits just those in the lowest byte are turned over |
| Versions.Counter.UpdateVersion | include/gaia/ecs/common.h:25-30 | advances the counter and never leaves it at zero |
| Versions.AfterClosed | include/gaia/ecs/common.h:25-30 | k updates move k places round the cycle of non-zero versions |
| Versions.AfterZero | include/gaia/ecs/common.h:25-30 | from zero, where a world starts, the cycle is entered at one |
| Versions.NeverRun | include/gaia/ecs/common.h:12-30 | no update yields zero from any start; a system that has never run sees every change |
| Versions.ChangedAfter | include/gaia/ecs/common.h:12-30 | for 1 <= k <= 2^31 - 2 updates the new version is newer than the old, never the reverse, across the wrap |
| Versions.ChangedIff | include/gaia/ecs/common.h:12-30 | within one round a version k updates on is seen as newer exactly while the distance, the skipped zero included, is below 2^31 |
| Versions.NotBothChanged | include/gaia/ecs/common.h:12-21 | of two versions at most one is newer; two different ones compare alike only half the range apart |

## Left out

- Chunks.Chunk.AddEntity: the entity record is written by the caller, as in the original.
- ChunkStorage.Storage.InsertEntity: not one function of the original; it is the order in which callers must use
  `foc_free_chunk`, `add_entity` and `try_update_free_chunk_idx`.
- Chunks.Chunk.RemoveEntity: the entity pointers cached in records, and change versions, are not modelled.
- ColumnMerge.MoveForeignEntityData: one value stands for the bytes of a column at a row; unique columns are not moved.
- ImplicitLists.IList.Free: generations are unbounded, while the original wraps them at the width of the handle; what
  that does to stale handles is stated exactly by `SlotSpec.SeemsIff`.
- PagedLists.PagedIList.Alloc: the page table grows as needed; the fixed page table and `reserve_slot_table` are not
  modelled, and a page's alive mask is a set of slots rather than a `bitset`.
- PagedLists.PagedIList.Iterate: the iterator's loop is written out as one call; `add_live` and `add_free` are left out.
- SparseStorages.SparseStorage.Add: the page numbered 2^32 - 1 is excluded, because making it wraps the page count in
  the original; the dense array's capacity is not modelled.
- TagStorages.TagStorage.Add: the same page is excluded.
- PageStorages.PageStorage.Iterate: the iterator's loop is written out as one call, and a page's mask is a set of slots.
- ForwardLists.FwdList.Link: `clear`, which forgets the nodes without unlinking them, is not modelled.
- DynamicBitsets.DBitset.TryGrow: sizes near 2^32, where rounding up to words wraps, are not modelled; nor are moves.
- DynamicBitsets.DBitset.FlipAll: requires that the extra word it writes exists, for otherwise it writes out of bounds.
- BitsetIterators.BitsetIterator.IterateReverse: as for the forward iteration.
- BitsetIterators.BitsetIterator.IterateForward: the words are a snapshot; changing the set while iterating is not modelled.
- BitViews.BitView.Get: requires the whole block inside the bytes, as `BitView.Set` does.
- BitViews.BitView.Set: requires the whole block inside the bytes, while the original asserts only its first bit.
- Introsort.QuickSortSwaps: nesting and falling depth are enforced by termination; the counts of comparisons and of
  partitions on a chain are ghost values that the body keeps, so they hold as long as each comparison is made through
  `Compare`. How small a range must be for insertion sort is bounded, not fixed.
- Introsort.QuickSortMoves: the same.
- Sorting.Sort: index arithmetic is unbounded; ranges whose length does not fit 32 bits are not modelled.
- ArchetypeSort.SortEntities: sorting by component and by entity are one model, in which the comparison sees the entity
  and its values; a missing component is not modelled.
- Hash maps, queries, the query engine, command buffers, threads, serialisation and JSON.
- Chunk memory layout, allocators, component constructors and destructors, structure-of-arrays layouts, hooks and
  observers, columns stored outside the chunk.
- Container `!=`, and `==` beyond bit sets, which compare word by word or against themselves.
- Ring buffer, archetype graph and archetype lifespan counters: they would add only easy members.
