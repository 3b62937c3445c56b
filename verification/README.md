# LKSM bookkeeping core in Dafny

A model of the sequential bookkeeping of `mm/lksm.c`, a lightweight variant of
Linux kernel same-page merging (KSM). LKSM scans the anonymous pages of
registered address spaces (`mm_slot`s). It keeps identical pages in two
content-ordered indexes: the *stable tree* of merged, write-protected KSM
pages, and the *unstable tree* of candidate pages seen in the current scan
round. For every scanned page it tracks a reverse-mapping item (`rmap_item`).
A page's content is abstracted to an integer, with `memcmp_pages` as the
integer comparison. Red-black trees are modelled by their in-order
sequences.

The model has one module per part of the core:

| file | module | what it models |
|---|---|---|
| `defs.dfy` | `KsmDefs` | constants, the flags and round byte packed into an rmap_item address, `rmap_item`, the global counters, sums over sequences |
| `stable_tree.dfy` | `StableTree` | stable nodes and chains of dups, the sharing cap, `stable_tree_append`, `remove_node_from_stable_tree`, the stable branch of `remove_rmap_item_from_tree`, `stable_node_dup`, `stable_tree_search` and `stable_tree_insert` at the matching position |
| `unstable_tree.dfy` | `UnstableTree` | `unstable_tree_search_insert`, the round tag, the unstable branch of `remove_rmap_item_from_tree`, the per-round reset |
| `rmap.dfy` | `Rmap` | `remove_rmap_item_from_tree`, the per-slot cursor `get_next_rmap_item` and `remove_trailing_rmap_items` |
| `merge_decision.dfy` | `MergeDecision` | the decision of `cmp_and_merge_page` over the outcomes of searches and merges |
| `scheduler.dfy` | `Scheduler` | slot state bits and their transitions, the three-cell merge window, the VIP list ordered by merge count |
| `region_filter.dfy` | `RegionFilter` | the per-region bitmap of merged offsets, its sizing, the skip to the next recorded offset, the escalation to a conflicted region |
| `tunables.dfy` | `Tunables` | validation in the `run`, `max_page_sharing`, `one_shot_scanning` and `scan_boost` stores, and the `pages_volatile` clamp |

Design choices:

- **Trees.** A stable-tree position holds a tagged variant: a regular node, or
  a chain of dups. The chain sentinel `rmap_hlist_len == STABLE_NODE_CHAIN`
  (-1024) is what `StableTree.RmapHlistLen` reports for a chain.
- **BUG_ON.** A `BUG_ON` that fires becomes an `Outcome.Bug` result.
- **Stale nodes.** Whether `get_ksm_page` still finds a node's KSM page is
  membership of its page frame number in a set `live`.
- **Counters.** The global counters `pages_shared`, `pages_sharing`,
  `stable_node_chains` and `stable_node_dups` are related to the tree by
  `StableTree.Consistent`. Every stable-tree operation is proved to keep it.
- **Addresses.** Addresses are natural numbers, and the bit masks are written
  with `%` and `/` by their powers of two. This is exact because the packed
  fields are disjoint bit ranges. The 8-bit age `(unsigned char)(scan_round -
  address)` is exact as a Euclidean remainder by 256, because 256 divides
  2^64.
- **Outside calls.** Kernel services appear as parameters carrying their
  outcome: allocations, page merges, `trylock_page`, string parsing and the
  pruning deadline.

Two consequences of the code that are easy to misread:

- **Pair merge counters.** Two equal pages merged in one round leave
  `pages_shared == 1` and `pages_sharing == 1`. Both rmap_items are appended
  to the new node, and the second append finds the list non-empty, so it
  counts one page sharing. `StableTree.PairMergeAccounting` proves this.
- **Accepted run modes.** `run_store` accepts every value up to
  `KSM_RUN_ONESHOT` (8), which includes 3 to 7, not only the named modes.
  `Tunables.RunStore` does the same.

## Model

| member | source | states |
|---|---|---|
| KsmDefs.ClearFlags | mm/lksm.c:1311 | `address &= PAGE_MASK` keeps the page and leaves no flag and no round byte |
| KsmDefs.SetStableFlag | mm/lksm.c:2518 | setting STABLE_FLAG keeps the page, the unstable flag and the round byte |
| KsmDefs.TagUnstable | mm/lksm.c:2478-2479 | an aligned address tagged for the unstable tree keeps its page, carries UNSTABLE_FLAG and not STABLE_FLAG, and its low byte is `scan_round & SEQNR_MASK` |
| KsmDefs.SetStableBit | mm/lksm.c:2518 | adding STABLE_FLAG to an address without it sets the flag and leaves page, unstable flag and round byte as they were |
| KsmDefs.TagBits | mm/lksm.c:2478-2479 | the unstable flag and an 8-bit round added to an aligned address occupy disjoint bits: the page, the flags and the round are read back unchanged |
| KsmDefs.SumConcat | mm/lksm.c:1128-1140 | the counter sums over a tree split over concatenation (helper for the counter bookkeeping) |
| StableTree.StableTreeAppend | mm/lksm.c:2496-2528 | BUG exactly on a negative `rmap_hlist_len` (a chain). Otherwise the node gains exactly this item at the head of its list and its length rises by 1. The item gets STABLE_FLAG and its head. The first mapping counts toward pages_shared and later ones toward pages_sharing and the merge counts. Nothing else changes. The overflow warning fires exactly when the new length exceeds the cap without the bypass |
| StableTree.AppendKeepsConsistent | mm/lksm.c:2496-2528 | appending keeps the tree ordered and well formed and the counters in agreement with it |
| StableTree.AppendToCandidateWithinCap | mm/lksm.c:1835-1847 | a merge into a sharing candidate never exceeds `ksm_max_page_sharing` and raises no warning |
| StableTree.DropMappings | mm/lksm.c:1129-1137 | dropping all mappings of a node lowers pages_shared by one if it had any and pages_sharing by the rest, and counts the rest as broken |
| StableTree.RemoveNodeFromStableTree | mm/lksm.c:1122-1160 | BUG exactly on a negative length. Otherwise the node leaves the tree: a regular node takes its position with it, and a dup leaves its chain with one fewer dup. Its items are released and its mappings are dropped from the counters |
| StableTree.RemoveNodeKeepsConsistent | mm/lksm.c:1122-1160 | removing a node keeps the tree well formed and the counters consistent |
| StableTree.RemoveStableRmapItem | mm/lksm.c:1268-1292 | for a live node: the item leaves the list and the length drops by 1. pages_sharing drops if others remain, else pages_shared does. The address loses its flags and the head is cleared. For a stale node the whole node is removed |
| StableTree.RemoveMapping | mm/lksm.c:1277-1291 | one mapping leaves a live node: its list loses the item once and its length drops by 1, nothing else in the tree changes. pages_shared drops when it was the last mapping, else pages_sharing drops and a break is counted; the item loses its head and flags |
| StableTree.RemoveFirst | mm/lksm.c:1277 | `hlist_del` takes exactly one occurrence of the item out of the node's list |
| StableTree.RemoveStableRmapKeepsConsistent | mm/lksm.c:1268-1292 | the removal keeps the tree and counters consistent |
| StableTree.AppendThenRemoveRestores | mm/lksm.c:1268-1292 | removing the item just appended restores the node's length, its list and both counters |
| StableTree.WalkDups | mm/lksm.c:1874-1930 | the walk over a chain's dups looks at all of them unless it stops early without pruning. Kept and stale dups together are the chain, and the choice lies among the kept |
| StableTree.WalkDupsKept | mm/lksm.c:1874-1930 | the walk keeps the live dups it looked at, in order, followed by the dups it did not reach |
| StableTree.WalkDupsStale | mm/lksm.c:1880-1886 | the dups removed are exactly the stale ones looked at, and `nr` counts the live ones |
| StableTree.WalkDupsChoice | mm/lksm.c:1887-1910 | the chosen dup is live and a sharing candidate; with none chosen, no kept dup could take the merge |
| StableTree.WalkDupsPruneBest | mm/lksm.c:1887-1910 | with pruning, the chosen dup has the most mappings among candidates and is the first such |
| StableTree.WalkDupsFirstFit | mm/lksm.c:1906-1910 | without pruning, the walk stops at the first live candidate |
| StableTree.WalkDupsSums | mm/lksm.c:1874-1930 | the walk loses no mapping: kept plus stale mappings equal the chain's |
| StableTree.MoveToFront | mm/lksm.c:1952-1967 | moving the found dup to the chain head is a permutation with it first |
| StableTree.VisitEntry | mm/lksm.c:2001-2021 | visiting the matching position either restarts with the position gone, or changes only that position. A found node is live and can take the merge. Without pruning a chain stays a chain |
| StableTree.VisitEntryKeepsConsistent | mm/lksm.c:1932-1950 | the visit keeps the counters consistent, including chain collapse (chains and dups each drop by 1) and stale dup removal |
| StableTree.VisitEntryFindsCandidate | mm/lksm.c:1855-1972 | the visit finds a merge target exactly when the position holds a live sharing candidate |
| StableTree.VisitEntryPrunePicksFullest | mm/lksm.c:1887-1910 | with pruning due, the chosen dup has at least as many mappings as every live candidate of the chain |
| StableTree.VisitEntryCollapse | mm/lksm.c:1932-1950 | a chain becomes a regular node exactly when pruning is due and exactly one live dup remains and it can take the merge |
| StableTree.VisitEntryKeepsWf | mm/lksm.c:1932-1971 | the visit keeps the tree ordered and well formed |
| StableTree.InsertPos | mm/lksm.c:2330-2360 | the insertion position lies after all smaller content and before all content not smaller |
| StableTree.InsertKeepsSorted | mm/lksm.c:2379-2385 | linking new content at that position keeps the tree ordered |
| StableTree.SortedUnique | mm/lksm.c:2330-2360 | in the ordered stable tree one content has one position, so the descent meets at most one equal entry |
| StableTree.StableTreeSearch | mm/lksm.c:2068-2293 | the lookup for a page that is not yet a KSM page: a hit is a live node at the matching position that can take the merge. A miss happens exactly when no such node exists. Busy happens only when the trylock fails. The tree stays well formed |
| StableTree.StableTreeSearchPage | mm/lksm.c:2052-2293 | a page that is already a KSM page comes back as itself, from its own node, whatever the tree holds; any other page gets the lookup's outcome, with the lookup's guarantees |
| StableTree.ForkedFullNodeHits | mm/lksm.c:2061-2066 | a KSM page whose node is full: the lookup of its content misses, yet the page itself is returned |
| StableTree.SearchKeepsConsistent | mm/lksm.c:2052-2293 | the search keeps the counters consistent |
| StableTree.StableTreeInsert | mm/lksm.c:2302-2405 | the new node has no mappings and sits at the content's position. New content is linked (tree one longer) with the counters unchanged. Allocation failure inserts nothing |
| StableTree.InsertNew | mm/lksm.c:2379-2390 | new content gets a fresh node of its own at its position: the tree is one longer, still ordered and well formed, and the counters are unchanged |
| StableTree.AddDup | mm/lksm.c:2391-2402 | equal content makes the fresh node the head dup of the position's chain, a regular node first becoming a chain (none is added when that allocation fails); only that position changes; one dup is counted, or one chain and two dups |
| StableTree.InsertKeepsConsistent | mm/lksm.c:1081-1112 | insertion keeps the counters consistent: a chain created from a regular node adds one chain and two dups, and a dup added to a chain adds one dup |
| StableTree.PairMergeAccounting | mm/lksm.c:2706-2719 | after insert plus two appends the new node lists both items, pages_shared rises by 1 and pages_sharing by 1 |
| StableTree.FindNode | mm/lksm.c:1272-1273 | the node an item's head names, or none exists |
| UnstableTree.InsertPos | mm/lksm.c:2421-2470 | the descent's insertion point: after all smaller content, before the rest |
| UnstableTree.InsertKeepsSorted | mm/lksm.c:2480-2484 | linking the item at the descent's insertion point keeps the unstable tree ordered |
| UnstableTree.Insert | mm/lksm.c:2480-2484 | linking an entry whose content is absent keeps the tree ordered and adds exactly that entry |
| UnstableTree.UnstableTreeSearchInsert | mm/lksm.c:2421-2489 | an equal item is returned unchanged when the walk succeeds. Otherwise the item is inserted with UNSTABLE_FLAG and the round byte, and pages_unshared rises by 1. A failed walk changes nothing |
| UnstableTree.Erase | mm/lksm.c:1303-1305 | erasing removes the item and nothing else |
| UnstableTree.RemoveUnstableRmapItem | mm/lksm.c:1294-1312 | the item is not in the tree afterwards; other items stay; pages_unshared drops by 1; the address loses flags and round byte |
| UnstableTree.RemoveUnstableKeepsSorted | mm/lksm.c:1303-1305 | taking an item out of the unstable tree keeps it ordered by content |
| UnstableTree.InsertThenRemoveRestores | mm/lksm.c:2478-2487 | removing the item just inserted gives back the same tree, the same counters and the same item |
| UnstableTree.EraseInserted | mm/lksm.c:1303-1305 | erasing the entry just inserted gives the tree back |
| UnstableTree.UntagRestores | mm/lksm.c:2478-2479 | clearing the flags of a tagged address gives the address back |
| UnstableTree.RoundReset | mm/lksm.c:3189-3192 | scan_round catches up with the crawl round, and the unstable tree is emptied exactly when it moves |
| UnstableTree.ResetAll | mm/lksm.c:3189-3192 | after any number of pass starts, scan_round has not gone back; the tree is the same when scan_round never moved and empty when it did |
| UnstableTree.ResetAllBelow | mm/lksm.c:3189-3192 | scan_round stays below any bound that it and every crawl round lie below |
| UnstableTree.ResetsDecideErase | mm/lksm.c:1294-1312 | an item inserted in round r and removed after pass starts at crawl rounds below r + 256: as written it is erased exactly when scan_round did not move, never from a tree it is not in, and the resulting tree is the one the model's removal gives |
| UnstableTree.RemoveUnstableAsWritten | mm/lksm.c:1303-1307 | as written: erase when the 8-bit age is zero, which corrupts the tree when the item is not in it |
| UnstableTree.AgeZeroWithinWindow | mm/lksm.c:1303-1304 | within 256 rounds of tagging the age is zero exactly in the tagging round |
| UnstableTree.AgeWrapErasesForeignNode | mm/lksm.c:1303-1307 | an item removed 256 rounds after tagging, across a tree reset, has age zero. The code as written erases it from a tree that does not hold it |
| Rmap.RemoveRmapItemFromTree | mm/lksm.c:1266-1315 | an unflagged item is untouched. A removed item keeps its page and loses both flags. The unstable branch drops pages_unshared by 1 and leaves the stable tree alone. The stable branch drops pages_shared + pages_sharing by at least one |
| Rmap.RemoveKeepsTreesWf | mm/lksm.c:1266-1315 | the removal keeps both trees well formed and the counters consistent |
| Rmap.Release | mm/lksm.c:1129-1139 | items released by a removed node keep everything but their flags, which are cleared |
| Rmap.SetFrozen | mm/lksm.c:462-464 | the frozen bit becomes what is asked and the checksum's other bits stay |
| Rmap.CountBelowSplits | mm/lksm.c:2761-2776 | the items the loop frees are exactly the leading ones below `addr` |
| Rmap.FreeRmapItem | mm/lksm.c:2773-2775 | freeing the head item keeps the rest ordered and item for item the same but for flags, and lowers ksm_rmap_items by 1 |
| Rmap.DropBelow | mm/lksm.c:2761-2776 | after the loop the list starts at a page not below `addr`, and exactly the items below were freed. The rest is unchanged but for flags, the trees stay well formed, and with nothing below `addr` the trees and counters are untouched |
| Rmap.GetNextRmapItem | mm/lksm.c:2755-2794 | the list stays ordered by page. An existing item for `addr` is returned with its frozen bit set exactly when the slot is frozen and the item is unstable. Otherwise a fresh item for `addr` (frozen as the slot) is linked there when allocation succeeds. The rest of the list is unchanged but for flags, and the counters move by the items freed and created; with nothing freed, a fresh item raises pages_volatile by one |
| Rmap.RemoveTrailingRmapItems | mm/lksm.c:1317-1325 | every item from the cursor on is freed and ksm_rmap_items drops by their number; unflagged items leave the trees alone; well-formed trees stay well formed and consistent with the counters |
| MergeDecision.MergePair | mm/lksm.c:2686-2751 | a stable node is inserted exactly when both merges and the insert succeed. Every merged page is either appended or broken out again, and the two items are appended together or not at all |
| MergeDecision.Decide | mm/lksm.c:2584-2753 | nothing happens exactly when the page already hangs off its own node; otherwise the item is first removed from its tree, once, and no merged page is left orphaned |
| MergeDecision.AfterRemoval | mm/lksm.c:2611-2751 | once the item is out of its tree, no further removal is made and no merged page is left orphaned |
| MergeDecision.CmpAndMergePage | mm/lksm.c:2573-2753 | the corrected decision: the same guarantees, with the zero-page test made on a computed checksum |
| MergeDecision.CmpAndMergePageAsWritten | mm/lksm.c:2643-2656 | the decision as written, with the zero-page test reading the possibly uninitialised checksum |
| MergeDecision.StableHitAppends | mm/lksm.c:2613-2634 | a stable hit with a successful merge appends the item, with the bypass when the page's own node is not a sharing candidate |
| MergeDecision.StableFailureOnlyRemoves | mm/lksm.c:2613-2634 | a busy tree or a failed merge only removes the item from its tree |
| MergeDecision.ChangedChecksumOnlyRecords | mm/lksm.c:2643-2650 | in the first rounds a changed checksum is only recorded |
| MergeDecision.ZeroMergeNeedsZeroChecksum | mm/lksm.c:2656-2678 | a merge with the zero page needs use_zero_pages and the zero checksum |
| MergeDecision.PairMergeAllOrNothing | mm/lksm.c:2706-2736 | two merged pages end both appended to the new node, or both broken out again |
| MergeDecision.AsWrittenAgreesWhenComputed | mm/lksm.c:2643-2656 | when the checksum is computed, the code as written decides as the corrected one |
| MergeDecision.UninitialisedChecksumDecides | mm/lksm.c:2643-2656 | for a zero page scanned after the first rounds, the corrected decision merges with the zero page. As written, the uninitialised value decides, and any other value sends the page to the unstable tree |
| Scheduler.StateBits | mm/lksm.c:467-470 | the state bits fit in four bits, with bit 0 the frozen flag |
| Scheduler.StateOfBits | mm/lksm.c:467-475 | reading the bits back gives the stored short |
| Scheduler.StateBitsRoundTrip | mm/lksm.c:467-475 | packing the four states into the short and testing each bit gives the states back |
| Scheduler.EnterAllocSlot | mm/lksm.c:3969-4005 | a new slot is a newcomer, frozen or listed as its task is, not scanned and on no VIP list. It joins the scan list unless unmerge runs |
| Scheduler.TaskFrozen | mm/lksm.c:5053-5098 | a listed slot other than the current one becomes frozen and joins the scan list; nr_frozen rises, and nr_scannable drops if it was unscanned; otherwise nothing changes. The crawler is woken exactly for such a slot when the run mode is merge and the crawler sleeps |
| Scheduler.TaskThawed | mm/lksm.c:5109-5128 | a frozen slot other than the current one becomes listed. An unscanned one counts as scannable again; a scanned one leaves the scan list. nr_frozen drops; otherwise nothing changes |
| Scheduler.FrozenThenThawedRestores | mm/lksm.c:5046-5147 | freezing then thawing a listed slot restores the slot and the counters |
| Scheduler.ThawedThenFrozenRestores | mm/lksm.c:5046-5147 | thawing then freezing a frozen slot on the scan list restores both |
| Scheduler.AccountNrMerge | mm/lksm.c:3157-3164 | the cell at merge_idx receives the new count and the others stay. merge_idx advances cyclically through 0..2, and nr_merged is the window sum |
| Scheduler.WindowKeepsLastThree | mm/lksm.c:3148-3164 | after three accountings nr_merged is the sum of those three counts, whatever came before |
| Scheduler.InsertPos | mm/lksm.c:2891-2899 | the descent places the slot after every entry with a count at least its own and before every smaller one |
| Scheduler.InsertOrdered | mm/lksm.c:2880-2903 | the VIP list stays in non-increasing order. The slot is inserted once, after the entries with equal or larger counts and before the smaller ones, and the others keep their order |
| Scheduler.RemoveVip | mm/lksm.c:3277-3280 | taking a slot off the VIP list leaves no entry with its id and keeps every entry of the other slots |
| Scheduler.RemoveVipOrdered | mm/lksm.c:3277-3280 | taking a slot off a VIP list ordered by non-increasing merge count keeps it ordered |
| Scheduler.RetireSlot | mm/lksm.c:3264-3282 | a retiring slot stops being a newcomer and frozen, is scanned and off the scan list. Exactly one of nr_frozen and nr_scannable drops. It is back on the ordered VIP list exactly when its new window sum is non-zero, and other slots' entries stay |
| RegionFilter.BitmapSize | mm/lksm.c:584 | the number of words covers `size` bits and one fewer would not |
| RegionFilter.BitmapSizeLeast | mm/lksm.c:584 | no smaller word count covers `size` bits: the size is ceil(size/64) |
| RegionFilter.RegionSize | mm/lksm.c:583 | the page count of a vma, rounding down |
| RegionFilter.FilterLen | mm/lksm.c:2961-2963 | a vma asks for a bitmap exactly when it has more than 64 pages, and the length always covers its pages |
| RegionFilter.Offset | mm/lksm.c:2539-2540 | the page offset of an item in its vma, below the address and within one page of it |
| RegionFilter.AppendRegion | mm/lksm.c:2531-2561 | the corrected append: only file regions record offsets, and only offsets within the filter; filter_cnt moves exactly with the number of set bits. A failed first allocation skips the region. Otherwise merge_cnt rises by 1 and the filter invariant is kept |
| RegionFilter.AppendRegionAsWritten | mm/lksm.c:2531-2561 | as written, a file region not skipped by a failed allocation writes outside its filter exactly when the offset is past the filter's bits; otherwise it acts as the corrected append |
| RegionFilter.FailedGrowOverruns | mm/lksm.c:2977-2984 | a one-word file region whose vma grew to 128 pages while the larger filter could not be allocated stays in use, and a merge at page 100 writes outside the filter as written, while the corrected append keeps the filter invariant |
| RegionFilter.AppendAll | mm/lksm.c:2545-2556 | repeated merges keep the filter array allocated once any offset is recorded |
| RegionFilter.AppendAllCountsDistinct | mm/lksm.c:2550-2555 | from an empty filter, filter_cnt ends as the number of distinct offsets merged and merge_cnt as the number of merges |
| RegionFilter.Distinct | mm/lksm.c:2550-2555 | the distinct offsets of a sequence are exactly its members |
| RegionFilter.FirstBitUnique | mm/lksm.c:3003-3018 | the next-set-bit search has exactly one answer |
| RegionFilter.NextFilteredAddress | mm/lksm.c:3003-3018 | the next address is `base + PAGE_SIZE * k`, with k the first recorded offset at or after the current one, or the filter's bit count when there is none |
| RegionFilter.FindRegionAsWritten | mm/lksm.c:2956-2999 | as written, the scan's region is left unchanged only when a region has just been escalated to a conflict |
| RegionFilter.FindRegion | mm/lksm.c:2956-2999 | the corrected choice: the scan goes unfiltered exactly when there is no region or it is conflicted. The filter invariant is kept, and a filtered region's filter covers every page of the vma |
| RegionFilter.SecondMismatchConflicts | mm/lksm.c:2965-2976 | a second length mismatch makes the region conflicted with an empty one-word filter |
| RegionFilter.FirstMismatchGrows | mm/lksm.c:2977-2990 | a first mismatch to a longer length grows the filter and keeps its recorded offsets |
| RegionFilter.AsWrittenDiffersOnlyOnConflict | mm/lksm.c:2965-2999 | the code as written and the corrected choice agree except for the scan region on the escalation |
| RegionFilter.ConflictLeavesScanRegion | mm/lksm.c:2965-2976 | a one-word file region whose vma grew to 128 pages after an earlier mismatch: the corrected scan goes unfiltered, while as written the scan region stays as before |
| Tunables.RunShow | mm/lksm.c:4399-4406 | any value up to the one-shot mode reads back as itself, and the one-shot bit reads back as the one-shot mode |
| Tunables.RunStore | mm/lksm.c:4408-4452 | unparsable values and values above 8 are refused with -EINVAL and change nothing. A failed unmerge stops the daemon and returns its error. An accepted value reads back as written. One-shot also merges. The crawler is woken exactly when merging |
| Tunables.RunStoreSameIsNoOp | mm/lksm.c:4428-4443 | writing the current mode is accepted and changes nothing |
| Tunables.RunStoreRoundTrip | mm/lksm.c:4408-4452 | every accepted value reads back as written when unmerging succeeds |
| Tunables.MaxPageSharingStore | mm/lksm.c:4541-4573 | a parse error returns its own error. Values below 2 are refused. A change is taken only while no KSM page exists and every stable node could be removed, and is refused with -EBUSY otherwise. The knob stays at least 2 |
| Tunables.MaxPageSharingIdempotent | mm/lksm.c:4557-4558 | writing the value just taken is accepted again whatever was merged since |
| Tunables.OneShotScanningStore | mm/lksm.c:4695-4713 | a partial or full scan request is taken exactly when none is running, and then sets the mode and wakes the crawler; anything else is refused with -EINVAL |
| Tunables.OneShotScanningExclusive | mm/lksm.c:4706-4712 | the scan mode stays one of three values and a second request before the scan ends is refused |
| Tunables.ScanBoostStore | mm/lksm.c:4721-4737 | a value is taken exactly when it lies in 100..10000; otherwise -EINVAL and no change |
| Tunables.ScanBoostStaysInRange | mm/lksm.c:4728-4733 | from a value in range, any sequence of writes keeps the boost in 100..10000 |
| Tunables.PagesVolatile | mm/lksm.c:4597-4611 | the statistic is never negative and equals the difference of the counters whenever that is non-negative |
| Tunables.UnstableInsertSettles | mm/lksm.c:2487 | an unstable insertion lowers pages_volatile by one unless it was clamped at 0; a search that inserts nothing leaves it alone |
| Tunables.UnstableRemoveUnsettles | mm/lksm.c:1310 | removing an unstable item raises pages_volatile by one |
| Tunables.StableAppendSettles | mm/lksm.c:2522-2527 | hanging an item off a stable node lowers pages_volatile by one unless it was clamped at 0 |

## Left out

- Page-table and VM work (`write_protect_page`, `replace_page`, `break_ksm`, `follow_page`, `get_mergeable_page`, `split_huge_page`, mlock): their success or failure enters as parameters.
- Locking, kthreads, wait queues and atomics: the model is sequential. The wake-up of the crawler by `lksm_task_frozen` is a flag in its result; other wake-ups are not modelled.
- The freezer's `task_slot` list for tasks that are not mergeable (the second branches of `lksm_task_frozen` and `lksm_task_thawed`): only mergeable tasks' slots are modelled.
- Red-black balancing: trees are in-order sequences.
- NUMA per-node roots, `migrate_nodes` and the migration paths of `stable_tree_search`, including the node-id check at the top of `cmp_and_merge_page`.
- Memory hotplug, `rmap_walk_ksm`, `ksm_might_need_to_copy`, `ksm_migrate_page`: outside the bookkeeping core.
- xxhash: `calc_checksum` is an input whose bit 0 is clear.
- Jiffies, including the prune interval: whether pruning is due is a boolean parameter.
- Process iteration and region classification (`is_heap`, `is_stack`, `lksm_find_region`): the region of a vma is an input.
- Sysfs string parsing (`kstrto*`) and printing: the parse outcome is an input.
- `region_share`: the per-type statistic that moves in step with `merge_cnt`.
- The use of the filter in `__scan_next_rmap_item` (maturity and the skip test): only the address computation `lksm_get_next_filtered_address` is modelled.
- `remove_all_stable_nodes` and `unmerge_and_remove_all_rmap_items`: only their reported outcomes enter the stores.
- Counters are unbounded integers; the wrap of `unsigned long` and `int` counters is not modelled.
- StableTree.StableTreeSearch: only the position with matching content is visited; stale nodes met on the descent path are not removed.
- StableTree.StableTreeInsert: the tree position of equal content is found directly, without the page comparisons and `get_ksm_page` calls of the descent.
- Rmap.Release: only items further down the same list are released; items of other slots hanging off a removed node are not modelled.
- Rmap.RemoveRmapItemFromTree: for a stable item the contract bounds the drop of `pages_shared + pages_sharing` from below rather than stating it exactly; the exact accounting is in StableTree.RemoveStableRmapItem and StableTree.RemoveNodeFromStableTree.
- Tunables.PagesVolatile: the difference is taken on integers, not as `unsigned long` arithmetic converted to `long`.
- RegionFilter.NextFilteredAddress: requires the address not to lie below the vma base, where the unsigned subtraction would wrap.
- The `KSM_MM_PREPARED` state bit, set while a slot's region filters are prepared: filter preparation is outside the model, so slot states have four bits.
- Scheduler.EnterAllocSlot: the fault counts and anonymous-page size recorded at creation are left out.

## Findings

| source | as written | input that shows it | evidently intended | confidence | as-written member | corrected member |
|---|---|---|---|---|---|---|
| mm/lksm.c:2643-2656 | the zero-page test compares `checksum` with `zero_checksum`, but `checksum` is assigned only in the first rounds for a non-frozen item | a zero page whose stable search misses, scanned with `scan_round >= initial_round` (or a frozen item) | compute the checksum before the zero-page test on every path | high, not executed | MergeDecision.CmpAndMergePageAsWritten, MergeDecision.UninitialisedChecksumDecides | MergeDecision.CmpAndMergePage |
| mm/lksm.c:1303-1307 | an unstable item is erased from the tree when `(u8)(scan_round - address) == 0` | an item tagged in round r, left unscanned while the tree was reset, removed in round r + 256 | erase only items inserted in the current round | medium, not executed | UnstableTree.RemoveUnstableAsWritten, UnstableTree.AgeWrapErasesForeignNode | UnstableTree.RemoveUnstableRmapItem |
| mm/lksm.c:2965-2976 | escalating a region to a conflict sets `region = &unknown_region` and breaks out of the loop past the `skip` label, so `ksm_scan.region` keeps its previous value | the first vma of a slot's scan (`ksm_scan.region` is NULL, line 3087) whose file region has conflict 1 and a one-word filter, now 128 pages long | hand the scan the unknown region | medium, not executed | RegionFilter.FindRegionAsWritten, RegionFilter.ConflictLeavesScanRegion | RegionFilter.FindRegion |
| mm/lksm.c:2550-2553 | `test_and_set_bit(offset, ...)` sets the offset's bit with no check against `region->len`; when `lksm_find_next_vma` fails to allocate a longer filter (lines 2980-2984) it still hands the scan the region with its old, shorter filter | a one-word file region whose vma has grown to 128 pages, the allocation of the two-word filter failing, then a merge of the vma's page 100 | never write a bit outside the filter | medium, not executed | RegionFilter.AppendRegionAsWritten, RegionFilter.FailedGrowOverruns | RegionFilter.AppendRegion |
