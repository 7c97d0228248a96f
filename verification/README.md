# Access methods, caches and utilities: a verified model

This project models the data structures and algorithms of a C++ library of access methods,
caches and utilities in Dafny and proves what they promise. `dafny verify dfyconfig.toml`
checks everything. Each part stands on its own files (`Wrappers` holds the option type and
`Sequences` facts about sequences that several of them share):

- **TimSort** (`Ordering`, `Merging`, `Galloping`, `Copying`, `Rearranging`, `MergeSteps`,
  `InPlaceMerge`, `Trimming`, `RunStack`, `Runs`, `MinRun`, `TimSort`): natural runs, binary
  insertion, galloping search, the two in-place merges with temporary storage and the run
  stack, on an array. The range is left sorted, and for every element the elements
  equivalent to it stand in their original order.
- **Cuckoo filter** (`Bits`, `FieldSearch`, `Packing`, `TwoBitTags`, `CuckooEntries`,
  `CuckooHashing`, `CuckooChain`, `TagTable`, `PowerSizing`, `TableMoves`, `CuckooRuns`,
  `CuckooFilter`): bit-packed buckets, the
  bit-trick search, kick-out chains and the victim stash. Whatever the kick-outs, the filter
  is a multiset of (bucket pair, tag), and there are no false negatives.
- **Concurrent cache** (`BucketList`, `CacheState`, `SlotPlaces`, `CacheSafety`,
  `CacheContents`, `CacheRuns`, `CacheProgress`): a transition system of lock-delimited steps
  of any number of threads. In every interleaving each access-info slot is in exactly one
  place, a reader finds the latest effective insert, and an insert takes a free slot whenever
  its list has one.
- **Interval heap** (`IntervalOrder`, `IntervalContents`, `IntervalSifting`, `IntervalHeap`):
  a double-ended priority queue with a half-filled last node.
- **HugeDB** (`HdbTags`, `HdbCursor`, `HdbValues`, `HdbLevels`, `HdbPartitions`, `HdbSteps`,
  `HdbCascade`, `HugeDB`): tagged records, the merging cursor, levelled merges, and when they leave
  `getValue` alone.
- **Skiplist** (`SkiplistNodes`, `SkiplistLinks`, `Skiplist`): heap nodes with towers of
  pointers.
- **LRLFU cache** (`LfuRows`, `LfuGroups`, `LfuCache`, `LrlfuCache`): doubly linked entries
  inside doubly linked frequency nodes, and the fixed-capacity cache that keeps a hash table
  in step with them.
- **Streaming minimum and maximum** (`MinMaxFilter`): two deques, exact windows, at most
  three comparisons per element.
- **Calendar arithmetic** (`GregorianTime`): normalisation and seconds since the Epoch.
- **SCD text** (`ScdLines`, `ScdFormat`): a printer and a line-oriented parser.

## How the model reads the code

- Integers are unbounded. Where width matters it is written out: the 64-bit smearing of
  `upperpower2`, the 32-bit product and hash halves of the cuckoo filter, the 64-bit window
  of the bit-trick search, truncating division in the calendar.
- An order is an arbitrary strict weak order (TimSort, interval heap, skiplist, filter), or
  a total order on keys (HugeDB).
- `std::copy` in `mergeHi` shifts overlapping ranges to the right. The model takes it as a
  simultaneous copy; `Copying.ForwardCopyIsSplice` states exactly for which ranges an upward
  element-by-element loop would do the same, and the ranges of `mergeHi` are not among them
  when they overlap. The `assert(0)` branches of both merges and the second early return of
  `mergeAt` are proved unreachable. `minGallop_ = min(…, 1)` is kept; it affects speed only.
- A cuckoo filter has at most 2^32 buckets. For fewer than four requested keys it has none,
  and its index hash is a remainder by zero: the constructor leaves a usable filter exactly
  from four keys on. `rand()` is an arbitrary choice, SHA1 an arbitrary function. `Size()` is
  documented as the number of keys in the filter, but the code does not count the victim; the
  model follows the code, and `CuckooFilter.Overfill` gives the input: nine times one key.
- A two-bit tag is written by setting bits only, so a slot is never cleared. The filter is
  modelled for the other widths; `TwoBitTags.ReadsBack` says exactly when a two-bit tag reads
  back as written.
- In the concurrent cache a step is what happens between locking and unlocking, or one
  atomic exchange, which may fail without reason; wash-out is clearing any bucket at any
  time. `lost` in the state is a history variable.
- The mirror-image loops of the interval heap are written once, for the ends that move, and
  used with the ends exchanged and the order reversed for the other side; the container of
  pairs is kept as two arrays of equal length.
- HugeDB is single-threaded and its partitions are finite maps. An exception is a status. One
  that is thrown while merging leaves `mergeLock_` locked, so that the next merge would wait
  for ever; accordingly the model allows no operation after it. The exception of `delta` about
  an insert tag in memory comes after unlocking, and the store stays usable.
  `insertValue` is documented to leave an existing key alone and to insert otherwise; the
  code fails that when a deletion in memory hides a value on disk, and `HdbSteps.WriteInsert`
  says exactly when; `HugeDB.Resurrect` reaches such a state. Merging the newest partitions forgets a deletion that an insert or a
  delta follows; `HdbTags.MergedAlways` says exactly when it does not matter.
- `validate_structure` is documented to take fields without restriction, but a negative
  `tm_mon` makes it look outside its table of month lengths, where the outcome is undefined;
  `Tm.ValidateStructure` and `Tm.MkGmTime` say that this is exactly when they fail.
- The skiplist draws levels from 1 to 32. A node of level 32 is linked right, but sets
  `mHighestLevel` to 32, where the next scan starts past the pointer table: `Skiplist.Insert`
  says that this is the only level after which the list is not usable.
- Properties of a document are printed in the order in which the container yields them.

## Model

| member | source | states |
|---|---|---|
| Ordering.SortedStableUnique | include/util/timsort.hpp:111-148 | sortedness and stability together determine the result: there is one stable sort of a sequence |
| Ordering.StableIsPermutation | include/util/timsort.hpp:111-148 | a stable rearrangement is a permutation |
| TimSorting.Sort | include/util/timsort.hpp:111-148 | for every array, range and strict weak order the range ends sorted, a permutation, with equivalent elements in their old order, and nothing outside changes |
| TimSorting.SortRange | include/util/timsort.hpp:111-124 | the same for the three size cases |
| TimSorting.SortRuns | include/util/timsort.hpp:126-147 | the run loop consumes the whole range and force-collapse leaves one run covering it |
| TimSorting.OneRun | include/util/timsort.hpp:144-147 | a single run that tiles the range is the sorted range |
| TimSorting.TimSort.AddRun | include/util/timsort.hpp:129-141 | one turn: the stack tiles the longer prefix with sorted, contiguous, non-empty runs, stably rearranged |
| TimSorting.TimSort.JoinEntries | include/util/timsort.hpp:260-281 | the stack entries after a merge: lengths summed, one entry less |
| TimSorting.TimSort.MergeAt | include/util/timsort.hpp:258-305 | called at one of the two last positions, joins two neighbouring runs and keeps the tiling |
| TimSorting.TimSort.MergeCollapse | include/util/timsort.hpp:225-243 | terminates with the tiling kept, the last two lengths decreasing and the third above their sum |
| TimSorting.TimSort.MergeForceCollapse | include/util/timsort.hpp:245-256 | terminates with one run covering everything |
| RunStack.TiledMerged | include/util/timsort.hpp:265-281 | joining two neighbours keeps a tiling of the same total length |
| Runs.CountRun | include/util/timsort.hpp:181-205 | the longest natural run at the start, and whether it descends |
| Runs.CountRunAndMakeAscending | include/util/timsort.hpp:181-205 | the longest natural run, reversed stably if it strictly descends |
| Runs.Reverse | include/util/timsort.hpp:195-195 | reverses the range in place |
| Runs.InsertionPoint | include/util/timsort.hpp:158-173 | binary search for the place behind all elements not greater than the pivot |
| Runs.Insert | include/util/timsort.hpp:174-177 | shifts and drops the pivot in place |
| Runs.BinarySort | include/util/timsort.hpp:151-179 | sorts the range stably from a sorted prefix |
| Runs.MakeRun | include/util/timsort.hpp:129-135 | a sorted run of at least the minimal length or all that is left |
| MinRun.MinRunLength | include/util/timsort.hpp:207-217 | n divided by a power of two and rounded up: by 1 below 32, and otherwise by the power that brings n between 16 and 32 |
| Galloping.GallopLeft | include/util/timsort.hpp:307-365 | from any hint, the number of elements strictly less than the key |
| Galloping.GallopRight | include/util/timsort.hpp:367-425 | from any hint, the number of elements not greater than the key |
| Merging.MergeSortsStably | include/util/timsort.hpp:427-550 | the reference merge of two sorted sequences is sorted and stable |
| InPlaceMerge.Merger.MergeLo | include/util/timsort.hpp:427-550 | on trimmed runs, leaves the range sorted and stably rearranged; the impossible branch is not reached |
| InPlaceMerge.Merger.MergeHi | include/util/timsort.hpp:552-680 | the same from the right end |
| InPlaceMerge.Merger.LoLinear | include/util/timsort.hpp:457-478 | the one-pair-at-a-time phase keeps the merge invariant |
| InPlaceMerge.Merger.LoGallop | include/util/timsort.hpp:483-522 | the galloping phase keeps the merge invariant |
| InPlaceMerge.Merger.HiLinear | include/util/timsort.hpp:585-606 | the one-pair-at-a-time phase from the right keeps the merge invariant |
| InPlaceMerge.Merger.HiGallop | include/util/timsort.hpp:611-650 | the galloping phase from the right keeps the merge invariant |
| Trimming.Trimmed | include/util/timsort.hpp:283-298 | what galloping leaves: run 1's last element exceeds all of run 2, run 2's first precedes all of run 1 |
| Trimming.TrimmedSorted | include/util/timsort.hpp:283-304 | merging only the trimmed parts sorts the whole two runs |
| Trimming.MergeRuns | include/util/timsort.hpp:283-304 | two sorted neighbours become one sorted run, stably |
| Copying.ForwardCopyIsSplice | include/util/timsort.hpp:571-571 | an upward copy loop equals a simultaneous copy exactly when the target is not inside the rest of the source |
| FieldSearch.HasValueExact | include/util/CuckooFilter.h:42-52 | the haszero and hasvalue bit tricks find a value exactly when one of the four fields has it, for every width up to 16 |
| TwoBitTags.Joined | include/util/CuckooFilter.h:183-186 | a two-bit write joins the tag to the old one and leaves the other tags |
| TwoBitTags.ReadsBack | include/util/CuckooFilter.h:183-186 | a two-bit tag reads back as written exactly when the old tag has no bit outside it |
| TwoBitTags.NeverCleared | include/util/CuckooFilter.h:315 | clearing a two-bit tag changes nothing |
| TwoBitTags.StaysByte | include/util/CuckooFilter.h:185 | the write of a two-bit tag needs no truncation to the byte |
| PowerSizing.UpperPower2Least | include/util/CuckooFilter.h:54-65 | the least power of two not below x, exactly for 1 <= x <= 2^63; 0 otherwise |
| PowerSizing.BucketCountFits | include/util/CuckooFilter.h:423-434 | from four keys on the bucket count is a power of two that takes the requested keys at a load of at most 0.96 |
| PowerSizing.BucketCountLeast | include/util/CuckooFilter.h:423-434 | and it is the least such power of two |
| PowerSizing.NoBuckets | include/util/CuckooFilter.h:423-434 | fewer than four requested keys give no bucket |
| PowerSizing.BucketsFromFour | include/util/CuckooFilter.h:423-434 | the bucket count is a power of two exactly from four requested keys on, and otherwise 0 |
| Packing.ReadWritten | include/util/CuckooFilter.h:141-229 | writing a tag changes that tag to the value's low bits and no other, for widths 4, 8, 12, 16 and 32 |
| Packing.FindTagExact | include/util/CuckooFilter.h:231-306 | searching a bucket finds exactly the tags it holds, whatever bytes follow it |
| CuckooEntries.AltIndexInverse | include/util/CuckooFilter.h:383-392 | on a power of two of buckets the alternate index is its own inverse |
| CuckooHashing.AltIndexSeparates | include/util/CuckooFilter.h:383-392 | from one bucket two tags go to the same other bucket exactly when they agree modulo the number of buckets |
| CuckooHashing.AltIndexSame | include/util/CuckooFilter.h:383-392 | the two buckets of a tag are one exactly when the number of buckets divides it |
| CuckooHashing.IndexHashTurns | include/util/CuckooFilter.h:101-105 | hashes go to the buckets in turn |
| CuckooHashing.TagHashSeparates | include/util/CuckooFilter.h:107-113 | different low bits give different tags, except for 0 and 1 |
| CuckooEntries.EntryEqual | include/util/CuckooFilter.h:383-392 | two stored tags are the same entry exactly when tags agree and the buckets form a pair |
| CuckooEntries.EntriesUpdated | include/util/CuckooFilter.h:178-229 | writing a slot exchanges what it held for what it holds |
| CuckooEntries.EntriesMember | include/util/CuckooFilter.h:231-268 | an entry is held exactly when one of its two buckets has its tag |
| CuckooEntries.AtMostEight | include/util/CuckooFilter.h:72 | the table holds an entry at most eight times |
| CuckooChain.RoomSettles | include/util/CuckooFilter.h:493-514 | with an empty slot in one of its two buckets a tag finds a place, at the latest at the second attempt |
| TagTable.SingleTable.ReadTag | include/util/CuckooFilter.h:141-175 | the tag at a slot |
| TagTable.SingleTable.WriteTag | include/util/CuckooFilter.h:178-229 | the slot's tag and no other changes |
| TagTable.SingleTable.FindTagInBucket | include/util/CuckooFilter.h:270-306 | found exactly when the bucket has the tag |
| TagTable.SingleTable.FindTagInBuckets | include/util/CuckooFilter.h:231-268 | found exactly when one of the buckets has the tag |
| TagTable.SingleTable.DeleteTagFromBucket | include/util/CuckooFilter.h:308-320 | clears one slot with the tag, if any |
| TagTable.SingleTable.InsertTagToBucket | include/util/CuckooFilter.h:322-340 | fills an empty slot, or with kickout takes the place of an arbitrary tag and returns it |
| TableMoves.Move | include/util/CuckooFilter.h:499-514 | one link of the chain: fills an empty slot, or moves on from a full bucket, at first only to the other bucket and then in exchange for a tag; the table with the homeless tag holds what it held with the tag before |
| TableMoves.Insert | include/util/CuckooFilter.h:493-521 | whatever the kick-outs, the entry is added, or exactly one entry of them all is left homeless, and that only after 500 moves, each from a full bucket |
| TableMoves.Take | include/util/CuckooFilter.h:560-569 | clears a slot of the first of the two buckets that has the tag, exactly when the entry is held |
| TableMoves.Find | include/util/CuckooFilter.h:536-540 | the entry is in the table |
| CuckooFiltering.CuckooFilter.constructor | include/util/CuckooFilter.h:423-434 | an empty filter of the computed size, usable exactly when at least four keys were requested |
| CuckooFiltering.CuckooFilter.AddEntry | include/util/CuckooFilter.h:493-521 | adds exactly one entry, to the table whenever one of its buckets has an empty slot, and otherwise after a chain that stashes a tag only after 500 moves from full buckets; keeps the key count that of the occupied slots |
| CuckooFiltering.CuckooFilter.Add | include/util/CuckooFilter.h:477-488 | refused exactly when the stash is used, otherwise one more entry; into the table whenever one of its buckets has an empty slot, and stashed only after 500 moves from full buckets |
| CuckooFiltering.CuckooFilter.Contain | include/util/CuckooFilter.h:525-546 | Ok exactly when the key's entry is held; over the run so far, every key added and not deleted is found, and a positive answer means a live key with the same buckets and tag |
| CuckooFiltering.CuckooFilter.Answer | include/util/CuckooFilter.h:525-546 | after any run that deletes only live keys, an entry is held exactly when a live key has it |
| CuckooFiltering.CuckooFilter.Delete | include/util/CuckooFilter.h:552-589 | Ok exactly when the key's entry is held, and then removes exactly one, from the table if it is there and else the victim; after a removal from the table the stashed entry is placed again |
| CuckooFiltering.CuckooFilter.EliminateVictim | include/util/CuckooFilter.h:580-588 | places the victim again, with success whenever one of its buckets has an empty slot; the contents stay |
| CuckooFiltering.CuckooFilter.Size | include/util/CuckooFilter.h:460-464 | the number of entries held, without the victim |
| CuckooFiltering.CuckooFilter.VictimNeeded | include/util/CuckooFilter.h:516-519 | an entry held more than eight times is the victim too |
| CuckooFiltering.CuckooFilter.Overfill | include/util/CuckooFilter.h:460-464 | in every filter, adding any key nine times leaves Size one short of what the filter holds |
| CuckooRuns.ContentsAreLive | include/util/CuckooFilter.h:477-589 | in every run that deletes only live keys the contents are exactly the images of the live keys |
| CuckooRuns.NoFalseNegatives | include/util/CuckooFilter.h:4-7 | a live key is found in every such run |
| CuckooRuns.PositiveHasLiveKey | include/util/CuckooFilter.h:20-20 | a false positive comes from a live key with the same buckets and tag |
| BucketList.Put | include/cache/concurrent_cache.hpp:206-227 | the value of the key replaced or a pair appended, other keys unaffected, keys stay distinct |
| BucketList.Find | include/cache/concurrent_cache.hpp:247-259 | the value of the first pair with the key |
| BucketList.Erase | include/cache/concurrent_cache.hpp:270-278 | the key gone, other keys unaffected |
| CacheState.InitLists | include/cache/concurrent_cache.hpp:134-142 | every slot once in the list of its index modulo 16, counters right, as many in each list as there are such indices |
| CacheState.SameBucket | include/cache/concurrent_cache.hpp:422-426 | keys share a bucket exactly when their hashes differ by a multiple of the number of buckets |
| SlotPlaces.FreePop | include/cache/concurrent_cache.hpp:163-170 | taking the first slot of a list |
| SlotPlaces.FreePush | include/cache/concurrent_cache.hpp:438-447 | giving a slot back to the list of its index modulo 16 |
| CacheSafety.InsertKeeps | include/cache/concurrent_cache.hpp:148-158 | locking a bucket, or updating one in use, leaves all slots in place |
| CacheSafety.PopKeeps | include/cache/concurrent_cache.hpp:159-175 | a popped slot is held by the thread and by nobody else; CacheProgress.PopTakes says when one is popped |
| CacheSafety.ExchangeKeeps | include/cache/concurrent_cache.hpp:176-189 | a claimed slot stays held; after a failed exchange it is dropped |
| CacheSafety.PublishKeeps | include/cache/concurrent_cache.hpp:177-182 | the slot becomes the bucket's, with matching back pointer |
| CacheSafety.EmptiedKeeps | include/cache/concurrent_cache.hpp:449-482 | clearing a bucket puts its slot into the thread's hands |
| CacheSafety.RemoveKeeps | include/cache/concurrent_cache.hpp:263-286 | so does removing the last key |
| CacheSafety.GiveBackKeeps | include/cache/concurrent_cache.hpp:438-447 | the held slot is free again, once |
| CacheSafety.StepKeepsPlaces | include/cache/concurrent_cache.hpp:127-286 | every step of every thread keeps each slot in one place and moves it only along the allowed ways |
| CacheContents.StepKeepsOrder | include/cache/concurrent_cache.hpp:148-286 | every step keeps buckets empty exactly when they have no slot, keys distinct and hashed right |
| CacheContents.StepMeans | include/cache/concurrent_cache.hpp:148-286 | what every step does to what a reader finds |
| CacheRuns.RunInvariant | include/cache/concurrent_cache.hpp:127-286 | the invariant holds in every state of every interleaving |
| CacheRuns.AlwaysSafe | include/cache/concurrent_cache.hpp:296-361 | in every state of every interleaving each slot is in exactly one place, free in its own list, back pointers match, counters are list lengths, and both checks of check_correctness succeed |
| CacheRuns.PlacedInOne | include/cache/concurrent_cache.hpp:134-142 | a placed slot is in exactly one of: its free list, a bucket, a thread's hands, dropped |
| CacheRuns.ClaimsAreFree | include/cache/concurrent_cache.hpp:153-189 | the assertion in insert holds, a popped index is in range and unused, so an exchange fails only for no reason |
| CacheRuns.LostForever | include/cache/concurrent_cache.hpp:184-188 | a slot dropped after a failed exchange never comes back |
| CacheRuns.StarvedList | include/cache/concurrent_cache.hpp:158-175 | once all slots of a list are dropped, its empty buckets stay empty in every continuation |
| CacheRuns.GetFindsLatest | include/cache/concurrent_cache.hpp:234-261 | in every interleaving get finds a value exactly when an effective insert wrote it and nothing touched the key since |
| CacheProgress.InsertInUse | include/cache/concurrent_cache.hpp:206-235 | in every reachable state an insert into a bucket in use writes the value at once, unless the key is there and is not to be overwritten, and touches no other key |
| CacheProgress.PopTakes | include/cache/concurrent_cache.hpp:155-176 | an insert into an empty bucket takes the first free slot of the list, and gives up only when the list has none |
| CacheProgress.ExchangeClaims | include/cache/concurrent_cache.hpp:177-192 | a successful exchange leads on to the publication, a failed one drops the slot and gives up |
| CacheProgress.PublishShows | include/cache/concurrent_cache.hpp:178-183 | readers then find the value, other keys are untouched, and the slot is the bucket's |
| CacheProgress.InsertCanSucceed | include/cache/concurrent_cache.hpp:148-205 | whenever the list has a free slot the four steps of an insert can be taken |
| CacheProgress.InsertSucceeds | include/cache/concurrent_cache.hpp:148-205 | and every such run ends with readers finding the value |
| CacheProgress.RemoveErases | include/cache/concurrent_cache.hpp:263-286 | the key is gone and no other; with the last key of its bucket the slot goes into the thread's hands |
| CacheProgress.ClearErases | include/cache/concurrent_cache.hpp:468-482 | exactly the keys of the bucket are gone, and its slot is in the thread's hands |
| CacheProgress.GiveBackFrees | include/cache/concurrent_cache.hpp:438-446 | the slot is free again, behind those of its list |
| CacheProgress.NeverStuck | include/cache/concurrent_cache.hpp:148-286 | a thread inside an operation can always go on |
| CacheProgress.LostOnlyByExchange | include/cache/concurrent_cache.hpp:184-188 | a slot is lost only by a failed exchange |
| IntervalOrder.RootFirst | include/am/interval_heap.hpp:327-349 | the root's interval contains all others |
| IntervalOrder.SinkStep | include/am/interval_heap.hpp:274-286 | one step down keeps the order around the sinking element |
| IntervalOrder.RiseStep | include/am/interval_heap.hpp:153-158 | one step up keeps the order around the rising element |
| IntervalOrder.Mirror | include/am/interval_heap.hpp:291-325 | the heap is its own mirror image with ends exchanged and order reversed |
| IntervalSifting.Sink | include/am/interval_heap.hpp:271-288 | ends in a heap that holds the same elements; an element below the half-filled node's never sinks into it |
| IntervalSifting.Rise | include/am/interval_heap.hpp:151-159 | ends in a heap with the value added on the moving side |
| IntervalEnds.PopEnd | include/am/interval_heap.hpp:255-325 | one element less, the root's, and a heap again |
| IntervalEnds.ReplaceEnd | include/am/interval_heap.hpp:185-253 | the root's element exchanged for the value, and a heap again |
| IntervalHeaps.IntervalHeap.Insert | include/am/interval_heap.hpp:111-183 | the contents plus the value; a full heap ignores it |
| IntervalHeaps.IntervalHeap.PopMin | include/am/interval_heap.hpp:255-289 | the contents minus the minimum |
| IntervalHeaps.IntervalHeap.PopMax | include/am/interval_heap.hpp:291-325 | the contents minus the maximum |
| IntervalHeaps.IntervalHeap.ReplaceMin | include/am/interval_heap.hpp:185-218 | the contents minus the minimum plus the value |
| IntervalHeaps.IntervalHeap.ReplaceMax | include/am/interval_heap.hpp:220-253 | the contents minus the maximum plus the value |
| IntervalHeaps.IntervalHeap.GetMin | include/am/interval_heap.hpp:327-337 | a held element not above any other |
| IntervalHeaps.IntervalHeap.GetMax | include/am/interval_heap.hpp:339-349 | a held element not below any other |
| IntervalHeaps.IntervalHeap.Bounded | include/am/interval_heap.hpp:327-349 | every element lies between the root's ends |
| IntervalHeaps.IntervalHeap.Clear | include/am/interval_heap.hpp:84-90 | holds nothing afterwards |
| HdbTags.CombineMeans | include/hdb/MultiSDBCursor.h:225-283 | what the combining state means on top of any reading below |
| HdbTags.MergedReading | include/hdb/MultiSDBCursor.h:225-283 | a combined tag reads like its tags exactly when they have no deletion, end in one, or have an update after the last, or the difference does not show below |
| HdbTags.MergedAlways | include/hdb/HugeDB.h:685-754 | it reads like them over every reading below exactly when they are mergeable, if every value differs from some other and from its sum with some value |
| HdbValues.ProperExactly | include/hdb/HugeDB.h:437-488 | the readings that MergedAlways ranges over are exactly those that partitions below can give |
| HdbTags.MergedAll | include/hdb/HugeDB.h:531-541 | over nothing it always does |
| HdbTags.MergeLosesInsert | include/hdb/HugeDB.h:717-722 | deleting and inserting over an older value: the merge brings the older value back |
| HdbTags.FailsExactly | include/hdb/MultiSDBCursor.h:225-283 | tags fail to combine exactly when a delta follows an insert that is first or directly behind a deletion, with no deletion between them |
| HdbCursor.MultiCursor.Select | include/hdb/MultiSDBCursor.h:173-207 | the first key, the first partition that has it, and whether another has it too |
| HdbCursor.MultiCursor.CombineFrom | include/hdb/MultiSDBCursor.h:225-271 | starting at that partition combines all tags of the key, and throws exactly when they conflict in that way |
| HdbCursor.MultiCursor.Next | include/hdb/MultiSDBCursor.h:127-135 | moves to the first remaining key with the combination of its tags, or reports the end |
| HdbMerging.Drain | include/hdb/HugeDB.h:714-724 | visits every key of any partition exactly once in ascending order, with its combined tag; throws exactly when some key's tags conflict |
| HdbValues.FlushKeeps | include/hdb/HugeDB.h:756-796 | flushing changes no reading |
| HdbValues.MergeKeeps | include/hdb/HugeDB.h:685-754 | exactly when merging the newest partitions leaves a key's reading alone |
| HdbValues.OptimizeKeeps | include/hdb/HugeDB.h:500-565 | merging everything and dropping deletions changes no reading |
| HdbValues.PlainMerge | include/hdb/HugeDB.h:685-754 | for every key only updated and deleted, only updated and incremented, or never deleted, whatever is done to other keys, a merge keeps agreement with a plain map |
| HdbValues.PlainFlush | include/hdb/HugeDB.h:756-796 | and so does a flush |
| HdbValues.PlainOptimize | include/hdb/HugeDB.h:500-565 | and so does optimize |
| HdbLevels.MergeLevels | include/hdb/HugeDB.h:695-741 | a merge keeps levels non-increasing and the weighted sum |
| HdbLevels.NewestAlike | include/hdb/HugeDB.h:665-681 | the newest mergeFactor levels are equal |
| HdbLevels.LevelsDetermined | include/hdb/HugeDB.h:158-164 | levels between operations are the base-M digits of the flush count: unique for it |
| HdbPartitions.MergedNamed | include/hdb/HugeDB.h:696-697 | after a merge every partition has the name that getSdbName gives its position and level |
| HdbPartitions.NameInjective | include/hdb/HugeDB.h:612-619 | different positions or levels have different names |
| HdbPartitions.NamesDiffer | include/hdb/HugeDB.h:112-122 | no two partitions have the same name |
| HdbSteps.WriteDelta | include/hdb/HugeDB.h:387-430 | newvalue := oldvalue + delta, with ValueType() for an absent key |
| HdbSteps.WriteInsert | include/hdb/HugeDB.h:338-354 | insertValue leaves an existing key alone and inserts otherwise, exactly when no deletion in memory hides another value on disk |
| HdbSteps.PlainInsert | include/hdb/HugeDB.h:345-353 | inserting a key that is never deleted keeps agreement with inserting into a plain map |
| HdbSteps.InsertAfterDelete | include/hdb/HugeDB.h:338-354 | update, flush, del, insertValue: the old value is back |
| HdbCascade.MergedUnique | include/hdb/HugeDB.h:714-724 | the partition that a merge writes is determined by those it replaces |
| HdbCascade.CascadeKeeps | include/hdb/HugeDB.h:650-661 | the merges after a flush together keep the reading of every key without deletion on disk, however else it is used |
| HdbCascade.CascadeWithoutDelta | include/hdb/HugeDB.h:650-661 | inserts, updates and deletions alone never make the merges throw |
| HdbCascade.ReadyKeeps | include/hdb/HugeDB.h:642-663 | making room for an operation keeps the reading of every key that has no deletion on disk or in memory |
| HugeDBs.HugeDB.GetValue | include/hdb/HugeDB.h:437-488 | folds the tags from oldest to newest; for a key only updated and deleted, only updated and incremented, or never deleted, agrees with a plain map, wherever flushes, merges and optimize happen |
| HugeDBs.HugeDB.FlushRamSdb | include/hdb/HugeDB.h:756-796 | a new partition of level 0, all readings kept |
| HugeDBs.HugeDB.Mergable | include/hdb/HugeDB.h:665-681 | the newest mergeFactor partitions are of one level |
| HugeDBs.HugeDB.Merge | include/hdb/HugeDB.h:685-754 | succeeds exactly when no key's tags conflict, and then replaces the newest partitions by the one that holds the combined tags; a key with mergeable tags keeps its value; names and levels stay in order |
| HugeDBs.HugeDB.MergeAll | include/hdb/HugeDB.h:649-661 | ends as the cascade says, or throws exactly when the cascade has no end, with each level fewer than mergeFactor times |
| HugeDBs.HugeDB.TryToMerge | include/hdb/HugeDB.h:642-663 | changes nothing while memory has room, and otherwise flushes and runs the cascade; throws exactly when the cascade does; agreement with the map is kept, and nothing is thrown when every key is only updated and deleted or only updated and incremented |
| HugeDBs.HugeDB.Optimize | include/hdb/HugeDB.h:500-565 | at most one partition, every key's value kept; throws exactly when there are two partitions or more and some key's tags conflict |
| HugeDBs.HugeDB.Update | include/hdb/HugeDB.h:356-367 | after making room, which alone may throw, the key reads as the value and no other key changes, and the plain map is updated |
| HugeDBs.HugeDB.Del | include/hdb/HugeDB.h:369-385 | after making room, which alone may throw, the key is absent and no other key changes, and the plain map loses it |
| HugeDBs.HugeDB.AddDelta | include/hdb/HugeDB.h:387-430 | after making room, adds the delta to the key's value and changes no other key, or throws exactly on an insert tag in memory and leaves a usable store; the plain map's value is incremented, and a key used in mixed ways leaves the others agreeing with it |
| HugeDBs.HugeDB.DeltaInMemory | include/hdb/HugeDB.h:407-429 | adds the delta to the key's value, or throws exactly on an insert tag in memory; other keys go on agreeing with the plain map |
| HugeDBs.HugeDB.InsertInMemory | include/hdb/HugeDB.h:345-353 | meets its documentation exactly when it does not resurrect |
| HugeDBs.HugeDB.InsertValue | include/hdb/HugeDB.h:338-354 | after making room, which alone may throw, leaves an existing key alone and inserts otherwise, exactly when no deletion in memory hides another value on disk; agrees with inserting into the plain map for keys that are never deleted |
| HugeDBs.HugeDB.Resurrect | include/hdb/HugeDB.h:338-354 | update, optimize, del, insertValue of another value: the key is absent before the insertion and has its old value after it; from an empty database nothing throws |
| SkiplistNodes.FirstInserted | include/am/skiplist.h:749-771 | which pointers a new node captures |
| SkiplistLinks.SpliceIn | include/am/skiplist.h:754-771 | after splicing, the level's chain is exactly the nodes taller than the level |
| SkiplistLinks.SpliceOut | include/am/skiplist.h:837-838 | after bypassing, the level's chain is exactly the remaining nodes taller than the level |
| SkiplistLinks.LinkedInserted | include/am/skiplist.h:754-771 | with every level it reaches spliced, the new list is wired right at all levels |
| SkiplistLinks.LinkedRemoved | include/am/skiplist.h:837-838 | with every level it reaches bypassed, the shorter list is wired right at all levels |
| Skiplists.BottomPivot | include/am/skiplist.h:682-693 | at the bottom the search stands where the key belongs |
| Skiplists.StopsPrecedes | include/am/skiplist.h:678-680 | where it stopped at a level is the pointer that a new node must take over |
| Skiplists.Skiplist.Walk | include/am/skiplist.h:672-676 | stops at the last table of the level whose node precedes the key |
| Skiplists.Skiplist.FindNode | include/am/skiplist.h:600-634 | the node with an equivalent key, or null when there is none |
| Skiplists.Skiplist.FindNodeAndPredecessors | include/am/skiplist.h:655-693 | the place of the key and, per level, the table that precedes it |
| Skiplists.Skiplist.Insert | include/am/skiplist.h:723-785 | whatever the level drawn, from 1 to 32, inserts at the key's place unless an equivalent key is there, with all levels linked right; the next scan starts inside the pointer table exactly when the level is below 32 |
| Skiplists.Skiplist.Erase | include/am/skiplist.h:820-855 | removes exactly the entry with an equivalent key, and lowers the highest level to one with a node |
| Skiplists.Skiplist.Lower | include/am/skiplist.h:843-848 | the highest level with a node, or 0 |
| Skiplists.Copy | include/am/skiplist.h:862-872 | copies the entries in order; all of them exactly when no level before the last is 32 |
| LfuRows.Insert | include/cache/LRLFUCacheContainer.h:42-53 | the entry becomes the newest, all links agree |
| LfuRows.Unlink | include/cache/LRLFUCacheContainer.h:249-257 | the other entries stay linked in order |
| LfuRows.Evict | include/cache/LRLFUCacheContainer.h:55-70 | the oldest leaves |
| LfuGroups.PushFront | include/cache/LRLFUCacheContainer.h:229-233 | a node before all others |
| LfuGroups.PushBehind | include/cache/LRLFUCacheContainer.h:261-266 | a node behind a given one |
| LfuGroups.Remove | include/cache/LRLFUCacheContainer.h:270-280 | the other nodes stay linked in order |
| LfuCache.Promote | include/cache/LRLFUCacheContainer.h:249-283 | the entry moves to the next frequency as its newest; nodes stay non-empty, counted and ascending |
| LfuCache.Touch | include/cache/LRLFUCacheContainer.h:241-284 | both paths of a touch keep the structure and the entries |
| LfuCache.Container.FirstInsert | include/cache/LRLFUCacheContainer.h:223-239 | one more entry, of frequency 1, touched last |
| LfuCache.Container.Replace | include/cache/LRLFUCacheContainer.h:241-284 | the entry's frequency grows by one and it is touched last; no other entry changes its frequency or time |
| LfuCache.Container.Evict | include/cache/LRLFUCacheContainer.h:286-301 | the entry with the least frequency, and of these the least recent touch, goes |
| LfuCache.Container.FirstIsLeast | include/cache/LRLFUCacheContainer.h:286-291 | the oldest entry of the coldest node comes first in the order of eviction |
| LrlfuCache.Cache.Replace | include/cache/IzeneCacheTraits.h:228-235 | touches the entry of the key, which its iterator points to, and no other |
| LrlfuCache.Cache.FirstInsert | include/cache/IzeneCacheTraits.h:237-246 | the key in both hash table and container, with a matching iterator; the hash table has room |
| LrlfuCache.Cache.Evict | include/cache/IzeneCacheTraits.h:248-262 | the coldest key leaves both |
| LrlfuCache.Cache.GetValue | include/cache/IzeneCache.h:226-243 | the value of the key, and a hit counts as a touch; nodes linked in are new |
| LrlfuCache.Cache.InsertValue | include/cache/IzeneCache.h:250-275 | an existing key keeps its value and is touched; a new one goes in with a new entry, in the place of the coldest key exactly when the cache is full; never more keys than the capacity; nodes linked in are new |
| LrlfuCache.Cache.UpdateValue | include/cache/IzeneCache.h:84-106 | an existing key gets the value and is touched; a new one goes in with a new entry, in the place of the coldest key exactly when the cache is full; nodes linked in are new |
| FilterQueue.Retreat | include/util/minmax.h:65-73 | the deque after giving way to the new element, with the comparisons counted |
| MinMaxFilter.NotBoth | include/util/minmax.h:77-80 | both deque fronts never expire in one step |
| MinMaxFilter.Filter | include/util/minmax.h:46-89 | the exact minimum and maximum of every window, with at most three comparisons per element |
| Gregorian.YearByYear | source/util/mkgmtime.cpp:32-33 | the closed-form day count of section 4.16 of POSIX.1-2017 grows by the days of each year, before 1970 too |
| Gregorian.LeapRule | source/util/mkgmtime.cpp:32-33 | in civil years: divisible by 400, or by 4 and not by 100 |
| Gregorian.MonthLengths | source/util/mkgmtime.cpp:24-27 | 31 and 30 days in turn from March on, beginning anew in August |
| Gregorian.MonthFormula | source/util/mkgmtime.cpp:29-30 | the first day of every month in closed form |
| GregorianTime.LookupInTable | source/util/mkgmtime.cpp:72-105 | the first look into the table of month lengths is inside it exactly when the month is not negative |
| GregorianTime.MonthBeforeFirst | source/util/mkgmtime.cpp:91-105 | month -1 stands for December of the year before, but is looked up outside the table |
| GregorianTime.Tm.ValidateStructure | source/util/mkgmtime.cpp:35-118 | puts every field in range and keeps the instant, exactly when the month is not negative; otherwise it looks outside its table |
| GregorianTime.Tm.DaysInOtherYears | source/util/mkgmtime.cpp:148-159 | summing year by year equals the closed form |
| GregorianTime.Tm.MkGmTime | source/util/mkgmtime.cpp:120-229 | exactly when the month is not negative: the seconds since the Epoch of the instant, -1 outside the years covered, with day of year, weekday and daylight saving flag |
| ScdFormat.DocToString | source/sf1common/ScdWriter.cpp:164-190 | prints DOCID first and the others in order, nothing without a DOCID |
| ScdFormat.ParseDoc | source/sf1common/ScdParser.cpp:667-784 | computes the line-by-line reading of the text, which ParseExactly pins for every text |
| ScdFormat.ParseWellFormed | source/sf1common/ScdParser.cpp:692-784 | whatever the text, names are valid and values clean |
| ScdFormat.ParseExactly | source/sf1common/ScdParser.cpp:667-784 | for every text: the result is the one well-formed document whose lines are those of the text, but for white space at line ends, blank lines, and lines before the first tag |
| ScdFormat.ParseStripped | source/sf1common/ScdParser.cpp:697-710 | texts whose lines differ only by trailing white space or by blank lines parse alike |
| ScdFormat.PaddedRoundTrip | source/sf1common/ScdParser.cpp:697-710 | a document printed with any white space behind its lines, such as carriage returns, still comes back |
| ScdLines.TrimRight | source/sf1common/ScdParser.cpp:697-709 | cuts off all trailing white space and nothing else |
| ScdLines.SpaceCodes | source/sf1common/ScdParser.cpp:688 | which characters are white space |
| ScdLines.TagExactly | source/sf1common/ScdParser.cpp:713-753 | a line is a tag line exactly when it starts with a valid name in angle brackets |
| ScdLines.TagLengths | source/sf1common/ScdParser.cpp:683-735 | names have 1 to 20 letters and digits |
| ScdLines.LinesOpen | source/sf1common/ScdParser.cpp:694 | a last line needs no newline |
| ScdFormat.RoundTrip | source/sf1common/ScdParser.cpp:667-784 | parsing what was printed gives the document back exactly when names are valid and values clean |
| ScdFormat.WriteAndRead | source/sf1common/ScdParser.cpp:667-784 | parsing what DocToString returns gives DOCID first and then the rest in order, exactly when names are valid and values clean |

## Left out

- TimSorting.Sort: `int` truncation of offsets and the overflow guard of galloping are not modelled, because integers are unbounded here.
- Cuckoo filter: filters of two-bit tags, beyond what reading and writing them does, and `Info()`.
- CuckooFiltering.CuckooFilter.constructor: the load factor is compared over exact numbers, not in floating point.
- Concurrent cache: access times and counters, the choice of wash-out victims, hit statistics, and casts of bucket numbers above 2^31.
- Concurrent cache: the choice of the number of buckets from a table of primes; any positive number is allowed.
- Interval heap: `reserve` and direct access to the container.
- HugeDB: concurrency, files, backward cursors, `seek`, deletion counters and modification stamps, and the build without delta support.
- HugeDBs.HugeDB.Optimize: the cursor there also runs over the memory partition, which is empty at that point.
- Skiplist: assignment through returned references, iterators, comparison and swap.
- LRLFU: `clear`, `del`, for which the container has no `erase`, changing the capacity, hit statistics and locks; memory is not freed.
- MinMaxFilter.Filter: a window of 0 is not modelled.
- GregorianTime.Tm.MkGmTime: what happens after a look outside the table; `fastmktime` and daylight saving depend on the platform.
- SCD: reading documents from a file, encodings, and property types other than strings.
- Local caches, hash containers, serialization, memory pools, compression, networking, JSON and the floating-point utilities of the library.
