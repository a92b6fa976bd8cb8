# A verified model of terse-dsa

terse-dsa is a C23 library of containers, span algorithms and allocators. Nearly all of it is
loops over mutable state whose joint invariants live in comments. This project models the parts
where those invariants carry the most weight and proves them, in the form the source has them:
arrays sorted in place, rings and tables probed in place, nodes relinked through `next` and `prev`,
allocators stepping from state to state.

`dafny verify dfyconfig.toml` checks the whole project.

## What is proved, cluster by cluster

**Order algorithms** (`Order`, `Span`, `Merge`, `StableSort`, `Heap`, `Sort`, `Select`,
`Permutations`, `Shuffle`). Stability is stated once, without tags: the elements that compare equal to
any key form the same subsequence before and after. With sortedness that leaves one possible result
(`StableIsUnique`), and the buffered and the in-place merge, insertion sort and the bottom-up merge
sort are all proved to produce it. A comparator is either `honest`, a total preorder, or answers each
question any way it likes (`Order.Ask`); every sorting method is proved to terminate inside the span
and keep every element once in both cases. Recursion depth is a ghost budget that every nested call
must lower, so the logarithmic bounds hold for the calls actually made.

**Debug allocator** (`BlockTable`, `Ledger`, `DebugAlloc`). The open-addressing table is a finite map
through probing, growth and backward-shift deletion. Above it the allocator is a state machine over a
book of every block ever taken from the parent: live, waiting in the quarantine, or given back, and only
one of the three. A run over any operations keeps the book and the peak of the live bytes, refuses
exactly the requests it was told to, and stops the program only when client or parent did not keep to
their blocks.

**Containers** (`Deque`, `List`, `HMap`, `HSet`, `BitSet`). The deque is a sequence wherever its ring wraps.
The list is a sequence of nodes that keep address and element; sorting and merging relink them into
the one stable order although `prev` is stale in between. The hash map answers like a map of keys up
to the caller's equality, over any run of its operations, and its nodes survive rehashing. Bit sets are
sets of indices, scanned word by word.

**Region allocators** (`Arena`, `Slab`). Both are pure step functions with an invariant kept by
every step, and classes whose methods are proved to take those steps. Whole runs are lists of steps.

**Arithmetic** (`Rng`, `BoundedDraw`, `Ring`, `Bitwise`, `Arith`). Lemire's rejection method hits every
value equally often; the generator's step has an inverse and its state is never all zero; the masks
of the C code are remainders.

Conventions. Allocation failure is an input: a flag, or the address the parent offers, 0 for a
refusal. A failed `TDA_EXPECT` or a debug report is a `Halted` outcome, and the contracts say when it
cannot come up. Addresses are natural numbers. Values of `size_t` are unbounded naturals with the
source's own checks (`ckd_add`, `ckd_mul`, section 7.20 of ISO/IEC 9899:2024) written out against `SIZE_MAX`.

## Model

| member | source | states |
|---|---|---|
| `Order.StableIsPermutation` | include/tda/algo/sort.h:22-25 | equal subsequences for every key make a permutation |
| `Order.StableIsUnique` | include/tda/algo/sort.h:22-25 | sorted with equal elements in their old order: only one such sequence exists |
| `Order.MergeIsStable` | src/algo/merge.c:29-62 | merging two sorted runs, ties from the left, is the stable arrangement of both |
| `Order.MergeByCuts` | src/algo/merge.c:99-133 | cutting both runs so that nothing crosses, the halves merge apart |
| `Order.MergeEndsLeft` | src/algo/merge.c:181-206 | from the back, when a left element is the last of the merge |
| `Order.MergeEndsRight` | src/algo/merge.c:181-206 | from the back, when a right element is the last, a tie included |
| `Span.Reverse` | src/algo/permute.c:23-37 | the range reversed, everything else untouched |
| `Span.Rotate` | src/algo/permute.c:39-54 | the two parts of the range change places, in order |
| `Span.RotateByReversing` | src/algo/permute.c:39-54 | three reversals are a rotation |
| `MergeRuns.Bound` | src/algo/search.c:410-429 | the cut before which every element passes the test against the key and after which none does |
| `MergeRuns.MergeSpans` | src/algo/merge.c:29-62 | any two runs, wherever they lie, are merged into any place clear of both; with any comparator at all, each element of both once |
| `MergeRuns.ChooseCuts` | src/algo/merge.c:99-133 | halving the longer run and bisecting the other yields cuts that nothing crosses |
| `MergeRuns.MergeInPlace` | src/algo/merge.c:99-133 | by cut, bisect and rotate the span becomes the stable merge, within a depth that every nested call lowers |
| `MergeRuns.DepthOfHalves` | src/algo/merge.c:99-133 | parts of at most (3n+2)/4 elements each cost a level |
| `MergeRuns.DepthIsLogarithmic` | src/algo/merge.c:99-133 | that depth is at most 3 log2(n) + 1 |
| `MergeRuns.MergeForward` | src/algo/merge.c:157-179 | with the left run parked, the front is filled to the same merge, no unread element overwritten |
| `MergeRuns.MergeBackward` | src/algo/merge.c:181-206 | with the right run parked, the back is filled to the same merge, no unread element overwritten |
| `MergeRuns.InplaceMerge` | src/algo/merge.c:66-89 | the unique stable merge, with a buffer or without, whichever run is the shorter |
| `StableSort.RunsMerge` | src/algo/sort.c:105-149 | two stably sorted neighbours merge into one stably sorted run |
| `StableSort.PassStep` | src/algo/sort.c:105-149 | one pair of runs merged keeps all runs of the double width so far stably sorted |
| `StableSort.Pass` | src/algo/sort.c:105-149 | a pass doubles the width of the sorted runs and loses nothing, and no index it computes wraps |
| `StableSort.SortStable` | src/algo/sort.c:105-149 | sorted, stable and a permutation after any number of buffer swaps; refused memory leaves the span as it was |
| `Heap.SiftDown` | src/internal/heap.h:44-67 | a heap but for one node becomes a heap, the same elements, nothing outside moved |
| `Heap.RootIsGreatest` | src/internal/heap.h:20-37 | no element of a heap orders after its root |
| `Heap.MakeHeap` | src/algo/heap.c:11-19 | any range becomes a heap of its elements |
| `Heap.PopHeap` | src/algo/heap.c:31-42 | the root goes to the end and the rest is a heap again |
| `Heap.SortHeap` | src/algo/heap.c:46-54 | a heap becomes sorted, the same elements |
| `Sort.InsertionSlot` | src/algo/sort.c:297-306 | the slot after every element not greater |
| `Sort.InsertionSort` | src/algo/sort.c:63-92 | stably sorted; under any comparator, the same elements inside the range |
| `Sort.Median3` | src/algo/sort.c:234-248 | one of the three, and neither the sole least nor the sole greatest |
| `Sort.Ninther` | src/algo/sort.c:250-264 | of the nine elements sampled at least four are not greater than the pivot and at least four not smaller; with any comparator, an index of the range |
| `Sort.Partition3` | src/algo/sort.c:266-295 | less, equal, greater around the chosen pivot, in place; under any comparator, the same elements and a split inside the range |
| `Sort.QuickSort` | src/algo/sort.c:316-357 | sorted through insertion, three-way split and heapsort; nested calls never exceed log2 of the length |
| `Sort.SideFits` | src/algo/sort.c:316-357 | recursing into the shorter side costs a level of log2 |
| `Sort.SortSpan` | src/algo/sort.c:94-103 | a sorted permutation; under any comparator, a permutation of the range and of nothing else |
| `Select.NthElem` | src/algo/sort.c:172-207 | nothing before the position orders after it, nothing behind before it; under any comparator, a permutation |
| `Select.NthIsSortedNth` | src/algo/sort.c:172-207 | what stands there compares equal to what sorting would put there |
| `Select.PartialSort` | src/algo/sort.c:151-170 | the front sorted and nothing behind it smaller |
| `Select.FrontIsSortedFront` | src/algo/sort.c:151-170 | the front is, up to equality, the front of the sorted span |
| `Permutations.DescendingIsLast` | src/algo/permute.c:209-239 | a descending arrangement has none after it |
| `Permutations.StepForward` | src/algo/permute.c:209-239 | swapping pivot and mate and reversing the tail is the immediate lexicographic successor |
| `Permutations.StepWrap` | src/algo/permute.c:209-239 | the last arrangement wraps to the first |
| `Permutations.FindPivot` | src/algo/permute.c:209-239 | the longest descending tail and the ascent before it |
| `Permutations.FindMate` | src/algo/permute.c:209-239 | the last element of the tail that goes after the pivot |
| `Permutations.PermuteStep` | src/algo/permute.c:209-239 | ascending, the arrangement right after in the order of the comparator, descending the one right before, with none in between; false exactly past the last, which leaves the span sorted, or descending; a permutation under any comparator |
| `Permutations.BackAfterForward` | src/algo/permute.c:72-84 | prev after next restores the sequence up to equality, with the same answer |
| `Permutations.ForthAndBack` | src/algo/permute.c:72-84 | next_permutation and then prev_permutation leave every span as it was, wrapping included |
| `Permutations.RunVisitsEachOnce` | src/algo/permute.c:72-84 | from the first arrangement to the wrap, every arrangement comes up exactly once |
| `Permutations.StepClimbs` | src/algo/permute.c:209-239 | each step that finds an arrangement climbs in a numbering of them that is bounded |
| `Permutations.VisitAll` | include/tda/algo/permute.h:57-65 | the loop from a sorted span ends, has met every arrangement exactly once and leaves the span as it began |
| `Shuffle.ShuffleIsBijective` | src/algo/permute.c:177-187 | each arrangement of distinct elements comes from exactly one sequence of draws |
| `Shuffle.FirstDraw` | src/algo/permute.c:177-187 | each draw picks the element for the last place still open |
| `Shuffle.ShuffleSpan` | src/algo/permute.c:177-187 | the loop computes the arrangement of its draws |
| `Shuffle.PrefixIsBijective` | src/algo/permute.c:189-199 | each front of distinct elements comes from exactly one sequence of picks |
| `Shuffle.FirstPick` | src/algo/permute.c:189-199 | each pick, counted from its place, brings the element that stands there in the end |
| `Shuffle.ShufflePrefix` | src/algo/permute.c:189-199 | the loop computes the front of its picks |
| `Rng.MixIsBijective` | src/core/rng.c:207-214 | the output map of SplitMix64 has a two-sided inverse |
| `Rng.MixIs` | src/core/rng.c:207-214 | bit by bit: two rounds of xor-shift and product and a last xor-shift |
| `Rng.SeededWordsDiffer` | src/core/rng.c:44-56 | the four words of any seed differ, so the state is not all zero |
| `Rng.SeededWords` | src/core/rng.c:44-56 | the four words are the first four outputs of SplitMix64, at the multiples of its constant past the seed |
| `Rng.RetreatUndoesAdvance` | src/core/rng.c:222-245 | the xoshiro256++ step has a left inverse |
| `Rng.AdvanceInjective` | src/core/rng.c:222-245 | no two states step to the same one |
| `Rng.NonZeroStays` | src/core/rng.c:222-245 | a state that is not all zero never becomes it |
| `Rng.NeverAllZero` | src/core/rng.c:44-56 | for every seed and any number of draws the state is not all zero |
| `Rng.ScrambledBits` | src/core/rng.c:230-245 | the word less s0 is the sum of s0 and s3 with every bit 23 places up and around |
| `Rng.AdvanceBits` | src/core/rng.c:236-242 | the next state, word by word and bit by bit |
| `Rng.WordIsBijective` | src/core/rng.c:230-245 | with s0 fixed, word and s3 determine each other |
| `Rng.ReferenceStream` | test/core/test_rng.c:26-40 | the first draws from the seeds 0 and 42 are the published ones |
| `Rng.Generator.FromSeed` | src/core/rng.c:44-56 | the seeded state, its words those of SplitMix64 |
| `Rng.Generator.NextU64` | src/core/rng.c:222-245 | the word and the next state, each pinned bit by bit; the reseed branch exactly from the all-zero state |
| `Rng.Generator.Run` | src/core/rng.c:222-245 | any number of draws after seeding follows the stream, with no reseed |
| `BoundedDraw.ThresholdIs` | src/core/rng.c:74-121 | -range % range in word arithmetic is 2^W mod range, below the range, so skipping the test above it accepts the same draws |
| `BoundedDraw.HitsAreConsecutive` | src/core/rng.c:74-121 | the accepted raw draws of a value are one interval |
| `BoundedDraw.ExactlyUniform` | src/core/rng.c:74-121 | every value of the range is hit by exactly floor(2^W / range) accepted raw draws |
| `BoundedDraw.DrawMax` | src/core/rng.c:74-121 | the rejection loop returns the top half of the product of the first raw draw whose bottom half reaches 2^W mod range, at most max |
| `BoundedDraw.RangeIsExact` | src/core/rng.c:131-150 | the unsigned detour through lo + draw yields the signed value, for every range of the type |
| `Ring.MaskIsRemainder` | src/alloc/debug.c:444-541 | masking with 2^k - 1 takes the remainder |
| `Ring.MasksWalkTheRing` | src/alloc/debug.c:454-541 | the masked step and the masked wrapping difference that probe and deletion compute are ring step and ring distance |
| `BlockTable.HasEmptySlot` | src/alloc/debug.c:454-461 | a table with fewer entries than slots has an empty slot, so a probe ends |
| `BlockTable.ProbeMissed` | src/alloc/debug.c:454-461 | a probe that meets an empty slot proves the address absent |
| `BlockTable.ShiftMoves` | src/alloc/debug.c:513-541 | moving an entry back into the hole keeps every entry reachable over the new hole |
| `BlockTable.ShiftPasses` | src/alloc/debug.c:513-541 | an entry whose home lies past the hole may stay |
| `BlockTable.ShiftEnds` | src/alloc/debug.c:513-541 | at the next empty slot every entry is reachable from its home again |
| `BlockTable.Table.constructor` | src/alloc/debug.c:128-132 | an empty table without slots |
| `BlockTable.Table.Probe` | src/alloc/debug.c:454-461 | ends on the address or on an empty slot with none before it |
| `BlockTable.Table.Grow` | src/alloc/debug.c:463-480 | twice the slots, 64 at first, and the same map; a refusal, also for more bytes than a size_t counts, changes nothing |
| `BlockTable.Table.Rehash` | src/alloc/debug.c:463-480 | the new ring represents the same map, every entry reachable |
| `BlockTable.Table.Insert` | src/alloc/debug.c:482-496 | the map with the entry; refused exactly when growth was needed and refused |
| `BlockTable.Table.Find` | src/alloc/debug.c:498-511 | exactly the record inserted and not yet taken |
| `BlockTable.Table.Take` | src/alloc/debug.c:513-541 | the record, and the map without it |
| `BlockTable.Table.Remove` | src/alloc/debug.c:513-541 | backward-shift deletion is deletion from the map |
| `Ledger.AllottedConserves` | src/alloc/debug.c:235-289 | a block served keeps every block in exactly one place |
| `Ledger.BouncedConserves` | src/alloc/debug.c:235-289 | so does a block that could not be recorded and goes back at once |
| `Ledger.FreedConserves` | src/alloc/debug.c:305-325 | so does a block freed into the quarantine |
| `Ledger.ReleasedConserves` | src/alloc/debug.c:382-398 | so does the oldest one given back to the parent |
| `Ledger.LiveBytesWithout` | src/alloc/debug.c:305-325 | live bytes are the sum of live sizes, whichever block goes |
| `Ledger.AllottedClean` | src/alloc/debug.c:235-289 | filling a new block and its guard touches no other guard and no waiting block |
| `Ledger.FreedClean` | src/alloc/debug.c:305-325 | nor does the fill of a freed one |
| `Ledger.WriteClean` | src/alloc/debug.c:305-325 | nor does a client writing inside its own block |
| `Ledger.Quarantine.Find` | src/alloc/debug.c:409-418 | whether the address waits |
| `Ledger.Quarantine.Pop` | src/alloc/debug.c:382-398 | first in, first out |
| `Ledger.Quarantine.Push` | src/alloc/debug.c:400-407 | joins at the end, at most 64 |
| `DebugAlloc.DebugAllocator.constructor` | src/alloc/debug.c:128-132 | nothing made, nothing live, no request to be refused |
| `DebugAlloc.DebugAllocator.NextSerial` | src/alloc/debug.c:363-374 | counts the request; stops on the break serial, refuses past the failure point |
| `DebugAlloc.DebugAllocator.Alloc` | src/alloc/debug.c:235-289 | when exactly it serves, refuses or stops, the account and every byte after each, live bytes and their peak |
| `DebugAlloc.DebugAllocator.Enter` | src/alloc/debug.c:235-289 | recorded and filled, or handed straight back when the table cannot grow |
| `DebugAlloc.DebugAllocator.CheckEntry` | src/alloc/debug.c:327-350 | the verdict on an address and a layout |
| `DebugAlloc.DebugAllocator.Dealloc` | src/alloc/debug.c:305-325 | each reason exactly when it applies, a changed guard byte and a changed byte of the block released among them; otherwise the block waits, its bytes read freed, and the oldest goes back when the quarantine is full |
| `DebugAlloc.Judges` | src/alloc/debug.c:305-350 | the verdict on a free, cause by cause, the first one first |
| `DebugAlloc.GuardDamageCaught` | src/alloc/debug.c:305-325 | over any run, a guard byte changed and left so ends the run when its block is freed |
| `DebugAlloc.WaitingDamageCaught` | src/alloc/debug.c:382-407 | over any run, a byte of a waiting block changed and left so ends the run when the block is released |
| `Ledger.FillsDiffer` | src/alloc/debug.c:22-27 | the guard has bytes and the three fills differ |
| `DebugAlloc.DebugAllocator.Quarantined` | src/alloc/debug.c:400-407 | a full quarantine releases its oldest first |
| `DebugAlloc.DebugAllocator.ReleaseOldest` | src/alloc/debug.c:382-398 | given back only with its fill intact |
| `DebugAlloc.DebugAllocator.Flush` | src/alloc/debug.c:170-176 | everything waiting goes back, oldest first, or stops at the first one written to |
| `DebugAlloc.DebugAllocator.Perform` | src/alloc/debug.c:235-325 | every operation keeps the invariant, stops nobody who keeps the rules, and raises the peak exactly to the live bytes when they exceed it |
| `DebugAlloc.DebugAllocator.Run` | src/alloc/debug.c:235-325 | over any run the account follows step by step and holds, peak_bytes is the running maximum of the live bytes; a stop means a rule was broken, and a run within the rules leaves every guard and fill intact for the next |
| `DebugAlloc.DebugAllocator.FailAfter` | src/alloc/debug.c:220-225 | the next `count` requests are not refused for this reason and every later one is, for as long as serials last: the sum saturates |
| `DebugAlloc.DebugAllocator.RunFailing` | src/alloc/debug.c:220-374 | over any run, exactly the requests past the first `count` are refused, and change nothing; the others are answered as the parent answers |
| `DebugAlloc.GivenBackKeeps` | src/alloc/debug.c:305-325 | giving a block back conserves every block and the byte count |
| `DebugAlloc.NoFalseAlarm` | src/alloc/debug.c:305-325 | with guards and fills untouched, freeing a live block with its layout succeeds |
| `DequeRing.SlotRoundTrip` | include/tda/ds/deque.h:70-74 | index to slot and slot to index are inverse around the seam |
| `DequeRing.HeadBack` | src/ds/deque.c:881-886 | stepping the head back rolls the unrolled ring |
| `DequeRing.HeadFwd` | src/ds/deque.c:873-879 | stepping it forward rolls it the other way |
| `DequeRing.Deque.MoveElems` | src/ds/deque.c:969-981 | an overlapping move of elements, in the order that loses none |
| `DequeRing.Deque.CopyRangeIn` | src/ds/deque.c:943-962 | a span written across the seam in two runs |
| `DequeRing.Deque.Relocate` | src/ds/deque.c:803-819 | the same sequence from slot 0 of a new block; a refusal changes nothing |
| `DequeRing.Deque.Reserve` | src/ds/deque.c:485-498 | when it succeeds, and that the sequence stays |
| `DequeRing.Deque.ReserveFor` | src/ds/deque.c:777-789 | when exactly it succeeds, and with which capacity: doubled when that is granted, else the exact one; a refusal of both changes nothing |
| `DequeRing.Deque.ReserveOne` | src/ds/deque.c:791-801 | room for one more |
| `DequeRing.Deque.PushBack` | src/ds/deque.c:381-403 | appends, an own element included; refused exactly without room, and then nothing changes |
| `DequeRing.Deque.PushFront` | src/ds/deque.c:359-379 | prepends, an own element included; refused exactly without room, and then nothing changes |
| `DequeRing.Deque.OpenGap` | src/ds/deque.c:695-722 | the gap opens on whichever side is shorter, both parts intact |
| `DequeRing.Deque.InsertSpan` | src/ds/deque.c:678-693 | the sequence with the span inside |
| `DequeRing.Deque.Insert` | src/ds/deque.c:444-467 | the sequence with the value inside |
| `DequeRing.Deque.InsertOwn` | src/ds/deque.c:444-467 | inserting its own element inserts the value it had before the shift |
| `DequeRing.Deque.RemoveRange` | src/ds/deque.c:605-625 | the sequence without the range, whichever side closes over it |
| `DequeRing.Deque.ShrinkToFit` | src/ds/deque.c:500-515 | capacity down to the length, the sequence kept |
| `DequeRing.Deque.PopFront` | src/ds/deque.c:405-413 | the sequence without its first |
| `DequeRing.Deque.PopBack` | src/ds/deque.c:415-422 | the sequence without its last |
| `Lists.MergeIsStableOrder` | src/ds/list.c:952-972 | merged sorted nodes are in the stable order of both lists end to end |
| `Lists.SortIsStable` | src/ds/list.c:974-994 | the sorted nodes are the old ones in the stable order of their elements |
| `Lists.StableOrderIsUnique` | src/ds/list.c:974-994 | and there is only one such order |
| `Lists.MergeChains` | src/ds/list.c:952-972 | two `next` chains become the chain of their merge, node by node |
| `Lists.Skip` | src/ds/list.c:932-938 | n nodes on, or null past the end |
| `Lists.SortChain` | src/ds/list.c:974-994 | a `next` chain becomes the chain of its sorted nodes |
| `Lists.List.constructor` | src/ds/list.c:142-153 | an empty list |
| `Lists.List.RelinkPrev` | src/ds/list.c:996-1005 | one walk makes every `prev` and the tail agree with `next` |
| `Lists.List.Sort` | src/ds/list.c:610-622 | next, prev, head, tail and len all tell of the stable order of the same nodes |
| `Lists.List.MergeInto` | src/ds/list.c:1007-1020 | the stable order of both lists' nodes, the source left empty |
| `Lists.List.LinkChain` | src/ds/list.c:755-776 | a chain goes in between two neighbours or at an end |
| `Lists.List.UnlinkNode` | src/ds/list.c:799-816 | its neighbours close over a node |
| `Lists.List.InsertBetween` | src/ds/list.c:784-797 | a new node at the place; a refusal changes nothing |
| `Lists.List.PrevOf` | src/ds/list.c:928-930 | the node an insert before a place goes after |
| `Lists.List.SpliceNode` | src/ds/list.c:555-591 | one node moves before another, within a list or between two, keeping its address; between allocators its element moves into a new node, and a refusal changes nothing |
| `Lists.List.SpliceAll` | src/ds/list.c:825-836 | all nodes of one list move to the front or the back of another |
| `Lists.List.Reverse` | src/ds/list.c:595-608 | swapped links and ends spell the reversed list |
| `HashMaps.BucketIn` | src/ds/hmap.c:790-795 | the top bits of the multiplied hash name one of the buckets |
| `HashMaps.BucketBits` | src/ds/hmap.c:790-795 | bit by bit, the bucket is the top of the multiplied hash |
| `HashMaps.BucketsFor` | src/ds/hmap.c:881-892 | the least power of two that holds the entries, or 0 exactly when none fits |
| `HashMaps.MissingEverywhere` | src/ds/hmap.c:819-833 | a key not in the chain its hash picks is in no node |
| `HashMaps.PushedBucketed` | src/ds/hmap.c:835-839 | a linked node sits once in the bucket of its cached hash |
| `HashMaps.LinkNode` | src/ds/hmap.c:835-839 | the node heads its bucket's chain |
| `HashMaps.CutBucketed` | src/ds/hmap.c:841-848 | a chain without one node keeps every other where it belongs |
| `HashMaps.RemoveAt` | src/ds/hmap.c:841-848 | the link leads past the node, whether it is the bucket's or a node's |
| `HashMaps.Relink` | src/ds/hmap.c:894-918 | every node goes over into the new buckets and stays the node it was |
| `HashMaps.GetAfterPut` | src/ds/hmap.c:483-519 | for all keys: the equals of the key answer with the value, every other as before |
| `HashMaps.GetAfterRemove` | src/ds/hmap.c:581-606 | for all keys: the equals of the key answer with nothing, every other as before |
| `HashMaps.GetAfterRetain` | src/ds/hmap.c:627-644 | a key is answered as before if its entry stayed, else not at all |
| `HashMaps.LaidOnce` | src/ds/hmap.c:850-856 | the chains laid end to end hold every node once |
| `HashMaps.PartnersCount` | src/ds/hmap.c:971-997 | distinct keys have distinct equals in the other map |
| `HashMaps.SameByPass` | src/ds/hmap.c:971-997 | maps are the same exactly when their lengths are equal and one pass finds every entry answered |
| `HashMaps.HMap.constructor` | src/ds/hmap.c:149-162 | an empty map without buckets |
| `HashMaps.HMap.FindNode` | src/ds/hmap.c:819-833 | the node of the key, or none holds it |
| `HashMaps.HMap.FindLink` | src/ds/hmap.c:808-817 | the link that leads to it |
| `HashMaps.HMap.Lookup` | src/ds/hmap.c:393-400 | the value the map has for the key |
| `HashMaps.HMap.Rehash` | src/ds/hmap.c:894-918 | the same nodes and entries in the new buckets; a refusal changes nothing |
| `HashMaps.HMap.Reserve` | src/ds/hmap.c:920-931 | when exactly it succeeds; entries never change |
| `HashMaps.HMap.AddNode` | src/ds/hmap.c:858-879 | a fresh node for an absent key, exactly when memory serves; len stays within the buckets |
| `HashMaps.HMap.Insert` | src/ds/hmap.c:483-519 | an equal key's node takes the value, else a fresh node does; refused exactly for a new key when node or room is refused, and then no entry changes |
| `HashMaps.HMap.Put` | src/ds/hmap.c:483-519 | insertion into the map of keys, for all keys; refused exactly for a new key when node or room is refused |
| `HashMaps.HMap.Remove` | src/ds/hmap.c:581-606 | that node goes and no other |
| `HashMaps.HMap.Delete` | src/ds/hmap.c:570-579 | removal from the map of keys, for all keys; no node comes in |
| `HashMaps.HMap.Retain` | src/ds/hmap.c:627-644 | the walk asks about each entry once, whatever state the callback keeps, and exactly the entries kept stay, as the nodes they were; so for all keys |
| `HashMaps.HMap.Clear` | src/ds/hmap.c:646-658 | no entries, the buckets kept |
| `HashMaps.HMap.ShrinkToFit` | src/ds/hmap.c:670-692 | success leaves the least buckets that hold the entries; empty maps give theirs up |
| `HashMaps.RunMap` | src/ds/hmap.c:483-692 | over any run each lookup answers with the value last put for an equal key and not deleted or cleared since, through every rehash, shrink and refusal; with memory granted and fewer than 2^63 entries a put is served |
| `HashMaps.LastWord` | src/ds/hmap.c:483-692 | the last operation about a key decides its value |
| `HashMaps.PutThenLookup` | src/ds/hmap.c:483-692 | so a lookup after a put with memory granted gives the value, until the key is touched again |
| `HashMaps.HMap.FirstFrom` | src/ds/hmap.c:938-946 | the first node of the walk from a bucket on |
| `HashMaps.HMap.NextNode` | src/ds/hmap.c:850-856 | the node after it in the walk |
| `HashMaps.HMap.Walk` | src/ds/hmap.c:850-856 | first and next visit every entry exactly once |
| `HashMaps.HMap.Equals` | src/ds/hmap.c:971-997 | true exactly for maps that answer every key alike |
| `HashSets.TurnKey` | src/ds/hset.c:435-465 | one key of the walk added, dropped or flipped, no other touched |
| `HashSets.StepMixes` | src/ds/hset.c:435-465 | keys of the other set are distinct, so none flips twice |
| `HashSets.Sweep` | src/ds/hset.c:367-465 | the walk applies its change to exactly the keys it passed |
| `HashSets.Union` | src/ds/hset.c:367-388 | union, refused only when memory is; then every key is as it was or as it was to be; the sets stay apart |
| `HashSets.Intersection` | src/ds/hset.c:390-405 | intersection; the sets stay apart |
| `HashSets.Difference` | src/ds/hset.c:407-433 | difference, whichever set drives; the sets stay apart |
| `HashSets.SymmetricDifference` | src/ds/hset.c:435-465 | symmetric difference, with itself empty, refused only when memory is; keys not in the other set are never touched; the sets stay apart |
| `HashSets.IsSubset` | src/ds/hset.c:467-482 | containment, the shortcut on lengths included |
| `HashSets.Equals` | src/ds/hset.c:178-194 | equality by lengths and one pass |
| `BitSets.TailMaskBit` | src/ds/bitset.c:521-526 | the mask has exactly the live bits of the last word |
| `BitSets.WordFromBit` | src/ds/bitset.c:536-538 | only the bits from the start on survive |
| `BitSets.WordUptoBit` | src/ds/bitset.c:544-546 | only the bits up to the end survive |
| `BitSets.CombinedBits` | src/ds/bitset.c:382-428 | a word operation is that operation on membership and keeps the tail clear |
| `BitSets.CountIsSize` | src/ds/bitset.c:293-302 | with a clear tail, the ones of all words number the members |
| `BitSets.WordsAreCanonical` | src/ds/bitset.c:367-380 | with clear tails, equal sets are equal word for word |
| `BitSets.TailMaskedBits` | src/ds/bitset.c:528-534 | masking the last word drops exactly what lies past the universe |
| `BitSets.HitsInWord` | src/ds/bitset.c:540-554 | the lowest and the highest one bit are the outermost hits of a word |
| `BitSets.BitSet.constructor` | src/ds/bitset.c:97-114 | the empty set over the universe |
| `BitSets.InitNbits` | src/ds/bitset.c:97-114 | the empty set, or a refusal exactly when words are needed and not granted |
| `BitSets.BitSet.SetBit` | include/tda/ds/bitset.h:164-170 | the set with the index |
| `BitSets.BitSet.ResetBit` | include/tda/ds/bitset.h:174-180 | the set without it |
| `BitSets.BitSet.FlipOne` | include/tda/ds/bitset.h:184-190 | the index changes sides |
| `BitSets.BitSet.Combine` | src/ds/bitset.c:382-428 | any word operation is that operation on the sets |
| `BitSets.BitSet.Union` | src/ds/bitset.c:382-392 | the union |
| `BitSets.BitSet.Intersection` | src/ds/bitset.c:394-404 | the intersection |
| `BitSets.BitSet.Difference` | src/ds/bitset.c:406-416 | the difference |
| `BitSets.BitSet.SymmetricDifference` | src/ds/bitset.c:418-428 | the symmetric difference |
| `BitSets.BitSet.Count` | src/ds/bitset.c:293-302 | the cardinality |
| `BitSets.BitSet.ClearTail` | src/ds/bitset.c:528-534 | the members below the bound, and the tail clear |
| `BitSets.BitSet.FlipAll` | src/ds/bitset.c:279-289 | the complement in the universe |
| `BitSets.BitSet.SetAll` | src/ds/bitset.c:261-269 | the whole universe |
| `BitSets.BitSet.FindNext` | src/ds/bitset.c:556-582 | the nearest member (or non-member) from an index up, none outside the universe |
| `BitSets.BitSet.FindPrev` | src/ds/bitset.c:584-609 | the nearest one down |
| `BitSets.BitSet.All` | src/ds/bitset.c:316-327 | whether every index is in |
| `BitSets.BitSet.Equals` | src/ds/bitset.c:367-380 | the same universe and the same set |
| `BitSets.BitSet.IsSubset` | src/ds/bitset.c:430-442 | containment |
| `Arenas.PadIsLeast` | include/tda/core/align.h:75-80 | the masked negation leads to the first aligned address |
| `Arenas.RewindKeeps` | src/alloc/arena.c:139-147 | blocks made before a mark lie whole below it, and the marks below still nest |
| `Arenas.LastResizeKeeps` | src/alloc/arena.c:182-208 | the last block above the floor may take any end: nothing lies past it and no mark is crossed |
| `Arenas.ApplyKeeps` | src/alloc/arena.c:120-208 | every step keeps blocks aligned, disjoint and below the offset, and marks at or below it |
| `Arenas.RunKeeps` | src/alloc/arena.c:120-208 | so every run does |
| `Arenas.RunInScope` | src/alloc/arena.c:127-208 | a run above a mark moves and grows no block made before it |
| `Arenas.ScratchScope` | src/alloc/arena.c:127-147 | mark, any run that uses marks as a stack, rewind: offset, floor and marks restored, no older block cut or moved |
| `Arenas.Arena.constructor` | src/alloc/arena.c:210-215 | an arena with nothing handed out |
| `Arenas.Arena.Alloc` | src/alloc/arena.c:163-180 | the first aligned place; refused exactly when no aligned place has room |
| `Arenas.Arena.Resize` | src/alloc/arena.c:182-208 | in place exactly for a shrink or for the last block above the floor with room; the ownership check passes |
| `Arenas.Arena.Dealloc` | src/alloc/arena.c:238-247 | frees nothing |
| `Arenas.Arena.TakeMark` | src/alloc/arena.c:127-137 | the position saved and the floor raised to it |
| `Arenas.Arena.Rewind` | src/alloc/arena.c:139-147 | for a mark not rewound past, the check passes and everything since is taken back |
| `Arenas.Arena.Reset` | src/alloc/arena.c:120-125 | as new: offset and floor are 0 |
| `Slabs.ClassOf` | src/alloc/slab.c:242-256 | the first class with the size and the alignment, or none |
| `Slabs.LowestIs` | src/alloc/slab.c:242-256 | size & -size is the lowest set bit of each class |
| `Slabs.FindClass` | src/alloc/slab.c:242-256 | the scan finds that class |
| `Slabs.WasteIs` | src/alloc/slab.c:13-14 | rounding wastes at most a third exactly when two thirds of the first or of the second class of the alignment are filled |
| `Slabs.WasteAt17` | src/alloc/slab.c:13-14 | so not for 17 bytes, as the comment has it for all |
| `Slabs.BlocksApart` | src/alloc/slab.c:272-304 | any two small blocks, live or free, are disjoint |
| `Slabs.BlocksClear` | src/alloc/slab.c:272-304 | no small block meets a chunk's link or a large block |
| `Slabs.LiveServes` | src/alloc/slab.c:242-304 | a live small block has the size and alignment asked for |
| `Slabs.AddedChunkKeeps` | src/alloc/slab.c:272-287 | a new chunk, linked in, keeps the invariant |
| `Slabs.CarveIsNew` | src/alloc/slab.c:289-304 | what is carved next is no block carved before |
| `Slabs.CarvedKeeps` | src/alloc/slab.c:289-304 | carving keeps the invariant |
| `Slabs.ReusedKeeps` | src/alloc/slab.c:149-180 | so does taking the head of a free list |
| `Slabs.ReturnedKeeps` | src/alloc/slab.c:213-240 | so does a free, whose link overwrites only the freed block |
| `Slabs.RetaggedKeeps` | src/alloc/slab.c:182-196 | so does a resize within the class |
| `Slabs.ScribbledKeeps` | src/alloc/slab.c:213-240 | so does a client writing anything anywhere inside a small block it has |
| `Slabs.ScribbledLargeKeeps` | src/alloc/slab.c:213-240 | or inside a large one |
| `Slabs.ApplyKeeps` | src/alloc/slab.c:149-304 | every step of client and parent keeps it, any write inside a block included |
| `Slabs.RunIsSafe` | src/alloc/slab.c:149-304 | after any run any two blocks, small ones live or free and large ones, are disjoint |
| `Slabs.RunServes` | src/alloc/slab.c:149-304 | after any run each small block lies in its chunk clear of the link, and each block out has the size and alignment asked for |
| `Slabs.RunServesRequest` | src/alloc/slab.c:149-304 | after any run a request that the parent answers is served, with a block that was not out |
| `Slabs.FreedIsNext` | src/alloc/slab.c:149-240 | the block of a class freed last is the next one the class hands out, whatever happens to others in between |
| `Slabs.RunSpares` | src/alloc/slab.c:149-304 | a run that neither frees a small block nor writes into it leaves it out and its contents as they were |
| `Slabs.Slab.constructor` | src/alloc/slab.c:95-99 | nothing held, no block out |
| `Slabs.Slab.AddChunk` | src/alloc/slab.c:272-287 | the chunk becomes the class's carving ground and heads the chunk list |
| `Slabs.Slab.Carve` | src/alloc/slab.c:294-304 | from the chunk in hand while it lasts, else from a new one; 0 exactly when that is needed and refused |
| `Slabs.Slab.Alloc` | src/alloc/slab.c:149-180 | refused exactly when the parent must be asked and refuses; the last block freed first, then the chunk in hand, then a new chunk; the block is on the books as asked and on none before |
| `Slabs.Slab.Resize` | src/alloc/slab.c:182-196 | in place exactly within the class the block was carved for, so the new layout finds it again |
| `Slabs.Slab.Remap` | src/alloc/slab.c:198-211 | only a large block that stays large moves, to where the parent says |
| `Slabs.Slab.Dealloc` | src/alloc/slab.c:213-240 | first on its own class's list, or gone to the parent; no other word changes and no check fires for a block that is out |
| `Slabs.Slab.Write` | src/alloc/slab.c:213-240 | whatever a client writes inside its block leaves the allocator valid |
| `Slabs.Slab.Deinit` | src/alloc/slab.c:101-116 | every chunk goes back, each once, and the slab is zeroed: it holds nothing |

## Left out

- Printing, logging and the wrappers over libc's allocator: input and output only.
- Floating point (float draws, float comparators and hashes), and the statistical quality of hashes and draws.
- Expected-time and amortised claims.
- Element bytes: elements are whole values, and copies between blocks are copies of values.
- Termination of the rejection loops in src/core/rng.c: the draw runs over a given stream up to its first accepted value.
- The loops' 64-bit counters and `len` fields are unbounded naturals; a bound is stated where the source checks or relies on one.
- Arena marks rewound twice or out of order past a reset: each rewind pops the marks from it on.
- src/alloc/arena.c: the model tracks extents and marks, not data.
- src/alloc/slab.c: memory is a word per address; a link write changes the word at its own address only.
- Slab blocks freed with a wrong layout or twice: the source catches only some of them, and the model only follows clients that keep the layout.
- tda_list_copy_assign, tda_list_copy_from_span and splicing whole lists between two allocators in src/ds/list.c: a node's element is fixed for life here.
- tda_list_retain, tda_list_eq, the pops and lookups of src/ds/list.c: single walks over what UnlinkNode and Shape already give.
- tda_hmap_copy_with, tda_hmap_extend, tda_hmap_get_or_insert, tda_hmap_remove_node: the same steps as insert and remove.
- tda_hset_intersects: one lookup loop.
- tda_bitset_any, tda_bitset_none, tda_bitset_intersects and copies: single scans of the words.
- tda_deque_resize, tda_deque_retain, tda_deque_copy_assign, tda_deque_eq: built from the modelled moves.
- tda_heap_sift_up, tda_span_partition, tda_span_partition_stable and the searches other than the two bounds.
- src/ds/vec.c, arr.c, stack.c, queue.c, pqueue.c, src/alloc/pool.c and the remaining files of src/algo: simpler versions of what is here.
