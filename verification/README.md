# Lists, hash tables, bitmaps, buffered reading and job control

A Dafny model of five components, with proofs.

- **Doubly linked lists** (`list.c`). Nodes are heap objects; every operation rewrites `prev` and `next` links and is
  proved against a function on sequences. `list.dfy` has the links, `list_sort.dfy`, `list_ordered.dfy` and
  `list_shuffle.dfy` the algorithms on them, `order.dfy` and `sort_theory.dfy` the theory of stable sorting. `less` is
  any strict weak order.
- **Hash tables** (`hash.c`). `hash_theory.dfy` has the operations on chains and their refinement of a finite map from
  key classes to elements, `hash.dfy` the structure on the heap on top of the lists, `hash_runs.dfy` sequences of
  operations, `hash_functions.dfy` the hash functions on 32-bit words, `bits.dfy` bitwise arithmetic. The data that the
  callbacks look at is the value `aux`, which an action may change.
- **Bitmaps** (`bitmap.c`). `bitmap.dfy` has bits packed into 64-bit words as a refinement of a boolean sequence, and
  the first-fit allocation of ranges, on the sequence and on one bitmap in place.
- **Buffered reading** (`csapp.c`). `rio.dfy` has the buffer and the script of what the calls of `read` return: data in
  pieces of any size from 1 to 8192 bytes, interruptions, failures and ends of file in any order.
- **The shell** (`phase3/myshell.c`). `jobs.dfy` has the job table and the methods that update it in place,
  `job_control.dfy` the transition system and its invariant, `shell_runs.dfy` the methods taking its steps,
  `pipes.dfy` the descriptor tables of a pipeline (also for the recursive form of phase 2), `command_line.dfy` the
  meaning of a command line, `written_lines.dfy` the ways to write one, and `parser.dfy` the parsers that overwrite it.

In the shell's transition system a masked section of the main program and a run of the SIGCHLD handler are single steps,
and handler runs with any batch of reports may come between any two other steps. The environment is assumed to give out
fresh process ids, to start every process, to leave children in their group, and to let a signal to a group fail only
when no process of it is left. `block_sigchld` masks only SIGCHLD; the SIGINT and SIGTSTP handlers only read `fg_pgid`.
The pipeline proofs assume that the shell was started with descriptors 0 and 1 open. Where `list_splice` and `list_unique`
rely on `before` being outside the range and on the duplicates being another list, so do the contracts.

Code and comments disagree in two places. The comment at `bitmap.c:333` says that a scan for 0 bits returns 0; the code
returns `start`, and so does the model. `bitmap_mark`, `bitmap_reset` and `bitmap_flip` are documented as operations on
whole elements, but their instructions act on 32 of the 64 bits; the class follows the documentation, and
`Bitmaps.LiteralInstructions` says exactly when the instructions agree with it.

## Model

| member | source | states |
|---|---|---|
| Lists.Next | sp_prj1/20241620/list.c:83-88 | the element that follows in the list; the assertion that `elem` is a head or interior holds |
| Lists.Prev | sp_prj1/20241620/list.c:114-119 | the element that precedes in the list |
| Lists.Insert | sp_prj1/20241620/list.c:170-180 | the list with `elem` just before `before`, all `prev`/`next` links mutually inverse; only three elements are written |
| Lists.Remove | sp_prj1/20241620/list.c:258-265 | the list without the element, well-linked; the removed element keeps its own links and its successor is returned |
| Lists.Splice | sp_prj1/20241620/list.c:185-206 | within one list and with `before` outside `first`..`last`: the list with that range moved before `before`, well-linked; nothing happens when `first == last` |
| Lists.SpliceAcross | sp_prj1/20241620/list.c:185-206 | between two lists that share nothing: the range leaves one list and enters the other, and both stay well-linked |
| Lists.Swap | sp_prj1/20241620/list.c:536-571 | for elements that are the same, adjacent either way, one apart or far apart: the list with the two positions exchanged, well-linked |
| Lists.SwapTwice | sp_prj1/20241620/list.c:536-571 | swapping the same two elements twice restores every `prev` and `next` of the list |
| Lists.SwapAcross | sp_prj1/20241620/list.c:536-571 | for elements of two lists that share nothing: each takes the place of the other, and both lists stay well-linked |
| Lists.SwapAcrossTwice | sp_prj1/20241620/list.c:536-571 | swapping across two lists and back restores every `prev` and `next` of both |
| Lists.List.constructor | sp_prj1/20241620/list.c:62-70 | a new list is well-linked and empty |
| Lists.List.Init | sp_prj1/20241620/list.c:62-70 | `list_init` leaves an empty, well-linked list, whatever the two headers were linked to before |
| Lists.List.Begin | sp_prj1/20241620/list.c:73-78 | the first element, or the tail of an empty list |
| Lists.List.IsEmpty | sp_prj1/20241620/list.c:319-323 | true iff the list has no element |
| Lists.List.Size | sp_prj1/20241620/list.c:307-316 | the loop counts exactly the elements |
| Lists.List.PushFront | sp_prj1/20241620/list.c:210-214 | the element becomes the first one, the others keep their order |
| Lists.List.PushBack | sp_prj1/20241620/list.c:218-222 | the element becomes the last one, the others keep their order |
| Lists.List.RemoveAt | sp_prj1/20241620/list.c:258-265 | exactly this element leaves the list; its successor is returned |
| Lists.List.PopFront | sp_prj1/20241620/list.c:269-275 | removes and returns the first element |
| Lists.List.PopBack | sp_prj1/20241620/list.c:279-285 | removes and returns the last element |
| Lists.List.Reverse | sp_prj1/20241620/list.c:335-347 | the loop over exchanged links and the two final exchanges give a well-linked list of the same elements in the opposite order |
| Lists.ReverseTwice | sp_prj1/20241620/list.c:335-347 | reversing twice restores every `prev` and `next` of the list |
| Lists.MirrorIsListed | sp_prj1/20241620/list.c:342-345 | links that all lead the other way, with the two ends exchanged, are exactly the links of the mirrored list |
| Lists.OrderIsLinks | sp_prj1/20241620/list.c:25-35 | the order of a well-linked list determines all its `prev` and `next` links |
| Lists.KindsOfElements | sp_prj1/20241620/list.c:37-58 | in a well-linked list exactly the first element is a head, exactly the last one a tail, and exactly the others are interior |
| ListSort.IsSorted | sp_prj1/20241620/list.c:351-360 | true iff the range is nondecreasing |
| ListSort.FindEndOfRun | sp_prj1/20241620/list.c:367-382 | the end of the maximal nondecreasing run, and how many calls of `less` it took |
| ListSort.InplaceMerge | sp_prj1/20241620/list.c:389-409 | splicing single elements leaves the stable merge of the two sorted ranges in place, all else unchanged, with fewer calls of `less` than elements; both asserted preconditions are used |
| ListSort.SortTwoRuns | sp_prj1/20241620/list.c:431-445 | one iteration of the pass: two adjacent runs become their merge, or the last run is left alone |
| ListSort.SortPass | sp_prj1/20241620/list.c:430-445 | one pass computes `Pass`, counts the output runs, and makes at most 2n calls of `less` |
| ListSort.Sort | sp_prj1/20241620/list.c:414-450 | `list_sort` ends with a well-linked list that is the stable sorted order of the same elements, makes at most 2n calls of `less` per pass, and at most 2n * max(1, k) calls if there are at most 2^k runs |
| ListSort.CallsAreLinearithmic | sp_prj1/20241620/list.c:411-450 | the O(n lg n) bound of the comment: 2n calls of `less` per pass are at most 2n * max(1, k) calls for at most 2^k runs |
| NaturalMergeSort.SortByIsStableSort | sp_prj1/20241620/list.c:384-450 | for every strict weak order the result is sorted, has the same elements, and keeps equal elements in their relative order |
| NaturalMergeSort.PassIsStable | sp_prj1/20241620/list.c:431-445 | one pass keeps every class of equal elements in its order |
| NaturalMergeSort.PassHalvesRuns | sp_prj1/20241620/list.c:430-445 | a pass over R runs outputs exactly ceil(R/2) of them |
| NaturalMergeSort.PassLeavesRuns | sp_prj1/20241620/list.c:424-447 | what a pass leaves has no more runs than the pass has output |
| NaturalMergeSort.PassesAreLogarithmic | sp_prj1/20241620/list.c:411-450 | with at most 2^k runs there are at most max(1, k) passes |
| NaturalMergeSort.RunsAtMostLength | sp_prj1/20241620/list.c:411-413 | there are at most as many runs as elements |
| NaturalMergeSort.MoreToSort | sp_prj1/20241620/list.c:424-447 | a pass that outputs more than one run has reduced the number of runs, so the outer loop ends |
| NaturalMergeSort.MergeIsSorted | sp_prj1/20241620/list.c:384-409 | the merge of two sorted ranges is sorted |
| NaturalMergeSort.MergeIsStable | sp_prj1/20241620/list.c:401-408 | of equal elements, those of the first range come first and each range keeps its order |
| OrderFacts.StableSortIsUnique | sp_prj1/20241620/list.c:414-450 | two sorted lists with the same classes are equal: a stable sort is determined by its specification |
| OrderFacts.SameClassesIsPermutation | sp_prj1/20241620/list.c:414-450 | lists with the same classes are permutations of each other |
| OrderFacts.ByKeyIsOrder | sp_prj1/20241620/main.c:154-180 | comparing by an integer is a strict weak order |
| OrderedLists.FindPlace | sp_prj1/20241620/list.c:465-467 | the loop stops at the first element that is greater |
| OrderedLists.InsertedAt | sp_prj1/20241620/list.c:455-469 | the order after the insertion has the element before the first one that is greater, also in an unsorted list |
| OrderedLists.InsertOrdered | sp_prj1/20241620/list.c:455-469 | the element is inserted before the first element that is greater, well-linked |
| OrderedLists.InsertionKeepsSorted | sp_prj1/20241620/list.c:452-469 | inserting in order keeps a sorted list sorted and adds only that element |
| OrderedLists.InsertionSortIsStableSort | sp_prj1/20241620/list.c:452-469 | inserting all elements one by one gives a stable sort |
| OrderedLists.InsertionsAgreeWithSort | sp_prj1/20241620/list.c:411-469 | inserting the elements of any list one by one, in order, into an empty list gives the same node order as `list_sort` |
| OrderedLists.InsertAll | sp_prj1/20241620/list.c:411-469 | a new list, into which given elements are inserted in order one by one, ends well-linked in the order that `list_sort` gives |
| OrderedLists.Min | sp_prj1/20241620/list.c:517-534 | the first of the smallest elements, or the tail of an empty list |
| OrderedLists.Max | sp_prj1/20241620/list.c:498-515 | the first of the largest elements, or the tail of an empty list |
| OrderedLists.MinIsFirstSorted | sp_prj1/20241620/list.c:411-534 | the node that `list_min` returns is the node that the sort puts first |
| OrderedLists.UniqueStep | sp_prj1/20241620/list.c:487-495 | one iteration: an element equal to the last one kept moves to the end of the duplicates, any other one is kept |
| OrderedLists.Unique | sp_prj1/20241620/list.c:471-496 | the list keeps the first node of each block of adjacent equal elements, and the others are appended, in order, to the duplicates if there is such a list |
| OrderedLists.UniqueLast | sp_prj1/20241620/list.c:487-495 | whether an element is kept depends on the element before it, equal to it or not, in any list |
| OrderedLists.UniqueConserves | sp_prj1/20241620/list.c:471-496 | kept and discarded nodes together are all nodes |
| OrderedLists.UniqueOnSorted | sp_prj1/20241620/list.c:471-496 | on a sorted list exactly the first node of each class remains |
| ListShuffle.Shuffle | sp_prj1/20241620/list.c:573-591 | the loop of swaps computes `Shuffled` for the choices drawn, on a well-linked list |
| ListShuffle.ShuffleIsPermutation | sp_prj1/20241620/list.c:580-590 | every outcome is a permutation of the same nodes |
| ListShuffle.ShuffleIsInjective | sp_prj1/20241620/list.c:580-590 | different choices give different outcomes |
| ListShuffle.ShuffleIsBijection | sp_prj1/20241620/list.c:580-590 | every permutation comes from exactly one vector of choices j_i in [i, n) |
| ListShuffle.EveryChoiceIsPicked | sp_prj1/20241620/list.c:581-581 | every vector of choices is drawn for some outcomes of `rand` |
| ListShuffle.PickIs | sp_prj1/20241620/list.c:581-581 | step i picks, counting from i, the remainder of what `rand` returns by the number of the elements left |
| Bits.IsPowerOf2Iff | sp_prj1/20241620/hash.c:344-349 | the test with the cleared lowest bit is true iff the number is a power of two |
| Bits.TurnOffKeepsFloor | sp_prj1/20241620/hash.c:337-342 | clearing the lowest bit of a number that is no power of two makes it smaller and keeps the largest power of two below it |
| Bits.AndMask | sp_prj1/20241620/hash.c:316-316 | masking with 2^k - 1 gives the remainder, so a bucket index is in range |
| HashTables.NewBucketCnt | sp_prj1/20241620/hash.c:372-380 | the loop that clears the lowest bit ends at the largest power of two not above max(4, elem_cnt/2) |
| HashTheory.IdealIsLargest | sp_prj1/20241620/hash.c:376-380 | that bucket count is the largest power of two that is not above max(4, n/2) |
| HashTheory.IdealAfterChange | sp_prj1/20241620/hash.c:98-157 | after a successful insert, replace or effective delete with allocation succeeding, the table has that bucket count |
| HashTheory.IdealIsLoaded | sp_prj1/20241620/hash.c:351-354 | then elem_cnt <= 4*bucket_cnt - 1, and there are at least two elements per bucket once there are more than four buckets |
| HashTheory.RehashKeepsAll | sp_prj1/20241620/hash.c:360-421 | whether or not the allocation succeeds, the table keeps its elements, its count equals the chain total and the bucket count is a power of two |
| HashTheory.RehashPlaces | sp_prj1/20241620/hash.c:400-418 | a new bucket array has every element in the bucket that its hash selects, even if placement did not hold before |
| HashTheory.RehashDoes | sp_prj1/20241620/hash.c:360-421 | a rehash leaves a table with the ideal bucket count alone, and also when it cannot allocate; otherwise every new bucket holds its elements in the opposite of their old order |
| HashTheory.InsertDoes | sp_prj1/20241620/hash.c:97-108 | a search takes the first equal element in the bucket of hash modulo bucket count; an insertion puts the element first there if there is none; then the table is rehashed |
| HashTheory.DeleteDoes | sp_prj1/20241620/hash.c:114-157 | a deletion takes the found element out of its bucket, keeps the others in order and rehashes, and does nothing if there is none; a replacement also puts the new element first |
| HashTheory.FindIsLookup | sp_prj1/20241620/hash.c:130-134 | a search in one bucket finds an element iff the finite map has one under that key, and the same one |
| HashTheory.StepRefines | sp_prj1/20241620/hash.c:97-157 | every operation gives the result of the finite map (insert does not overwrite, replace returns the old element, find and delete return the stored one) and keeps the representation |
| HashTheory.RunRefines | sp_prj1/20241620/hash.c:42-182 | any run of operations, clears with or without a destructor included, gives the results of the same run on the finite map, whatever allocations fail; actions and destructors may come anywhere in it if they keep the keys |
| HashTheory.OtherRunsKeepKeys | sp_prj1/20241620/hash.c:42-157 | no condition is needed for runs without actions and destructors |
| HashTheory.InsertConserves | sp_prj1/20241620/hash.c:97-108 | an insertion adds the element iff none is equal to it, and no element is lost to rehashing |
| HashTheory.ReplaceConserves | sp_prj1/20241620/hash.c:114-126 | the stored elements and the new one are the elements afterwards and the one returned |
| HashTheory.DeleteConserves | sp_prj1/20241620/hash.c:141-153 | the stored elements are the elements afterwards and the one returned |
| HashTheory.CountIsSize | sp_prj1/20241620/hash.c:245-257 | elem_cnt is the size of the map |
| HashTheory.ApplyKeepsFormIff | sp_prj1/20241620/hash.c:161-182 | after an action the table is still well-formed iff hash still respects sameness, the bucket index of every stored element is unchanged, and no two stored elements have become the same |
| HashTheory.StillRepresentsIff | sp_prj1/20241620/hash.c:161-182 | the table still represents the same map iff every stored element still has its key |
| HashTheory.KeptKeysKeepAll | sp_prj1/20241620/hash.c:161-182 | data that say the same about sameness and about the buckets of the stored elements keep the table well-formed and representing the same map |
| HashTheory.ApplyKeepsForm | sp_prj1/20241620/hash.c:161-182 | an action that, applied to the stored elements, keeps what hash and less say keeps placement, uniqueness and the map |
| HashTheory.SquaringCanMisplace | sp_prj1/20241620/main.c:191-197 | squaring the only element of a table of four buckets, of value v, leaves it where a search finds it iff v and v*v have the same hash modulo 4, and otherwise the search finds nothing, whatever the hash of integers |
| HashTheory.SquaringMerges | sp_prj1/20241620/main.c:191-197 | squaring -1 and 1 makes two distinct stored elements the same, whatever the hash of integers: uniqueness is lost |
| HashTables.FindElem | sp_prj1/20241620/hash.c:323-335 | the first element of the bucket that neither is less than the key nor greater, or null |
| HashTables.MoveList | sp_prj1/20241620/hash.c:400-418 | the inner loop of `rehash` empties one old bucket into the new ones, well-linked, in the order of the specification |
| HashTables.Redistribute | sp_prj1/20241620/hash.c:389-418 | new empty buckets and the moving loops: every old element is in the new buckets, on well-linked lists |
| HashTables.HashTable.constructor | sp_prj1/20241620/hash.c:23-40 | an initialized table has four empty buckets |
| HashTables.HashTable.FindBucket | sp_prj1/20241620/hash.c:312-318 | the bucket with index `hash & (bucket_cnt - 1)`, which is in range |
| HashTables.HashTable.Rehash | sp_prj1/20241620/hash.c:360-421 | the heap structure ends as `HashTheory.Rehash` says, with well-linked disjoint buckets; a failed allocation changes nothing |
| HashTables.HashTable.InsertElem | sp_prj1/20241620/hash.c:424-430 | the element is pushed to its bucket and the count goes up by one |
| HashTables.HashTable.RemoveElem | sp_prj1/20241620/hash.c:432-438 | the element that was found leaves its bucket and the count goes down by one |
| HashTables.HashTable.Find | sp_prj1/20241620/hash.c:128-134 | the element that the specification finds, or null |
| HashTables.HashTable.Insert | sp_prj1/20241620/hash.c:94-108 | the element is inserted iff no equal one is there; the equal one is returned; then the table is rehashed; if one was there, the table has no new node but new headers |
| HashTables.HashTable.Replace | sp_prj1/20241620/hash.c:111-126 | the equal element is removed and returned, the new one is inserted, and the table is rehashed; a returned element other than the new one is no longer a node of the table |
| HashTables.HashTable.Delete | sp_prj1/20241620/hash.c:136-153 | the equal element is removed and returned and the table rehashed; nothing changes if there is none |
| HashTables.HashTable.Size | sp_prj1/20241620/hash.c:245-250 | the number of elements in the chains |
| HashTables.HashTable.Clear | sp_prj1/20241620/hash.c:42-72 | all buckets are empty and the count is 0; the destructor, if any, has seen every element once, in the order of the chains |
| HashTables.HashTable.Apply | sp_prj1/20241620/hash.c:155-182 | the action is applied to every element once, in the order of the chains; any action leaves chains and count as they are |
| HashTables.HashIterator.constructor | sp_prj1/20241620/hash.c:198-207 | a new iterator has visited nothing |
| HashTables.HashIterator.Advance | sp_prj1/20241620/hash.c:209-234 | the k-th call returns the k-th element in the order of the chains, and null once there is none |
| HashTables.Iterate | sp_prj1/20241620/hash.c:184-197 | the iteration idiom meets each stored element exactly once, in the same order as `hash_apply` |
| HashRuns.RunOps | sp_prj1/20241620/hash.c:42-182 | on the heap, any sequence of operations, whatever allocations fail and whatever elements are given (also ones that the table holds or has held), returns what the finite map returns and leaves the table representing it; clears may have a destructor |
| HashFunctions.XorShiftTwice | sp_prj1/20241620/hash.c:304-308 | the 16-bit shift and exclusive or is its own inverse |
| HashFunctions.TimesCancels | sp_prj1/20241620/hash.c:305-306 | multiplication by a number that is invertible modulo 2^32 can be undone |
| HashFunctions.HashInt2IsBijection | sp_prj1/20241620/hash.c:303-309 | `hash_int_2` is a bijection on 32-bit words, with an explicit inverse |
| HashFunctions.HashInt2Is | sp_prj1/20241620/hash.c:303-309 | the shifts are divisions by 2^16, the factors 157 and then 211 |
| HashFunctions.HashBytes | sp_prj1/20241620/hash.c:264-278 | the loop computes the 32-bit FNV-1 hash of the bytes |
| HashFunctions.HashString | sp_prj1/20241620/hash.c:281-294 | the loop computes the FNV-1 hash of the bytes before the first null byte |
| HashFunctions.FnvOfNext | sp_prj1/20241620/hash.c:259-275 | one more byte multiplies the hash by 16777619 modulo 2^32 and then takes the exclusive or |
| HashFunctions.FnvKeepsDistinct | sp_prj1/20241620/hash.c:272-276 | different intermediate hashes stay different whatever bytes follow |
| HashFunctions.OneByteChangesHash | sp_prj1/20241620/hash.c:264-278 | two equal-length buffers that differ in exactly one byte have different hashes |
| Bitmaps.ElemCntIsEnough | sp_prj1/20241620/bitmap.c:36-63 | every bit has an element within the array, and the array is no longer than needed |
| Bitmaps.OneBitChanges | sp_prj1/20241620/bitmap.c:43-48 | marking, resetting and flipping by the mask change the one bit of the word and no other, as the comments at lines 165, 178 and 193 say |
| Bitmaps.TestIsBit | sp_prj1/20241620/bitmap.c:205-205 | the masked word is nonzero iff the bit is set |
| Bitmaps.LiteralInstructions | sp_prj1/20241620/bitmap.c:165-196 | the 32-bit instructions have the documented effect exactly when the bit is in the low half of its element or already has its value (never, for a flip in the high half) |
| Bitmaps.Bitmap.constructor | sp_prj1/20241620/bitmap.c:75-94 | a new bitmap has all bits clear, whatever its storage held |
| Bitmaps.Bitmap.Mark | sp_prj1/20241620/bitmap.c:158-169 | sets exactly this bit |
| Bitmaps.Bitmap.Reset | sp_prj1/20241620/bitmap.c:171-182 | clears exactly this bit |
| Bitmaps.Bitmap.Flip | sp_prj1/20241620/bitmap.c:184-197 | toggles exactly this bit |
| Bitmaps.Bitmap.Set | sp_prj1/20241620/bitmap.c:146-156 | gives exactly this bit the value |
| Bitmaps.Bitmap.Test | sp_prj1/20241620/bitmap.c:199-206 | the value of the bit |
| Bitmaps.Bitmap.SetMultiple | sp_prj1/20241620/bitmap.c:219-231 | gives exactly the bits of the range the value |
| Bitmaps.Bitmap.SetAll | sp_prj1/20241620/bitmap.c:210-217 | gives every bit the value |
| Bitmaps.Bitmap.CountBits | sp_prj1/20241620/bitmap.c:233-248 | how many bits of the range have the value |
| Bitmaps.Bitmap.Contains | sp_prj1/20241620/bitmap.c:250-266 | true iff some bit of the range has the value |
| Bitmaps.Bitmap.Any | sp_prj1/20241620/bitmap.c:268-274 | true iff some bit of the range is set |
| Bitmaps.Bitmap.NoneSet | sp_prj1/20241620/bitmap.c:276-282 | true iff no bit of the range is set |
| Bitmaps.Bitmap.AllSet | sp_prj1/20241620/bitmap.c:284-290 | true iff every bit of the range is set |
| Bitmaps.Bitmap.Scan | sp_prj1/20241620/bitmap.c:308-328 | the least start at or after `start` of a block of `cnt` bits that all have the value, or the error value iff there is none; `start` itself when `cnt` is 0 |
| Bitmaps.Bitmap.ScanAndFlip | sp_prj1/20241620/bitmap.c:330-343 | scans, and flips exactly the block that was found |
| Bitmaps.Expand | sp_prj1/20241620/bitmap.c:292-304 | a new bitmap with the old bits followed by clear ones, or null iff the allocation fails |
| BitSequences.FirstFit | sp_prj1/20241620/bitmap.c:308-328 | the result is a block, no earlier position is one, and there is no result iff no position is one |
| BitSequences.CountIsZeroIff | sp_prj1/20241620/bitmap.c:233-290 | the count of a value is 0 iff all bits have the other value |
| BitSequences.CountsAddUp | sp_prj1/20241620/bitmap.c:233-248 | the counts of both values add up to the number of bits |
| BitSequences.FillCounts | sp_prj1/20241620/bitmap.c:219-248 | setting a block of the other value raises the count of the value by the length of the block |
| RangeAllocation.AllocateKeepsExact | sp_prj1/20241620/bitmap.c:336-343 | an allocation keeps live ranges disjoint and equal to the set bits |
| RangeAllocation.FreeKeepsExact | sp_prj1/20241620/bitmap.c:220-231 | so does freeing a whole live range |
| RangeAllocation.AllocateDoes | sp_prj1/20241620/bitmap.c:312-343 | an allocation takes exactly the first clear block at or after `start`, and changes nothing iff there is none |
| RangeAllocation.FreeDoes | sp_prj1/20241620/bitmap.c:219-231 | a free clears exactly the bits of its range |
| RangeAllocation.RunIsExact | sp_prj1/20241620/bitmap.c:312-343 | in every run of allocations and frees, a bit is set iff some live range covers it, and no two live ranges cover the same bit |
| RangeAllocation.RunConserves | sp_prj1/20241620/bitmap.c:219-343 | in every run as many bits are set as the live ranges have in all, and all the other bits are clear |
| BitmapRuns.Perform | sp_prj1/20241620/bitmap.c:219-343 | the same run by `bitmap_scan_and_flip` and `bitmap_set_multiple` on one packed bitmap: its bits and the live ranges are those of the run on the sequence, and the set bits are exactly the ones covered |
| RioStreams.EintrIsInvisible | sp_prj2/sp_prj2_code/csapp.c:791-798 | an interrupted read leaves no trace, wherever it happens |
| RioStreams.ReadAdds | sp_prj2/sp_prj2_code/csapp.c:791-803 | a read adds its bytes to the stream, a failing one a failure, and one that returns 0 an end of file |
| RioStreams.ShortReadsAreInvisible | sp_prj2/sp_prj2_code/csapp.c:806-812 | it makes no difference whether bytes arrive in one read or in two |
| RioStreams.CollectStops | sp_prj2/sp_prj2_code/csapp.c:831-875 | a call stops exactly at the first newline (when reading a line), at `n` bytes, at an end of file or at a failure, and takes exactly the bytes that it hands out |
| RioStreams.CollectFailsIff | sp_prj2/sp_prj2_code/csapp.c:831-875 | a call returns -1 after taking k bytes iff the stream fails after k bytes, fewer than the call may take and, when reading a line, without a newline |
| RioStreams.OutcomeConserves | sp_prj2/sp_prj2_code/csapp.c:831-875 | a call loses bytes iff the stream fails after at least one byte, after fewer than the call may take and, when reading a line, before a newline |
| RioStreams.RunConserves | sp_prj2/sp_prj2_code/csapp.c:831-875 | a run of calls in which none fails hands out the bytes of the stream in order and loses none |
| Rio.RioBuffer.constructor | sp_prj2/sp_prj2_code/csapp.c:819-824 | a new buffer has no unread byte |
| Rio.RioBuffer.Refill | sp_prj2/sp_prj2_code/csapp.c:791-803 | the loop ends with an unread byte, at an end of file or with a failure, and retries after EINTR |
| Rio.RioBuffer.Read | sp_prj2/sp_prj2_code/csapp.c:787-813 | hands out between 1 and `n` bytes of the stream, or 0 at an end of file, or -1; for `n` equal to 0 it hands out nothing, and takes nothing but an end or a failure |
| Rio.RioBuffer.ReadNb | sp_prj2/sp_prj2_code/csapp.c:831-846 | the stored bytes, the result and the remaining stream, under every pattern of short reads and EINTR; nothing else in the buffer is written |
| Rio.RioBuffer.LineBytes | sp_prj2/sp_prj2_code/csapp.c:858-872 | the loop of `rio_readlineb` collects the line and says how it ended |
| Rio.RioBuffer.ReadLineb | sp_prj2/sp_prj2_code/csapp.c:853-875 | the stored bytes, the result and the remaining stream; a null character follows the bytes iff the result is positive or `maxlen` is at most 1, and nothing else in the buffer is written |
| Rio.Session | sp_prj2/sp_prj2_code/csapp.c:787-875 | for any sequence of calls on one buffer: the callers see the stream and nothing else, and as long as none returns -1, what they were handed followed by the unread buffer is what `read` has delivered |
| Shells.Shell.FindJobByJid | sp_prj2/phase3/myshell.c:414-421 | the first used slot with this number |
| Shells.Shell.FindJobByPid | sp_prj2/phase3/myshell.c:423-435 | the first used slot with this process |
| Shells.Shell.FindForegroundJob | sp_prj2/phase3/myshell.c:437-444 | the first used slot in the foreground |
| Shells.Shell.UpdateFgPgid | sp_prj2/phase3/myshell.c:446-450 | `fg_pgid` becomes the process group of that job, or 0 |
| Shells.Shell.AddJob | sp_prj2/phase3/myshell.c:384-405 | the first free slot takes the job with the next number and at most MAXLINE - 1 characters of its command line; nothing changes when the table is full |
| Shells.Shell.DeleteJob | sp_prj2/phase3/myshell.c:407-412 | the slot is cleared and `fg_pgid` brought up to date |
| Shells.Shell.HandleReport | sp_prj2/phase3/myshell.c:586-607 | one iteration of the handler on one report of `waitpid`; what that does to every slot is `JobControl.ReportDoes` |
| Shells.Shell.SigchldHandler | sp_prj2/phase3/myshell.c:579-611 | the handler on any batch of reports; what that does to every slot is `JobControl.HandlerDoes` |
| Shells.Shell.FgMasked | sp_prj2/phase3/myshell.c:529-541 | the masked part of `fg` |
| Shells.Shell.BgMasked | sp_prj2/phase3/myshell.c:503-513 | the masked part of `bg` |
| JobControl.HandleOneIsOk | sp_prj2/phase3/myshell.c:586-607 | one report keeps the invariant of the job table and of the children that are left |
| JobControl.SigchldIsOk | sp_prj2/phase3/myshell.c:579-611 | so does a whole run of the handler, at any place where the signal is not blocked |
| JobControl.LaunchIsOk | sp_prj2/phase3/myshell.c:305-382 | so does launching a pipeline, in the foreground or not, with or without a free slot |
| JobControl.WokenIsOk | sp_prj2/phase3/myshell.c:540-549 | so does `fg` when its signal arrives or fails: a failed signal means that the job has gone |
| JobControl.LookIsOk | sp_prj2/phase3/myshell.c:572-577 | so does leaving the wait: once `fg_pgid` has changed no job is in the foreground |
| JobControl.NextIsOk | sp_prj2/phase3/myshell.c:305-611 | every step keeps the invariant, for every interleaving of the handler |
| JobControl.ForegroundIsRight | sp_prj2/phase3/myshell.c:437-450 | in every reachable state at most one of the 16 slots is in the foreground, `fg_pgid` is the group of its job or 0, and none is when the shell is at its prompt |
| JobControl.LiveCountsAreRight | sp_prj2/phase3/myshell.c:384-399 | in every reachable state the job in any used slot has the processes and command line that were registered under its number, 1 <= live_count <= npids, and live_count is the number of its processes not yet reaped |
| JobControl.JobsShareNothing | sp_prj2/phase3/myshell.c:384-399 | in every reachable state no two used slots share a number or a process |
| JobControl.NoExitIsLost | sp_prj2/phase3/myshell.c:579-611 | in every reachable state a job that was ever registered is in the table iff one of its processes has not been reaped, and numbers increase by one |
| JobControl.HistoryGrows | sp_prj2/phase3/myshell.c:390-390 | numbers are never given out again |
| JobControl.LastChildRemovesJob | sp_prj2/phase3/myshell.c:600-607 | the entry vanishes in the very iteration that reaps its last process, and not before; no other entry changes |
| JobControl.ReportDoes | sp_prj2/phase3/myshell.c:586-607 | one report changes only the job of its process: a stop stops it, a continue lets a stopped job go on in the background and no other, an exit lowers the live count and the last one removes the job |
| JobControl.HandlerDoes | sp_prj2/phase3/myshell.c:579-611 | what a whole run of the handler leaves in every slot: a free slot, nothing if no child is left, or the job with the number of children left, stopped if the last signal of its children was a stop, and in the background if it was a continue after a stop |
| JobControl.StaysInForeground | sp_prj2/phase3/myshell.c:588-599 | a foreground job is in the foreground after the handler iff a child of it is left and none was stopped |
| JobControl.LookAfterHandler | sp_prj2/phase3/myshell.c:572-611 | after the handler the waiting shell goes on waiting iff its job has a child left and none was stopped; otherwise fg_pgid is 0 and the next look gives the prompt |
| JobControl.FgDoes | sp_prj2/phase3/myshell.c:529-541 | `fg` brings exactly the job with the number to the foreground and sets fg_pgid to its group; without such a job nothing changes |
| JobControl.BgDoes | sp_prj2/phase3/myshell.c:503-513 | `bg` puts exactly the job with the number into the background and signals its group; without such a job nothing changes |
| JobControl.LaunchDoes | sp_prj2/phase3/myshell.c:305-405 | a launch enters the job with the next number, its processes and its command line in the first free slot, and the shell waits for it iff it is not in the background; with a full table nothing is entered |
| JobControl.WokenDoes | sp_prj2/phase3/myshell.c:540-549 | when the signal of `fg` arrives the shell waits for the job; when it does not, no job is in the foreground and the shell goes back to its prompt |
| JobControl.LookDoes | sp_prj2/phase3/myshell.c:572-577 | the waiting shell goes on waiting exactly as long as a job is in the foreground, which is the one it waits for |
| JobControl.ReportableIff | sp_prj2/phase3/myshell.c:579-586 | the batches that are considered: reports of children not reaped before, in any order, with any stops and continues |
| JobControl.FreshCanBeLaunched | sp_prj2/phase3/myshell.c:305-354 | the launches that are considered: any 1 to 16 distinct fresh process ids at the prompt |
| JobControl.RunGoesOn | sp_prj2/phase3/myshell.c:305-611 | a run can be continued by any step that is enabled where it has led |
| ShellRuns.Perform | sp_prj2/phase3/myshell.c:305-611 | the methods of the shell take exactly the steps of the transition system |
| ShellRuns.RunShell | sp_prj2/phase3/myshell.c:305-611 | any run of the shell on its table in place: `fg_pgid` is 0 iff no job is in the foreground, and it is 0 at the prompt |
| Pipes.LaunchPipeline | sp_prj2/phase3/myshell.c:313-364 | the children get the descriptor tables that `Pipes.StagesAreConnected` describes and the shell ends with its own table as it was, for every number of stages |
| Pipes.RunPipe | sp_prj2/phase2/myshell.c:114-152 | the recursive form gives every stage the same table |
| Pipes.StagesAreConnected | sp_prj2/phase3/myshell.c:331-364 | every stage has exactly the descriptors of the shell: its standard output is the write end of its pipe, except in the last stage, its standard input the read end of the pipe before, except in the first, and the others are unchanged |
| Pipes.EndsAreWhereTheyBelong | sp_prj2/phase3/myshell.c:331-364 | the write end of pipe i is open only in stage i, as standard output, and the read end only in stage i+1, as standard input |
| CommandLine.TrimSpec | sp_prj2/phase3/myshell.c:154-166 | trimming cuts exactly the white space at both ends |
| Parsers.TrimWs | sp_prj2/phase3/myshell.c:154-166 | the trimmed string is in the buffer, and nothing outside the given string has changed |
| CStrings.HoldsIff | sp_prj2/phase3/myshell.c:154-166 | a string in the buffer, character by character: its characters, none of them null, and a null character after them |
| WrittenLines.WhiteIsSpace | sp_prj2/phase3/myshell.c:241-241 | white space is a blank or a character from tab to carriage return, as in the C locale |
| CommandLine.PiecesJoin | sp_prj2/phase3/myshell.c:262-286 | the pieces between bars outside quotes, joined by bars, are the line |
| CommandLine.PiecesAreCounted | sp_prj2/phase3/myshell.c:262-286 | there is one piece more than there are bars outside quotes |
| CommandLine.FailsIff | sp_prj2/phase3/myshell.c:252-303 | a line that is not blank fails iff it has more than 15 bars outside quotes, or a piece is blank (the last one when its mark is cut), or an ampersand is not the last character of the line that is not white space |
| CommandLine.BackgroundIff | sp_prj2/phase3/myshell.c:288-296 | an accepted line asks for a background job iff its last character that is not white space is an ampersand |
| CommandLine.SegmentsHaveWords | sp_prj2/phase3/myshell.c:315-321 | every segment of an accepted line gives `parseline` a word, so that the skip in `launch_pipeline` is never taken |
| Parsers.ParseLine | sp_prj2/phase3/myshell.c:252-303 | `parse_line` on the buffer: -1 iff the line fails; otherwise the segments are in the buffer as null-terminated strings in increasing order, none overlapping the next, with the mark |
| WrittenLines.QuotedIsInert | sp_prj2/phase3/myshell.c:264-267 | whatever stands between two equal quotes, bars and the other quotes included, has no bar outside quotes, and closes again |
| WrittenLines.UnclosedIsInert | sp_prj2/phase3/myshell.c:264-276 | after a quote that is never closed no bar splits the line |
| WrittenLines.PlainBarsCount | sp_prj2/phase3/myshell.c:268-276 | in text without quotes, after closed text, every bar splits the line and nothing else does |
| WrittenLines.WrittenIsInert | sp_prj2/phase3/myshell.c:262-286 | a segment of written words, with bars only in quoted ones, is closed and is not split |
| WrittenLines.CommandRoundTrip | sp_prj2/phase3/myshell.c:252-303 | up to 16 pieces, with any white space around them, joined by bars, with or without the mark and white space around it, parse to the trimmed pieces and the mark |
| WrittenLines.WholeLineComesBack | sp_prj2/phase3/myshell.c:221-303 | a whole line up to its newline: up to 16 segments of up to 127 words, each as it is or in quotes, with any white space between, comes back as the same words and the mark |
| WrittenLines.QuotedBarComesBack | sp_prj2/phase3/myshell.c:221-303 | a line with a quoted bar, tabs and the mark of a background job: two stages, with the words that were meant |
| LineReading.ReadCommand | sp_prj2/phase3/myshell.c:221-321 | both parsers, in place on one buffer: in the end all the words that were written are in the buffer, each null-terminated |
| WrittenLines.WritingRoundTrip | sp_prj2/phase3/myshell.c:221-250 | `parseline` undoes writing words, plain or in quotes, with any white space before, between and after them; if there are more words than fit it leaves out the last ones |
| WrittenLines.EveryLineIsWritten | sp_prj2/phase3/myshell.c:221-250 | every string is such a written line, so that the round trip says what the words of any string are |
| Parsers.ParseWords | sp_prj2/phase3/myshell.c:221-250 | at most 127 words, in the buffer as null-terminated strings in increasing order inside the given string, none overlapping the next; nothing outside the given string has changed |

## Left out

- Shells.Shell.SigchldHandler: the effect of a signal on a process is not modelled; the reports that `waitpid` then gives are arbitrary.
- JobControl.Next: a masked section or a handler run is one step, and an unmasked read of job fields (the output and the kill target of `bg` and of `kill`, the line printed for a background job) is not a step.
- JobControl.LookIsOk: safety of the wait only; that a waiting shell is woken up is not decided by this code, because its test and `sigsuspend` are not atomic.
- Pipes.LaunchPipeline: failing `pipe`, `fork` and `execvp`, and `setpgid`, are not modelled.
- HashTables.HashTable.constructor: initialization succeeds; the failing allocation in `hash_init`, `hash_destroy` and `free` are not modelled.
- HashTables.HashTable.Insert: an element may be given to a table that holds it already only if the search finds an equal element there, which `HashRuns.Perform` shows of every table that represents a map.
- HashRuns.RunOps: no element that is given is the header of a bucket, and the actions and destructors keep the keys.
- HashFunctions.HashBytes: `hash_int` is this hash of the bytes of an `int`, whose order depends on the machine; it has no member of its own.
- Bitmaps.Bitmap.Scan: `size_t` wrap-around in `start + cnt` is excluded.
- Bitmaps.Expand: a negative size is excluded; the old bitmap is not freed.
- Rio.RioBuffer.ReadNb: sizes above the range of `int` are not modelled.
- Shells.Shell.AddJob: numbers do not overflow.
- ListShuffle.Shuffle: `rand` is a sequence of arbitrary numbers.
- Parsers.ParseLine: the array of segment pointers is a sequence; that its index stays below 16 is part of the contract.
- `list_entry`, `hash_entry` and the placement of headers inside other structures: an element is an object that knows its item.
- `bitmap_create_in_buf`, `bitmap_dump`, `hex_dump.c`, `debug.c` and the interpreters in `main.c`: storage layout and output only.
- `cd`, `exit`, `jobs`, `kill`, `parse_job_id` and `normalize_jobcmd`: output, or no effect on the job table.
- Phase 1 of the shell, the rest of phase 2 and the other wrappers of `csapp.c`.
