# Singly linked list and cycle detection, in Dafny

This project models the singly linked list container `DSLinkedList<T>` of the
C++ repository *cpp-data-structures-algorithms*, together with Floyd's
cycle detection over raw-pointer `TestNode`s, and proves properties of the
model.

- **The container** is modelled as the class `LinkedList.DSLinkedList<T>`.
  - It has the source's three fields: `head`, `tail` and `length`.
  - Its cells are heap objects of class `Chains.Node<T>`, the source's `DataNode`, each with a `value` and a `next` link.
  - Two ghost fields describe the list in order: the spine `nodes` (the cells) and `Contents` (their values).
  - The class invariant `Valid()` says the following:
    - `head` is the first cell and each cell links to the next;
    - the last cell ends the chain and is `tail`;
    - `length` counts the cells;
    - cell `k` stores `Contents[k]`.
  - Every operation keeps `Valid()` and states its effect on `nodes` and `Contents`.
  - The operations cover the core operations and all the list algorithms of the current header, `include/data_structures/linked_list.hpp`.
  - The earlier header `CPP-DSA/LinkedList/DSLinkedList.h` implements the same core operations the same way, without the algorithms. The same class models both; the table below cites both files.
- **The pointer loops** of reverse, reverseSubset, swapPairs and partitionList are methods on the bare chain, in module `Relink`. Each is proved against a sequence function in module `Seqs`: `Reverse`, `ReverseRange`, `SwapPairs` and `PartitionBy`. The class methods then re-establish `Valid()`.
- **The duplicate-removal loop** stays in the class (`RemoveDuplicatesFromSortedList`, with `DedupStep` and `UnlinkNext`). It is proved against `Keep` with the `FirstOfRun` mask, in module `Seqs`.
- **The sequence functions** carry the properties the source promises, proved as lemmas:
  - involution and permutation for the reversals and for swapping pairs;
  - stability, ordering and permutation for partitioning;
  - for removing duplicates: no adjacent equal values, the same value set and, on sorted input, a strictly sorted result;
  - for the binary value: its range, and the round trip with `Bits`.
- **The cycle detection**, `CycleDetection.HasCycle`, is Floyd's two-cursor loop. The two utility headers hold identical copies of it.
  - Its contract: it answers true exactly when the walk from `head` never reaches null.
  - Termination rests on a pigeonhole argument over the finite set `ns` of nodes the walk can reach. `ns` is a ghost parameter standing for the heap.

## Model

| member | source | states |
|---|---|---|
| Chains.Node.constructor | include/data_structures/linked_list.hpp:14-19 | a new cell holds the given value and links to nothing; the same code is at CPP-DSA/LinkedList/DSLinkedList.h:10-15 |
| Chains.ChainDistinct | include/data_structures/linked_list.hpp:26-30 | a null-terminated linked spine never repeats a cell: the unique ownership through `next` makes the list acyclic |
| Chains.ChainUnique | include/data_structures/linked_list.hpp:26-30 | in a chain, the cell at position k occurs at no other position |
| Chains.ChainNext | include/data_structures/linked_list.hpp:26-30 | in a chain, cell k links to cell k+1, and the last cell links to null |
| Chains.ListShapeEmpty | include/data_structures/linked_list.hpp:26-30 | under the invariant, head and tail are null exactly when length is 0, and a non-empty list's tail ends the chain |
| Chains.ChainReach | include/data_structures/linked_list.hpp:269 | length is the number of cells reachable from head: following k < length links gives cell k, following length links reaches null |
| Chains.FollowAlong | include/data_structures/linked_list.hpp:180-184 | following k links from cell i of a chain gives cell i+k, or null past the end |
| Chains.ShapeInsert | include/data_structures/linked_list.hpp:220-226 | splicing a cell between positions i-1 and i gives a valid list one longer, with the cell at position i |
| Chains.ShapeDrop | include/data_structures/linked_list.hpp:247-249 | bypassing an inner cell gives a valid list without it, one shorter |
| Chains.ShapeCut | include/data_structures/linked_list.hpp:349-352 | bypassing the cell at i gives a valid list without it; when it was last, the cell before becomes tail |
| Chains.ShapeReverse | include/data_structures/linked_list.hpp:279-293 | with every link turned around, the reversed spine is a valid list whose head is the old last cell and whose tail is the old head |
| Chains.ShapeMove | include/data_structures/linked_list.hpp:434-439 | relinking a cell x between a prefix and a block keeps the whole spine linked and null-terminated |
| Chains.ShapeSwap | include/data_structures/linked_list.hpp:460-462 | with a pair's links exchanged, the spine with the pair swapped is linked and null-terminated |
| Chains.LinkedCons | include/data_structures/linked_list.hpp:425-426 | a dummy cell pointing at the first cell extends a null-terminated chain in front |
| Chains.LinkedFront | include/data_structures/linked_list.hpp:440 | taking head from the dummy gives back a null-terminated chain starting at the dummy's successor |
| Chains.StoresReverse | include/data_structures/linked_list.hpp:279-293 | the reversed spine stores the reversed values |
| Chains.StoresReverseRange | include/data_structures/linked_list.hpp:422-442 | the spine with positions m..n reversed stores the values with m..n reversed |
| Chains.StoresSwapPairs | include/data_structures/linked_list.hpp:449-471 | the pair-swapped spine stores the pair-swapped values, since swapPairs moves cells and not values |
| Chains.StoresPartTo | include/data_structures/linked_list.hpp:394-405 | the cells dealt to either side so far store the values dealt to that side |
| Chains.StoresPartition | include/data_structures/linked_list.hpp:385-413 | the partitioned spine stores the partitioned values |
| Chains.StoresInsert | include/data_structures/linked_list.hpp:220-226 | splicing in a cell splices its value into the values at the same position |
| Chains.StoresDrop | include/data_structures/linked_list.hpp:247-249 | dropping a cell drops its value at the same position |
| LinkedList.DSLinkedList.constructor | include/data_structures/linked_list.hpp:40 | an empty valid list: no cells, no values; the same code is at CPP-DSA/LinkedList/DSLinkedList.h:26 |
| LinkedList.DSLinkedList.Singleton | include/data_structures/linked_list.hpp:42-46 | a list of one fresh cell holding the value, which is both head and tail; length 1; the same code is at CPP-DSA/LinkedList/DSLinkedList.h:28-32 |
| LinkedList.DSLinkedList.Copy | include/data_structures/linked_list.hpp:51-57 | the copy holds the other list's values in order, in cells that are all fresh, so no cell is shared |
| LinkedList.DSLinkedList.AppendAll | include/data_structures/linked_list.hpp:52-56 | appending each of the other list's values to an empty list yields exactly those values, in fresh cells |
| LinkedList.DSLinkedList.CopyAssign | include/data_structures/linked_list.hpp:60-75 | self-assignment changes nothing; otherwise the list ends up holding the other's values in fresh cells |
| LinkedList.DSLinkedList.Move | include/data_structures/linked_list.hpp:78-82 | the new list takes over the other's cells and values; the other is left a valid empty list |
| LinkedList.DSLinkedList.MoveAssign | include/data_structures/linked_list.hpp:85-95 | self-assignment changes nothing; otherwise the cells move over and the other is left valid and empty |
| LinkedList.DSLinkedList.RelinkTail | include/data_structures/linked_list.hpp:32-37 | the walk from head stops at the last cell, so a chain with correct length and values becomes a valid list whose tail is that cell |
| LinkedList.DSLinkedList.Append | include/data_structures/linked_list.hpp:102-113 | a fresh cell holding v becomes the last cell and tail; values gain v at the end; length grows by one; the same code is at CPP-DSA/LinkedList/DSLinkedList.h:34-45 |
| LinkedList.DSLinkedList.Prepend | include/data_structures/linked_list.hpp:119-130 | a fresh cell holding v becomes head; values gain v in front; length grows by one; the same code is at CPP-DSA/LinkedList/DSLinkedList.h:47-58 |
| LinkedList.DSLinkedList.DeleteLast | include/data_structures/linked_list.hpp:136-153 | an empty list is unchanged; otherwise the last cell and value go, the cell before becomes tail, and a one-cell list becomes empty with null head and tail; the same code is at CPP-DSA/LinkedList/DSLinkedList.h:60-79 |
| LinkedList.DSLinkedList.DeleteFirst | include/data_structures/linked_list.hpp:158-169 | an empty list is unchanged; otherwise the first cell and value go, and a one-cell list becomes empty with null head and tail; the same code is at CPP-DSA/LinkedList/DSLinkedList.h:81-94 |
| LinkedList.DSLinkedList.Get | include/data_structures/linked_list.hpp:177-185 | the result is non-null exactly when 0 <= index < length, and then it is the cell at index, holding the value at index; the same code is at CPP-DSA/LinkedList/DSLinkedList.h:96-106 |
| LinkedList.DSLinkedList.Set | include/data_structures/linked_list.hpp:193-200 | true exactly when the index is in range; then the value at index is replaced; otherwise nothing changes; the same code is at CPP-DSA/LinkedList/DSLinkedList.h:108-115 |
| LinkedList.DSLinkedList.Insert | include/data_structures/linked_list.hpp:208-227 | true exactly when 0 <= index <= length; then a fresh cell holding v sits at index, with the cells and values before and after unchanged; otherwise nothing changes; the same code is at CPP-DSA/LinkedList/DSLinkedList.h:117-139 |
| LinkedList.DSLinkedList.LinkAfter | include/data_structures/linked_list.hpp:220-226 | the inner case of insert: the new cell is spliced in after the cell at index-1 |
| LinkedList.DSLinkedList.RemoveAt | include/data_structures/linked_list.hpp:235-250 | for an index in range, the cell and value at index go and the rest keep their order; otherwise nothing changes; the same code is at CPP-DSA/LinkedList/DSLinkedList.h:141-157 |
| LinkedList.DSLinkedList.UnlinkAfter | include/data_structures/linked_list.hpp:247-249 | the inner case of removeAt: the cell after index-1 is bypassed |
| LinkedList.DSLinkedList.Size | include/data_structures/linked_list.hpp:269 | the stored length equals the number of values, and following exactly that many links from head reaches null and no fewer; the same code is at CPP-DSA/LinkedList/DSLinkedList.h:174 |
| LinkedList.DSLinkedList.Reverse | include/data_structures/linked_list.hpp:279-293 | the cells and the values end up in reverse order |
| LinkedList.DSLinkedList.ReverseSubset | include/data_structures/linked_list.hpp:422-442 | for 0 <= m < n < length, the cells and values at positions m..n are reversed; any other m, n leaves the list as it was |
| LinkedList.DSLinkedList.RelinkRange | include/data_structures/linked_list.hpp:425-441 | past the guard, the dummy-cell loop reverses positions m..n of the cells and of the values |
| LinkedList.DSLinkedList.SwapPairs | include/data_structures/linked_list.hpp:449-471 | the cells, and with them the values, of each adjacent pair are exchanged; a trailing odd cell stays last |
| LinkedList.DSLinkedList.FindMiddle | include/data_structures/linked_list.hpp:302-312 | null exactly for an empty list; otherwise the cell at length/2, the second middle of an even list |
| LinkedList.DSLinkedList.FindKthNodeFromEnd | include/data_structures/linked_list.hpp:321-338 | non-null exactly when 1 <= k <= length, and then the cell at length-k, the k-th from the end |
| LinkedList.DSLinkedList.RemoveDuplicatesFromSortedList | include/data_structures/linked_list.hpp:345-358 | the values become Dedup of the old values, and the cells kept are the first cell of each run of equal values |
| LinkedList.DSLinkedList.DedupStep | include/data_structures/linked_list.hpp:347-356 | one round of the loop either unlinks the duplicate after current or moves on, and keeps the progress invariant one position further |
| LinkedList.DSLinkedList.UnlinkNext | include/data_structures/linked_list.hpp:349-352 | unlinking the cell after current removes exactly that cell and its value, and current becomes tail if it is now last |
| LinkedList.BinaryToDecimal | include/data_structures/linked_list.hpp:367-375 | for 0/1 values the result is the binary number they spell, head first, and lies in [0, 2^length) |
| LinkedList.PartitionList | include/data_structures/linked_list.hpp:385-413 | the values become the stable partition around x, the cells are relinked in that same order, and the new head is returned |
| Relink.ReverseLinks | include/data_structures/linked_list.hpp:282-292 | every link is turned around: cell j points at cell j-1, the old first cell ends the chain, and the old last cell is returned |
| Relink.ReverseRangeLinks | include/data_structures/linked_list.hpp:427-439 | after walking to m and relinking, the spine is ReverseRange(ns, m, n), null-terminated, with the dummy pointing at its first cell |
| Relink.RelocateLinks | include/data_structures/linked_list.hpp:433-439 | the n-m head insertions turn the spine behind the dummy into the one with m..n reversed |
| Relink.MoveNext | include/data_structures/linked_list.hpp:435-438 | one head insertion moves the cell after current to just after prev, and the spine stays linked and null-terminated |
| Relink.SwapLinks | include/data_structures/linked_list.hpp:450-469 | the chain behind the dummy becomes SwapPairs of the cells, null-terminated, with the dummy pointing at its first cell |
| Relink.SwapLoop | include/data_structures/linked_list.hpp:453-467 | the pair loop turns the spine behind the dummy into the pair-swapped spine |
| Relink.SwapNext | include/data_structures/linked_list.hpp:457-466 | one round exchanges the pair after prev, and the spine stays linked and null-terminated |
| Relink.PartitionChain | include/data_structures/linked_list.hpp:388-409 | with two dummy cells, the chain is relinked into the cells below x followed by the rest, each side in input order, null-terminated, and its first cell is returned |
| Relink.PartitionLinks | include/data_structures/linked_list.hpp:393-405 | the dealing loop ends with every cell dealt: the below side and the at-least side each form a chain from their dummy |
| Relink.PartitionStep | include/data_structures/linked_list.hpp:395-404 | one round deals the current cell to its side and keeps the dealing invariant one position further |
| Relink.PartitionTurn | include/data_structures/linked_list.hpp:395-403 | the current cell is appended to the below side when its value is below x and to the other side otherwise; both sides stay chains |
| Relink.Detach | include/data_structures/linked_list.hpp:395-398 | moving the current cell's link out and hanging the cell behind a side's last cell extends that side by it and leaves the rest a chain |
| Relink.DealNext | include/data_structures/linked_list.hpp:396-403 | dealing cell i extends exactly the side its value selects |
| Relink.JoinParts | include/data_structures/linked_list.hpp:407-409 | closing the at-least side and joining it behind the below side gives the partitioned chain, null-terminated, and its first cell |
| Relink.DealtAll | include/data_structures/linked_list.hpp:407-408 | once every cell is dealt, the below side followed by the at-least side without its dummy is the partition of the cells |
| Relink.JoinChains | include/data_structures/linked_list.hpp:407-408 | ending the at-least side and linking the below side's last cell to its first real cell gives one null-terminated chain |
| Relink.PartitionShape | include/data_structures/linked_list.hpp:409-411 | the relinked spine has the old length and stores the partitioned values, so relinkTail restores the invariant |
| Seqs.ReverseCons | include/data_structures/linked_list.hpp:286-291 | reversing a non-empty sequence puts its first element last, behind the reversed rest |
| Seqs.ReverseInvolution | include/data_structures/linked_list.hpp:279-293 | reversing twice gives back the sequence |
| Seqs.ReverseMultiset | include/data_structures/linked_list.hpp:279-293 | reversal is a permutation |
| Seqs.ReverseRangeAt | include/data_structures/linked_list.hpp:415-442 | position k holds s[m+n-k] inside m..n and s[k] outside |
| Seqs.ReverseRangeInvolution | include/data_structures/linked_list.hpp:422-442 | reversing the same range twice gives back the sequence |
| Seqs.ReverseRangeSingle | include/data_structures/linked_list.hpp:423 | a range of one position changes nothing, which is why m == n may return early |
| Seqs.ReverseRangeWhole | include/data_structures/linked_list.hpp:422-442 | reversing the range 0..length-1 is reversing the whole list |
| Seqs.ReverseRangeMultiset | include/data_structures/linked_list.hpp:422-442 | a range reversal is a permutation |
| Seqs.ReverseSpineStart | include/data_structures/linked_list.hpp:425-433 | before the first head insertion the spine is the dummy followed by the cells |
| Seqs.ReverseSpineStep | include/data_structures/linked_list.hpp:434-439 | one head insertion grows the reversed block at m by one cell |
| Seqs.ReverseSpineEnd | include/data_structures/linked_list.hpp:434-440 | after n-m insertions the spine is the dummy followed by the range-reversed cells |
| Seqs.FilterBelowBounds | include/data_structures/linked_list.hpp:376-380 | the below side holds only values below x, the other side only values at least x |
| Seqs.PartToPrefix | include/data_structures/linked_list.hpp:394-405 | after i cells the sides hold the cells among the first i whose values fall on that side, in order |
| Seqs.PartToWhole | include/data_structures/linked_list.hpp:394-405 | after the last cell each side is the selection of all cells on that side |
| Seqs.PartitionByValues | include/data_structures/linked_list.hpp:385-413 | partitioning the values by themselves is the stable value partition |
| Seqs.PartitionByPermutation | include/data_structures/linked_list.hpp:385-413 | partitioning the cells only rearranges them: the same cells, so the length is kept |
| Seqs.PartitionPermutation | include/data_structures/linked_list.hpp:376-380 | the partition is a permutation of the values |
| Seqs.PartitionOrdered | include/data_structures/linked_list.hpp:376-380 | every value below x comes before every value at least x |
| Seqs.PartitionStable | include/data_structures/linked_list.hpp:376-380 | each side keeps its relative order: filtering the result by a side gives back that side of the input |
| Seqs.DedupSnoc | include/data_structures/linked_list.hpp:347-356 | one more value is kept exactly when it differs from the one before |
| Seqs.DedupEnds | include/data_structures/linked_list.hpp:345-358 | the first and the last value survive |
| Seqs.DedupNoAdjacentEqual | include/data_structures/linked_list.hpp:340-344 | no two adjacent values of the result are equal |
| Seqs.DedupUnchanged | include/data_structures/linked_list.hpp:345-358 | a list without adjacent equal values is unchanged |
| Seqs.DedupSameValues | include/data_structures/linked_list.hpp:340-344 | a value occurs in the result exactly when it occurs in the input |
| Seqs.DedupRemovesOnly | include/data_structures/linked_list.hpp:345-358 | removing duplicates only removes cells: each value occurs in the result at most as often as in the input, and the list gets no longer |
| Seqs.DedupIdempotent | include/data_structures/linked_list.hpp:345-358 | removing duplicates twice is removing them once |
| Seqs.DedupSorted | include/data_structures/linked_list.hpp:340-344 | on a sorted list each value appears once: the result is strictly sorted and distinct, with the same values |
| Seqs.DedupStrict | include/data_structures/linked_list.hpp:340-344 | on a sorted list the result is strictly sorted |
| Seqs.StrictlySortedDistinct | include/data_structures/linked_list.hpp:340-344 | a strictly sorted list has no repeated value |
| Seqs.BinaryValueRange | include/data_structures/linked_list.hpp:359-375 | the binary value of length 0/1 digits lies in [0, 2^length) |
| Seqs.BinaryValueOfBits | include/data_structures/linked_list.hpp:359-375 | reading back the digits of n < 2^w gives n |
| Seqs.BitsOfBinaryValue | include/data_structures/linked_list.hpp:359-375 | writing out the value of a digit list gives back the digits |
| Seqs.SwapPairsUnfold | include/data_structures/linked_list.hpp:456-467 | a list shorter than 2 is unchanged; otherwise the first two swap, followed by the swapped rest |
| Seqs.SwapSpineStep | include/data_structures/linked_list.hpp:456-466 | one round of the pair loop advances the spine by one swapped pair |
| Seqs.SwapSpineEnd | include/data_structures/linked_list.hpp:456-469 | when fewer than two cells remain, the spine is the dummy followed by the pair-swapped cells |
| Seqs.SwapPairsInvolution | include/data_structures/linked_list.hpp:444-448 | swapping pairs twice gives back the list |
| Seqs.SwapPairsMultiset | include/data_structures/linked_list.hpp:444-448 | swapping pairs is a permutation |
| LinkedList.MiddleDemo | examples/linked_list_demo.cpp:57-70 | on the list 1, 2, 3, 4 `findMiddle` gives the cell holding 3, the second of the two middles, and `findKthNodeFromEnd(2)` also gives 3 |
| LinkedList.IntListDemo | examples/linked_list_demo.cpp:7-35 | 1, 2, 3, 4, 5 after removeAt(2), removeAt(0), removeAt(size - 1), set(1, 500) and insert(1, 99) is 2, 99, 500, of size 3 |
| LinkedList.RemoveThree | examples/linked_list_demo.cpp:15-25 | the three removals take 1, 2, 3, 4, 5 to 2, 4, keeping the cells of 2 and 4 |
| LinkedList.RemoveInner | examples/linked_list_demo.cpp:15-21 | removeAt(2) and then removeAt(0) take 1, 2, 3, 4, 5 to 2, 4, 5, keeping the cells of 2, 4 and 5 |
| LinkedList.EditTail | examples/linked_list_demo.cpp:27-33 | set(1, 500) and then insert(1, 99) take 2, 4 to 2, 99, 500 |
| LinkedList.Listed2 | examples/linked_list_demo.cpp:8-9 | a one-value list with one append holds the two values in order, in fresh cells |
| LinkedList.Listed3 | examples/linked_list_demo.cpp:46-48 | a one-value list with two appends holds the three values in order, in fresh cells |
| LinkedList.Listed5 | examples/linked_list_demo.cpp:8-12 | a one-value list with four appends holds the five values in order, in fresh cells |
| LinkedList.StringListDemo | examples/linked_list_demo.cpp:37-43 | the string list holds Hello, World, Template, Example, of size 4; the same code is at CPP-DSA/main.cpp:20-25 |
| LinkedList.RealListDemo | examples/linked_list_demo.cpp:45-55 | the list 3.14, 2.71, 1.41 has size 3 and reverses to 1.41, 2.71, 3.14; the building and size are also at CPP-DSA/main.cpp:30-34 |
| LinkedList.EarlyDemo | CPP-DSA/main.cpp:6-15 | 4, 65, 5, 67 has size 4, and two deleteLast calls leave 4, 65, of size 2 |
| LinkedList.DeleteTwo | CPP-DSA/main.cpp:12-13 | two deleteLast calls take 4, 65, 5, 67 to 4, 65 |
| Seqs.DemoBinary | examples/linked_list_demo.cpp:89-94 | the demonstration's digits 1, 0, 1 read as 5 |
| Seqs.DemoDedup | examples/linked_list_demo.cpp:72-87 | the demonstration's 1, 2, 3, 4, 5, which has no duplicates, is left unchanged; an added example of the model's own shows 1, 1, 2, 3, 3, 3, 4 becoming 1, 2, 3, 4 |
| Seqs.DemoPartition | examples/linked_list_demo.cpp:96-107 | the demonstration's list 1, 4, 3, 2, 5, 2 partitions around 3 into 1, 2, 2, 4, 3, 5 |
| Seqs.DemoReverseRange | examples/linked_list_demo.cpp:110-118 | reversing positions 1..3 of 1, 2, 3, 4, 5 gives 1, 4, 3, 2, 5 |
| Seqs.DemoSwapPairs | include/data_structures/linked_list.hpp:444-448 | an example of the model's own, since no demonstration runs swapPairs: swapping the pairs of 1, 2, 3, 4, 5 gives 2, 1, 4, 3, 5 |
| CycleDetection.TestNode.constructor | include/algorithms/test_utils.hpp:13-17 | a new test node holds the value and links to nothing; the same code is at CPP-DSA/testUtils.h:15-19 |
| CycleDetection.HasCycle | include/algorithms/test_utils.hpp:25-37 | true exactly when the walk from head never reaches null, i.e. it runs into a cycle; only the two cursors move, no node is written, and the loop terminates; the same code is at CPP-DSA/testUtils.h:27-39 |
| CycleDetection.StepNext | include/algorithms/test_utils.hpp:32-33 | the node k+1 links on is the successor of the node k links on |
| CycleDetection.StepAdd | include/algorithms/test_utils.hpp:32-33 | following a+b links is following a links and then b more |
| CycleDetection.NullSticks | include/algorithms/test_utils.hpp:31 | once the walk reached null it stays there, so the fast cursor is never behind a live slow one |
| CycleDetection.Periodic | include/algorithms/test_utils.hpp:31-35 | a walk that returns to a node after d links repeats with period d from there on |
| CycleDetection.CycleNoNull | include/algorithms/test_utils.hpp:34 | when the slow cursor (i links) and the fast one (2i links) meet on a node, the walk never reaches null, so answering true is right |
| CycleDetection.WalkRepeats | include/algorithms/test_utils.hpp:31-35 | when none of the first |ns|+1 nodes of the walk is null, two of them coincide |
| CycleDetection.RepeatMeets | include/algorithms/test_utils.hpp:31-35 | a walk repeating the node of position a at position b has the cursors meet within b rounds |
| CycleDetection.FloydBound | include/algorithms/test_utils.hpp:31-35 | within |ns| rounds the fast cursor runs out or the cursors meet, which bounds the loop |
| CycleDetection.CycleRevisits | include/algorithms/test_utils.hpp:19-37 | the walk from head never reaches null exactly when it comes back to a node it visited before, so `hasCycle`'s answer means the chain loops |
| CycleDetection.LinearEnds | include/algorithms/test_utils.hpp:45-56 | the chain 1, 2, 3, 4 reaches null |
| CycleDetection.LoopNeverEnds | include/algorithms/test_utils.hpp:58-61 | with 4 pointing back at 2 the walk never reaches null |
| CycleDetection.LinearNodes | include/algorithms/test_utils.hpp:45-53 | four nodes holding 1..4, linked in order, the last ending the chain |
| CycleDetection.CycleDemo | include/algorithms/test_utils.hpp:43-62 | the first check answers false and, after 4 is pointed back at 2, the second answers true; the same code is at CPP-DSA/testUtils.h:45-64 |

## Left out

- Console output is left out: `printList` and the printing in `testCycleDetection`.
  - The demonstrations' list outputs are stated instead: `IntListDemo`, `StringListDemo`, `RealListDemo`, `MiddleDemo` and the `Demo` lemmas for `examples/linked_list_demo.cpp`; `EarlyDemo` with `StringListDemo` and `RealListDemo` for `CPP-DSA/main.cpp`; `CycleDemo` for `testCycleDetection`.
  - The sizes the demonstrations print are read from `length`, which is what `size()` returns.
  - The demonstration's `double` values are modelled as `real`. Only `reverse` touches them, and it does no arithmetic.
  - `CPP-DSA/test.cpp` only iterates over a `std::vector` and does not use the list, so nothing of it is modelled.
- Memory management is left out.
  - The model has no destructors, no freeing of removed cells and no end of `unique_ptr` lifetimes.
  - Allocation never fails.
  - The `delete` calls at the end of `testCycleDetection` are not modelled.
  - A removed cell simply becomes unreachable.
- `std::move` of a `unique_ptr` leaves a null behind. The model writes such a null where the source leaves one that the proof needs, and skips it where the source's null is overwritten at once or dropped with its cell.
  - `partitionList` writes them, so that each side stays a null-terminated chain after every round. No later round reads such a null: it is overwritten when the next cell joins the same side, or when the two sides are joined at the end.
  - `reverse` and removing a duplicate skip them: their nulls are overwritten at once or dropped with the cell.
  - The transient states in which a cell is owned by a local `unique_ptr` are not modelled.
- `int` overflow is not modelled, because integers are unbounded here.
  - An overflowing `length` is not modelled.
  - Indices are unbounded integers.
- LinkedList.BinaryToDecimal: the contract requires every value to be 0 or 1, as the source documents.
  - For such digits, `(result << 1) | value` is `2 * result + value`.
  - The wrap-around of `result` past 31 bits is not modelled. In C++ it is undefined behaviour before C++20; since C++20 the shift wraps modulo 2^32.
- LinkedList.PartitionList is modelled for `int` values only, since it needs `<`.
  - Its dummy cells hold `T{}`, which is 0 for `int`.
  - The other instantiations in the demonstration (`double`, `std::string`) are not modelled.
- The value `T{}` in the dummy cells of `reverseSubset` and `swapPairs` is an arbitrary value of `T`. Nothing reads it.
- The earlier header declares no copy or move members. Its implicitly generated move operations would leave the moved-from `tail` and `length` stale. Those implicit members are not modelled.
- `CPP-DSA/Data Structures/Linked List/DSLinkedList.h` and `.cpp` are an earlier copy of the same container, with `len` for `length` and the same `append` and `deleteLast`. They are outside the modelled core and are not part of this model.
- CycleDetection.HasCycle takes, as a ghost parameter, a finite sequence of nodes closed under `next` that contains `head`.
  - It stands for the finite heap, and any caller has one: the nodes reachable from `head`.
  - The result does not depend on it.
- The `Valid()` invariant stands for the promise of the `unique_ptr` ownership. It does not model ownership transfer or aliasing outside the list.
