# lab0-c queue, modelled in Dafny

This project models `queue.c` of lab0-c. That file implements a string queue
on the Linux kernel's intrusive circular doubly linked list (`struct
list_head`). Its parts are:

- `q_new` and `q_free`;
- insertion and removal at either end, including the copy of a removed
  string into a caller's buffer;
- `q_size`;
- `q_delete_mid` (the two-pointer walk) and `q_delete_dup`;
- `q_swap`, `q_reverse` and `q_reverseK`;
- `q_sort`, which runs the kernel's bottom-up `list_sort` (`merge`,
  `merge_final`, `cmpfunc`) and then reverses the queue for descending order.

## Modules

- `CStrings`: covers `strdup`, `strcmp` and `strncpy`.
  - A C string is the prefix of a Dafny string before its first NUL (`CStr`).
  - `strcmp` is lexicographic comparison by character code, reduced to its
    sign (`Compare`).
  - `strncpy` is an imperative copy into a `char` array.
- `Rings`: what it means for `next`/`prev` links to form a circular list.
  - The list has a sentinel slot `h` and the slots `xs` in ring order
    (`IsRing`).
  - The file also has the lemmas about linking a slot in, unlinking it,
    splicing and cutting rings, and the frame lemmas (`AgreeOutside`).
- `ListHead`: the memory of the program as an arena, the class `Arena`.
  - Every `list_head` is a slot holding `next` and `prev` slot numbers
    (NULL is -1) and the element's string.
  - The queue's own head is slot 0.
  - The ghost field `ids` records the queue's slots in order.
  - `Contents()` gives the queue's strings.
  - `Valid()` says that the links form that ring and that every string is
    NUL-free.
  - The list.h primitives the queue code calls are methods of the class:
    `INIT_LIST_HEAD`, `list_add`, `list_add_tail`, `list_del`,
    `list_move`, `list_cut_position`, `list_splice`, `list_splice_init`,
    `list_splice_tail`.
- `QueueSpec`: the reference behaviour of the whole-queue operations as
  functions on sequences, with their algebra: involutions, permutations,
  and what duplicate deletion keeps.
  - Functions: `Reverse`, `Swap`, `ReverseK`, `DeleteAt`, `DeleteDups`.
- `SortSpec`: the reference for sorting.
  - It defines `cmpfunc`, the stable merge of two runs (`Merge`), and a
    reference stable insertion sort (`Sort`).
  - It proves that `Sort` sorts, that it is stable (`KeyFilter`), and that
    merging the sorts of two adjacent runs sorts their concatenation.
- `ListSort`: `list_sort`, `merge` and `merge_final` as imperative methods
  over the arena.
  - The pending stack of runs, linked through `prev`, is described by the
    ghost predicate `Stack`.
  - The method `ListSort` is proved to leave the ring in exactly the order
    `Sort` gives.
- `Queue`: the `q_*` functions as methods taking a possibly-null `Arena?`.
  - Each is proved against the reference functions: the new slot order
    and the new `Contents()` are stated outright.

Real pointers, `malloc` and `free` become slot numbers in the arena.
Allocation appends slots. The outcome of an allocation is a `bool`
parameter of the method that allocates.

The "delete the middle node of a linked list" problem cited at queue.c:116
defines the middle as index floor(n/2). The walk at queue.c:121-124 stops at
floor((n-1)/2), and the two differ for even n. The model follows the code,
`Queue.DeleteMid`. The floor(n/2) version is `Queue.DeleteMidCorrected`
(see Findings).

## Model

| member | source | states |
|---|---|---|
| Queue.New | queue.c:15-22 | returns null exactly when the allocation fails, otherwise a fresh valid queue with no elements |
| ListHead.Arena.constructor | queue.c:17-20 | a fresh arena whose head slot links to itself, so the queue is empty and valid |
| ListHead.Arena.InitListHead | queue.c:20 | INIT_LIST_HEAD links slot h to itself, making it an empty ring; no other slot changes |
| Queue.Free | queue.c:25-35 | a null queue releases nothing; otherwise every element slot is released in queue order and the queue is left empty |
| CStrings.CStr | queue.c:45 | the string strdup copies is the longest NUL-free prefix of its argument |
| CStrings.CStrOfNoNul | queue.c:45 | strdup of a NUL-free string is that string |
| Queue.InsertHead | queue.c:38-52 | succeeds exactly when the queue is non-null and both allocations succeed; then strdup(s) is the new first element and the rest is unchanged; on failure the queue is untouched |
| Queue.PushedValid | queue.c:45-50 | a NUL-free string linked in as a new slot at the front or the back keeps the queue valid, and its contents gain that string at that end |
| ListHead.Arena.ListAdd | queue.c:50 | list_add links node right after pos, with exactly the four pointer writes, and the ring gains node at that position |
| Queue.InsertTail | queue.c:55-69 | as InsertHead, with the new element last |
| ListHead.Arena.ListAddTail | queue.c:67 | list_add_tail links node right before pos, with exactly the four pointer writes, and the ring gains node at that position |
| ListHead.Arena.ListEmpty | queue.c:74 | list_empty holds exactly when the ring holds no slot |
| Queue.RemoveHead | queue.c:72-84 | a null or empty queue gives NULL and changes nothing; otherwise returns the first slot, removes it from the queue, and copies the string into sp truncated to bufsize-1 characters and NUL-terminated, leaving sp beyond bufsize alone |
| Queue.RemoveTail | queue.c:87-99 | as RemoveHead, for the last element |
| Queue.CopyOut | queue.c:78-81 | after the copy, sp[..bufsize] read as a C string is the element's string truncated to bufsize-1 characters; the rest of sp is unchanged |
| Queue.Truncate | queue.c:79-80 | the copied string is a prefix of the value of at most bufsize-1 characters, and the whole value when that fits |
| CStrings.StrNCopy | queue.c:79 | strncpy(dst, src, n) writes src's C string and then NULs into dst[..n] and leaves the rest of dst alone |
| CStrings.CopiedPrefix | queue.c:79-80 | a buffer filled by strncpy of bufsize-1 characters and a final NUL holds, as a C string, the value's prefix of at most bufsize-1 characters |
| ListHead.Arena.ListDel | queue.c:82 | list_del joins node's neighbours to each other, and the ring loses node |
| ListHead.Arena.Unlink | queue.c:82 | unlinking the element at position j of a valid queue leaves a valid queue whose slots and strings are those with position j deleted |
| Queue.Size | queue.c:102-111 | 0 on a null queue; otherwise the number of elements |
| Queue.WalkToMiddle | queue.c:119-124 | the walk from both ends stops with move_head at index (n-1)/2 and move_tail at index n/2 |
| Queue.DeleteMid | queue.c:114-129 | returns false on a null or empty queue, leaving it untouched; otherwise deletes the element at index (n-1)/2, as the code does |
| Queue.DeleteMidCorrected | queue.c:114-129 | the intended variant: deletes the element at index n/2 |
| Queue.DeleteMidEvenCounterexample | queue.c:114-129 | on ["a","b","c","d"] the code removes "b" where n/2 would remove "c"; the two indices differ for every even n |
| QueueSpec.DeleteAt | queue.c:126 | removing index m shifts everything after m down by one and keeps everything before it |
| Queue.DeleteDup | queue.c:132-151 | false on a null or empty queue, leaving it untouched; otherwise keeps exactly the elements whose string equals neither neighbour's, in order, so the contents become DeleteDups of the old contents |
| Queue.DupWalk | queue.c:138-150 | the list_for_each_entry_safe walk with the del flag keeps exactly the slots whose strings are isolated |
| Queue.IsolatedStep | queue.c:140-148 | in one iteration the entry is deleted exactly when it equals its successor or del is set, that is, exactly when it is not isolated |
| Queue.KeptSlotsValues | queue.c:132-151 | the strings of the kept slots are the isolated strings of the queue |
| QueueSpec.KeepIsolatedMembers | queue.c:132-151 | a string survives exactly when it occurs at an index where it equals neither neighbour |
| QueueSpec.DeleteDupsSorted | queue.c:132-151 | on sorted input the result is strictly sorted, so no value occurs twice |
| QueueSpec.DeleteDupsKeepsUnique | queue.c:132-151 | on sorted input the result holds exactly the values that occur once in the input |
| QueueSpec.IsolatedIsUnique | queue.c:140 | in a sorted queue an element is isolated exactly when its value occurs once |
| Queue.SwapQueue | queue.c:154-165 | the queue becomes Swap of itself: each full pair is exchanged and an odd last element stays |
| ListHead.Arena.ListMove | queue.c:163 | list_move deletes node and re-adds it after pos; the ring is the one with node moved to position k |
| Queue.SwapPairStep | queue.c:160-164 | moving the element at 2p behind its successor extends the swapped prefix by one pair |
| QueueSpec.SwapAt | queue.c:154-165 | Swap exchanges positions 2i and 2i+1 and leaves an odd last element in place |
| QueueSpec.SwapInvolutive | queue.c:154-165 | swapping pairs twice gives back the queue |
| QueueSpec.SwapPermutes | queue.c:154-165 | swapping pairs only reorders the elements |
| Queue.ReverseKQueue | queue.c:168-191 | for k >= 1 the queue becomes ReverseK of itself: each full group of k is reversed and a shorter rest stays in order; a null or empty queue is left alone for any k, and so is a queue shorter than a negative k (q_size / k is 0) |
| Queue.CDiv | queue.c:174 | C's int division truncates toward zero: for non-negative operands it is the ordinary quotient, and a non-negative dividend smaller than a negative divisor's magnitude gives 0 |
| Queue.TakeGroup | queue.c:176-186 | the inner list_for_each_safe loop moves the next k elements onto temp2 in reverse order |
| ListHead.Arena.ListCutPosition | queue.c:183 | list_cut_position moves the elements up to and including entry to the emptied list ht and leaves the rest on hf |
| ListHead.Arena.ListSpliceInit | queue.c:184 | list_splice_init puts list's elements in front of head's and leaves list empty |
| ListHead.Arena.ListSplice | queue.c:184 | list_splice puts list's elements in front of head's |
| ListHead.Arena.ListSpliceTail | queue.c:187 | list_splice_tail puts list's elements behind head's |
| Queue.ReverseGroups | queue.c:175-189 | after times = n/k rounds, nhead holds ReverseK of the first times*k elements and the queue holds the rest unchanged |
| Queue.SpliceBack | queue.c:190 | splicing nhead back in front of the rest gives the ring in order done + rest |
| QueueSpec.ReverseKOne | queue.c:168-191 | groups of one leave the queue unchanged |
| QueueSpec.ReverseKTwoIsSwap | queue.c:168-191 | groups of two are exactly q_swap |
| QueueSpec.ReverseKInvolutive | queue.c:168-191 | k-group reversal applied twice gives back the queue |
| QueueSpec.ReverseKPermutes | queue.c:168-191 | k-group reversal only reorders the elements |
| QueueSpec.ReverseKLastGroups | queue.c:174-190 | only the first (n/k)*k elements move; those after them are unchanged |
| Queue.ReverseQueue | queue.c:194-205 | the queue's slots and strings become their own reversal |
| Queue.ExchangeLinks | queue.c:199-202 | the loop swaps next and prev on every element, setting next to the old prev |
| Queue.ReversedLinks | queue.c:199-204 | exchanging every element's links and then the head's gives the ring in reverse order |
| QueueSpec.ReverseInvolutive | queue.c:194-205 | reversing twice gives back the queue |
| QueueSpec.ReversePermutes | queue.c:194-205 | reversal only reorders the elements |
| SortSpec.CmpFunc | queue.c:263-268 | cmpfunc returns -1, 0 or 1, and 0 exactly when the two elements' strings are equal |
| CStrings.CompareZero | queue.c:140 | strcmp returns 0 exactly when the strings are equal |
| CStrings.LeTotalOrder | queue.c:263-268 | the order cmpfunc induces is total, antisymmetric and transitive |
| CStrings.CompareAntisymmetric | queue.c:263-268 | swapping strcmp's arguments flips the sign |
| SortSpec.Merge | queue.c:270-296 | the merge of two runs is a permutation of their concatenation |
| ListSort.MergeLoop | queue.c:274-294 | the merge loop links the taken slots in Merge order and stops once one run is exhausted |
| ListSort.MergeLists | queue.c:270-296 | merge(cmp, a, b) returns a NULL-terminated chain of exactly Merge of the two runs, taking from a on ties, and writes no next outside the two runs |
| ListSort.MergeFinal | queue.c:298-336 | merge_final makes the head's ring hold exactly Merge of the two runs, restoring every prev link, and changes no slot outside head and the two runs |
| ListSort.FinalMerging | queue.c:305-323 | the first loop of merge_final links the merged prefix forwards and backwards from head until one run is exhausted |
| ListSort.FinalWalk | queue.c:325-332 | the do-while relinks the rest of the remaining run with correct prev pointers |
| ListSort.FindTail | queue.c:349-352 | for each trailing 1 bit of count the walk goes one run down the pending stack; bits is count with those bits shifted out |
| ListSort.MergeAt | queue.c:354-360 | merges the two adjacent pending runs at depth j into one run holding Merge of them, keeping the stack valid |
| ListSort.MaybeMerge | queue.c:349-360 | after the conditional merge the stack has one run fewer than the bit length of count+1 |
| ListSort.Push | queue.c:362-366 | the first remaining element becomes a new one-element run on top of the stack |
| ListSort.Round | queue.c:348-367 | one iteration consumes one element and leaves BitLength(count+1) sorted runs that together are the input so far |
| ListSort.SortRuns | queue.c:347-367 | the do-while consumes the whole chain and leaves BitLength(n) pending runs, each the sort of its segment of the input |
| ListSort.FoldRuns | queue.c:369-376 | the for loop merges the pending runs from the top until only the bottom run is left beside list |
| ListSort.FinalMerges | queue.c:368-377 | the rest of list_sort leaves the head's ring in exactly the order Sort gives the input |
| ListSort.SortChain | queue.c:347-377 | from the NULL-terminated chain of at least two elements, list_sort rebuilds the ring in Sort order |
| ListSort.ListSort | queue.c:338-379 | list_sort leaves the ring in exactly the stable order Sort gives, and touches nothing but head and the queue's slots |
| SortSpec.MergeSort | queue.c:270-296 | merging the sorts of two adjacent runs is the sort of their concatenation, which is why list_sort's merges compose |
| SortSpec.SortShort | queue.c:362-366 | a one-element run is already sorted |
| SortSpec.Sort | queue.c:338-379 | the reference sort is a permutation of its input |
| SortSpec.SortSorted | queue.c:338-379 | the reference sort's output is ordered by cmpfunc |
| SortSpec.SortStable | queue.c:338-379 | the reference sort is stable: for each string, the slots carrying it keep their relative order |
| SortSpec.KeyFilterConcat | queue.c:338-379 | filtering by string distributes over concatenation |
| SortSpec.MergeIns | queue.c:270-296 | merging after an insertion equals inserting into the merge |
| ListHead.ValuesPermuted | queue.c:383-389 | reordering slots reorders their strings in the same way |
| Queue.SortAscending | queue.c:385 | after list_sort the slots are in Sort order, the strings are a permutation of the old ones, and they are sorted |
| Queue.SortedState | queue.c:385 | a ring relinked in Sort order is a valid queue whose strings are sorted and are a permutation of the old ones |
| Queue.QSort | queue.c:383-389 | q_sort orders the slots as Sort, or as its reversal when descend is set; the strings are permuted and sorted ascending, or descending when descend is set |
| Queue.SortedValues | queue.c:383-389 | slots in cmpfunc order carry strings in sorted order |

## Left out

- Memory management:
  - `malloc` and `free` of elements and strings, and `q_release_element`,
    are not modelled. Allocation appends slots to the arena, and released
    slots are returned or dropped, never reused.
  - `Queue.Free` returns the released slots.
  - Whether an allocation succeeds is a `bool` parameter (`allocOk`,
    `elementOk`, `valueOk`).
- Stack storage: `LIST_HEAD(nhead)`, `temp1` and `temp2` in `q_reverseK`
  are modelled as three slots appended to the arena.
  `ReverseKQueue` therefore states `old(head.value) <= head.value`, not
  that the arena is unchanged.
- `q_ascend`, `q_descend` and `q_merge` (queue.c:393-413) are stubs that
  return 0. They are not modelled.
- `mlist`, `msort` and `restructure_list` (queue.c:210-255) are not modelled.
  Nothing in the file calls this top-down sort, and `q_sort` uses
  `list_sort`.
- `list_sort` details that are left out:
  - The `count` byte of `merge_final` and its `cmp(b, b)` call are not
    modelled. The call has no effect with `cmpfunc`; it exists only as a
    scheduling hook.
  - The branch hints `__glibc_likely` and `__glibc_unlikely` only affect
    code layout.
  - Its `cmp` parameter is fixed to `cmpfunc`, the only comparison passed
    in this file.
- `count` and `bits` are unbounded naturals. A queue longer than
  `size_t` can count is not modelled.
- The `int` results of `q_size` are unbounded integers. So is `times` in
  `q_reverseK`.
- Queue.ReverseKQueue: on a non-empty queue, requires `k >= 1` or a negative
  `k` with `n < -k`. The two other cases do not terminate normally in the
  code, so the model excludes them:
  - With `k == 0`, `q_size(head) / k` at queue.c:174 divides by zero.
  - With a negative `k` and `n >= -k`, `times` is negative. The inner loop
    never sees `count == 0`, so its first pass moves the whole queue onto
    nhead, reversed. After that, `while (times)` keeps running over the
    empty queue until `times` overflows.
- Queue.RemoveHead: requires `1 <= bufsize <= sp.Length` when `sp` is
  non-null. With `bufsize == 0`, `bufsize - 1` wraps around in the code.
  The same holds for Queue.RemoveTail.
- Queue.QSort: requires a non-null head, because `list_sort` dereferences
  `head` unconditionally.
- Queue.DeleteDup: the code does not require sorted input. The contract
  states what it does on any input (it keeps the elements equal to neither
  neighbour). The uniqueness properties are stated only for sorted input,
  in `DeleteDupsSorted` and `DeleteDupsKeepsUnique`.
- `list.h` is not part of this model. The primitives are written from the
  Linux kernel's definitions of `list_add`, `list_del`, `list_move`,
  `list_cut_position` and `list_splice*`. `list_del` is modelled without
  pointer poisoning, so the deleted node keeps its own links.
- The element's string is a Dafny string, and `strcmp` compares
  characters by code point. Locale and signedness of `char` are not
  modelled.

## Findings

| source | as written | input that shows it | evidently intended | confidence | as-written member | corrected member |
|---|---|---|---|---|---|---|
| queue.c:114-129 | deletes the element at index (n-1)/2: for even n the lower of the two middle elements | ["a","b","c","d"]: "b" is deleted, leaving ["a","c","d"] | index n/2, as in the "delete the middle node of a linked list" problem the code cites (queue.c:116), leaving ["a","b","d"] | not executed | Queue.DeleteMid, Queue.DeleteMidEvenCounterexample | Queue.DeleteMidCorrected |
