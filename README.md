# Algorithms: verified model of the data structures, sorts and depth-first search

This project models, in Dafny, the core of a small C++ collection of textbook
algorithms:

- the containers in `data_structures/`:
  - the growable array `DynamicArray`;
  - the ring-buffer `Queue`;
  - the array `Stack`;
  - the binary max-heap (`Heapify`, `BuildMaxHeap`, `MaxHeap`);
  - the four union-find structures `QuickFind`, `QuickUnion`,
    `WeightedUnion` and `WQUPC` (weighted quick union with path compression);
- the five comparison sorts of `sorting.cpp`;
- the array helpers of `utilities.h`;
- the depth-first traversal of `graphs.cpp`.

Elements are `int` for the heap, the sorts and Min/Max. The containers are
generic over any type with a default value. Every `size_t` count or index
is a `nat`. Where the source relies on unsigned wrap-around, the model
writes it out modulo 2^64 (`Utilities.SizeTSub`).

Each class keeps the source's fields:
- a storage `array`;
- `count`, `front`, `back`, `capacity`, `id`, `treeSize`.

Its methods update those fields in place, and a ghost `Contents()` or
`Root()` function states what they hold. The sorts and heap algorithms work
in place on an `array` and are proved against specification functions:
- `Sorted` and `multiset` for the sorts;
- `MergeSeq` for Merge;
- `IsMaxHeap` for the heap;
- a `Forest` with `RootOf` for union-find;
- `Visit` for the traversal.

Separate lemmas prove the properties those functions promise. The
demonstrations in the `main` functions (and `TestUnion`) are reproduced as
methods or lemmas whose contracts give the exact results. Two of them meet
a defect listed under Findings:
- the InsertionSort demonstration of sorting.cpp faults as written
  (`SortingExamples.InsertionSortDemoAsWritten`), so the sorted output is
  given for the corrected sort;
- the heap demonstration of heap.cpp is given as written, with Pop as
  written (`Heap.HeapExample`), and separately with the corrected Pop.

Some source operations do not do what they evidently intend. For those, the
model keeps a member for the code as written, a lemma or example showing
the defect, and a corrected member with the intended property proved. They
are listed under Findings.

Module map:
- `wrappers.dfy`: `Result`, `Option`, `Outcome` and the runtime errors the
  source throws.
- `utilities.dfy`: `utilities.h` and `size_t` subtraction.
- `heap_index.dfy`: `heap.cpp`.
- `heap.dfy`: `heap.h`.
- `dynamic_array.dfy`, `queue.dfy`, `stack.dfy`.
- `forest.dfy`: parent forests and relabelling, the values behind union-find.
- `union_find.dfy` and `union_find_examples.dfy`.
- `sort_spec.dfy` (`Sorted`, `MergeSeq`), `sorting.dfy`,
  `sorting_as_written.dfy`, `sorting_examples.dfy`.
- `graphs.dfy`.

## Model

| member | source | states |
|---|---|---|
| Utilities.SizeTSub | sorting.cpp:23 | `x - y` on `size_t`: the difference when `y <= x`, otherwise it wraps to `2^64 + x - y`; always below `2^64` |
| Utilities.SwappedAt | utilities.h:8-14 | after Swap the two slots have exchanged values and every other slot is unchanged; swapping a slot with itself changes nothing |
| Utilities.SwappedPermutes | utilities.h:8-14 | Swap keeps the multiset of the elements |
| Utilities.SwappedPrefix | utilities.h:8-14 | a Swap below `n` acts on the prefix `[0, n)` only |
| Utilities.SwappedRange | utilities.h:8-14 | a Swap inside `[lo, hi)` keeps the elements of that range and everything outside it |
| Utilities.Swap | utilities.h:8-14 | the array afterwards is the old array with slots `i` and `j` exchanged |
| Utilities.Copy | utilities.h:16-24 | throws "destination smaller than source" exactly when `count_a > count_b`, leaving the destination unchanged; otherwise the `count_a` slots from `dstStart` become the source slots and the rest of the destination stays |
| Utilities.SeqMin | utilities.h:41-49 | the least element of a non-empty sequence: it occurs in it and no element is smaller |
| Utilities.SeqMax | utilities.h:51-59 | the greatest element of a non-empty sequence: it occurs in it and no element is larger |
| Utilities.Min | utilities.h:41-49 | with `count == 0`, `array[0]`; otherwise the least of `array[0 .. count)`, which occurs there and is at most every element |
| Utilities.Max | utilities.h:51-59 | with `count == 0`, `array[0]`; otherwise the greatest of `array[0 .. count)`, which occurs there and is at least every element |
| Utilities.MinMax | utilities.h:26-39 | both `array[0]` when `count == 0`; otherwise the least and the greatest of `array[0 .. count)`, although the loop tests for a new maximum only when the element is not a new minimum |
| HeapIndex.LeftChild | data_structures/heap.cpp:7-10 | the left child lies after its parent, and its parent is that slot |
| HeapIndex.RightChild | data_structures/heap.cpp:11-14 | the right child is the slot just after the left child and has the same parent |
| HeapIndex.Parent | data_structures/heap.cpp:15-21 | the root is its own parent; any other slot is the left or right child of a slot before it |
| HeapIndex.ChildIndices | data_structures/heap.cpp:7-14 | the children of `i` are `2i + 1` and `2i + 2`, both after `i` and next to each other |
| HeapIndex.ParentOfRoot | data_structures/heap.cpp:15-21 | the parent of the root is the root itself |
| HeapIndex.ParentBelow | data_structures/heap.cpp:15-21 | the parent of any other slot is `(c - 1) / 2`, which is before it |
| HeapIndex.ParentOfChildren | data_structures/heap.cpp:7-21 | the parent of either child of `i` is `i` |
| HeapIndex.ChildOfParent | data_structures/heap.cpp:7-21 | every slot but the root is the left or the right child of its parent |
| HeapIndex.ParentMonotone | data_structures/heap.cpp:15-21 | GetParent is monotone |
| Heap.SubtreeAtLeast | data_structures/heap.h:16-34 | every slot in the subtree of `root` is at or after `root` |
| Heap.ChildrenInSubtree | data_structures/heap.h:16-34 | both children of `i` lie in its subtree |
| Heap.SubtreeTransitive | data_structures/heap.h:16-34 | a subtree of a subtree is a subtree |
| Heap.SubtreeSplit | data_structures/heap.h:16-34 | a slot below `root`, other than `root`, lies under its left or its right child |
| Heap.SubtreesDisjoint | data_structures/heap.h:16-34 | no slot lies under both children of a node |
| Heap.ParentInSubtree | data_structures/heap.h:16-34 | the parent of a non-root slot of a subtree is in the subtree |
| Heap.HeapAtFrame | data_structures/heap.h:16-34 | the heap property of a subtree depends only on the slots of that subtree |
| Heap.HeapAtSub | data_structures/heap.h:16-34 | a heap-ordered subtree has heap-ordered subtrees |
| Heap.HeapAtJoin | data_structures/heap.h:16-34 | two heap-ordered child subtrees under a node at least both children form a heap-ordered subtree |
| Heap.RootSubtreeIsAll | data_structures/heap.h:36-44 | every slot lies in the subtree of the root |
| Heap.HeapAtRoot | data_structures/heap.h:36-44 | the subtree of the root is heap-ordered exactly when the whole prefix is a max-heap |
| Heap.HeapRootIsMax | data_structures/heap.h:80-114 | the root of a max-heap is at least every element |
| Heap.MultisetPrefix | data_structures/heap.h:16-44 | two sequences with the same elements and the same suffix from `n` have the same elements below `n` |
| Heap.SwapKeepsGrandchildHeaps | data_structures/heap.h:29-32 | after Heapify swaps the node with a child, the subtrees under that child are still heap-ordered |
| Heap.SwapDown | data_structures/heap.h:29-32 | Heapify's swap keeps the elements of the prefix and the heap order below the swapped child |
| Heap.HeapifyReassemble | data_structures/heap.h:29-33 | after the swap and the recursive Heapify the whole subtree is heap-ordered, its root is the largest of the family, and slots outside the subtree are unchanged |
| Heap.LargestOfFamily | data_structures/heap.h:19-27 | the index of the largest of the node and its children inside the prefix; a child is chosen only when it is inside the prefix and strictly larger than the node |
| Heap.Heapify | data_structures/heap.h:16-34 | with both child subtrees heap-ordered, a heap-ordered subtree at `index`, a permutation of the prefix, nothing outside the subtree changed, the family's maximum at `index`; no change at all when the node already holds the maximum |
| Heap.HeapifyParent | data_structures/heap.h:42-43 | one step of the BuildMaxHeap loop: once every slot from `i + 1` on is ordered under its parent, so is every slot from `i` on; a permutation of the prefix |
| Heap.BuildMaxHeap | data_structures/heap.h:36-44 | leaves `array[0 .. count)` a max-heap and a permutation of its input, and changes nothing past `count` |
| Heap.SiftUp | data_structures/heap.h:69-77 | the sift-up loop of Add as a value: swap with the parent while the parent is smaller; it keeps the length, and SiftUpFrame, SiftUpPermutes and SiftUpRestores give its meaning |
| Heap.SiftDownAsWritten | data_structures/heap.h:92-111 | the sift-down loop of Pop as written as a value: the left child is taken whenever it beats the parent; it keeps the length, and SiftDownPermutes and PopBreaksHeap give its meaning |
| Heap.SiftUpFrame | data_structures/heap.h:69-77 | the sift-up from slot `c` keeps the elements and changes nothing after `c` |
| Heap.SiftUpPermutes | data_structures/heap.h:69-77 | the sift-up keeps the elements of `[0, c]` and everything after `c` |
| Heap.SiftUpStep | data_structures/heap.h:71-77 | one swap of the sift-up moves the only heap defect one level up |
| Heap.SiftUpRestores | data_structures/heap.h:69-77 | the sift-up of the only defect makes the prefix a max-heap |
| Heap.AppendHasOneDefect | data_structures/heap.h:66-67 | writing a new element just past a max-heap leaves at most that one slot out of order |
| Heap.SiftUpAdds | data_structures/heap.h:59-78 | writing `value` past a max-heap of `c` elements and sifting it up yields a max-heap of `c + 1` elements: the old ones plus `value` |
| Heap.SiftDownPermutes | data_structures/heap.h:92-111 | the sift-down as written keeps the elements of the prefix and everything after it |
| Heap.SiftUpPrefix | data_structures/heap.h:69-77 | the sift-up from a slot below `n` reads and changes only the first `n` slots |
| Heap.SiftDownPrefix | data_structures/heap.h:92-111 | the sift-down within `n` reads and changes only the first `n` slots |
| Heap.RootDominates | data_structures/heap.h:80-114 | every element of a non-empty max-heap is at most its root |
| Heap.SwapWithLastRemoves | data_structures/heap.h:85-88 | swapping slot `i` with the last slot `n` leaves the prefix `[0, n)` holding the old elements minus the one taken |
| Heap.PopRemoves | data_structures/heap.h:80-114 | Pop as written removes exactly the element at `index`: the remaining elements are the old ones minus that one, and the slots past them are untouched |
| Heap.PopBreaksHeap | data_structures/heap.h:97-106 | Pop(0) as written on the max-heap [10, 5, 8, 1, 2, 3] leaves [5, 3, 8, 1, 2], which is not a max-heap |
| Heap.LastOverSlot | data_structures/heap.h:88 | after the last element is moved over slot `index`, both subtrees under `index` are still heap-ordered |
| Heap.HeapifyLeavesOneDefect | data_structures/heap.h:80-114 | after the Heapify of the moved slot, the only possible defect is that slot against its parent |
| Heap.PopKeepsOthers | data_structures/heap.h:85-88 | any rearrangement of the prefix after the swap still holds the old elements minus the one at `index` |
| Heap.HeapifiedMoved | data_structures/heap.h:80-114 | the Heapify of the moved slot leaves one defect at most, and the elements are the old ones minus the one removed |
| Heap.SiftUpRepairs | data_structures/heap.h:80-114 | sifting that one defect up restores the max-heap and keeps the elements |
| Heap.PopLast | data_structures/heap.h:80-114 | popping the last slot of a max-heap leaves a max-heap of the other elements |
| Heap.MaxHeap.constructor | data_structures/heap.h:52 | an empty heap over `max_count` fresh slots |
| Heap.MaxHeap.Filled | data_structures/heap.h:53 | the state the array constructor starts from: `count` and `max_count` both `n`, over `n` zero slots |
| Heap.MaxHeap.Count | data_structures/heap.h:117 | the number of elements |
| Heap.MaxHeap.RawArray | data_structures/heap.h:116 | the storage itself |
| Heap.MaxHeap.Add | data_structures/heap.h:59-78 | callable in any state, also after failed Adds; `count` grows by one before the check; it fails with "buffer overflown" exactly when the new count reaches `max_count`, leaving the storage unchanged; otherwise the storage is the old one with `value` written past the elements and sifted up, the held values are SiftUp of the old ones followed by `value`, the elements are the old ones plus `value`, and a max-heap stays a max-heap |
| Heap.MaxHeap.SiftUpFrom | data_structures/heap.h:69-77 | the loop of Add computes the sift-up function from slot `c` |
| Heap.MaxHeap.PopAsWritten | data_structures/heap.h:80-114 | fails with "index out of bounds" only on an empty heap; otherwise returns `data[index]`, decrements `count`, and leaves the storage swapped with the last slot and then sifted down by the left-first rule |
| Heap.MaxHeap.HeapifyMoved | data_structures/heap.h:80-114 | the corrected sift-down of the moved slot leaves one defect at most and the old elements minus the removed one |
| Heap.MaxHeap.SiftDownThenUp | data_structures/heap.h:80-114 | the corrected repair after the move, a sift-down then a sift-up, restores the max-heap and keeps the other elements |
| Heap.MaxHeap.Resettle | data_structures/heap.h:80-114 | the repair after the move, with none needed when the popped slot was the last |
| Heap.MaxHeap.RemoveAt | data_structures/heap.h:85-114 | removes the element at `index` of a max-heap, returns it, decrements `count`, and keeps a max-heap of the other elements; from the root it returns the maximum |
| Heap.MaxHeap.Pop | data_structures/heap.h:80-114 | corrected Pop: "index out of bounds", with nothing changed, when `index >= count`; otherwise returns `data[index]` and leaves a max-heap of exactly the remaining elements; Pop(0) returns the maximum |
| Heap.FromArrayAsWritten | data_structures/heap.h:53-57 | the array constructor as written: succeeds (with an empty heap) only on an empty array; any element makes the first Add throw "buffer overflown" |
| Heap.FromArray | data_structures/heap.h:53-57 | the intended array constructor: a max-heap holding exactly the array's first `n` elements |
| Heap.FromArrayExample | data_structures/heap.h:53-57 | on the array [1] the constructor as written throws, while the intended one gives the heap [1] |
| Heap.RootIsSeqMax | data_structures/heap.h:80-114 | the root of a non-empty max-heap is the largest of the values it holds |
| Heap.BuildExample | data_structures/heap.cpp:26-36 | Adding fewer than 20 values to MaxHeap(20) gives a max-heap of exactly those values |
| Heap.ExampleMax | data_structures/heap.cpp:28-36 | the largest value the example adds is 100 |
| Heap.IntendedPopExample | data_structures/heap.cpp:26-40 | with the corrected Pop, Pop(0) after the nine Adds takes out 100 and leaves eight elements |
| Heap.ExampleSiftUpsFirst | data_structures/heap.cpp:28-32 | the sift-ups of the first five Adds, traced by hand |
| Heap.ExampleSiftUpsSecond | data_structures/heap.cpp:33-34 | the sift-ups of the sixth and seventh Adds |
| Heap.ExampleSiftUpEighth | data_structures/heap.cpp:35 | the sift-up of the Add of 36 |
| Heap.ExampleSiftUpNinth | data_structures/heap.cpp:36 | the sift-up of the Add of 100, which rises to the root |
| Heap.ExampleSiftDown | data_structures/heap.cpp:40 | Pop(0) as written moves 7 to the root, which sinks past 36 and 25 |
| Heap.ExampleAdd | data_structures/heap.cpp:28-36 | one Add of the example that fits: the held values become SiftUp of the old ones followed by the value |
| Heap.ExampleAdds | data_structures/heap.cpp:26-38 | after the nine Adds into MaxHeap(20) the heap prints [100, 36, 19, 25, 3, 2, 17, 1, 7] |
| Heap.HeapExample | data_structures/heap.cpp:24-42 | the demonstration as written: it prints [100, 36, 19, 25, 3, 2, 17, 1, 7], Pop(0) as written takes out 100, and it then prints [36, 25, 19, 7, 3, 2, 17, 1] |
| DynamicArrays.DynamicArray.constructor | data_structures/dynamic_array.h:15 | an empty array with the initial capacity of 8 |
| DynamicArrays.DynamicArray.WithCapacity | data_structures/dynamic_array.h:16 | an empty array with the given capacity |
| DynamicArrays.DynamicArray.FromArray | data_structures/dynamic_array.h:17-21 | the first `count` values, copied, with capacity `count` |
| DynamicArrays.DynamicArray.Reallocate | data_structures/dynamic_array.h:32-41 | fresh storage of twice the capacity holding the same elements |
| DynamicArrays.DynamicArray.Add | data_structures/dynamic_array.h:23-30 | appends the `n` values in order; reallocates, doubling the capacity, exactly when they do not fit |
| DynamicArrays.DynamicArray.Raw | data_structures/dynamic_array.h:43 | the storage itself |
| DynamicArrays.DynamicArray.Count | data_structures/dynamic_array.h:44 | the number of elements, the length of the contents |
| DynamicArrays.DynamicArray.At | data_structures/dynamic_array.h:46-52 | the element at `index` when `index < count`, otherwise "index out of bounds" |
| Queues.ModOnce | data_structures/queue.h:39 | an index below twice the capacity wraps at most once |
| Queues.Ring | data_structures/queue.h:43-52 | the elements of the ring, oldest first, are exactly `count` long |
| Queues.RingWhole | data_structures/queue.h:18-22 | a full ring that starts at slot 0 is the storage itself, and its back slot wraps to 0 |
| Queues.RingEnqueue | data_structures/queue.h:33-41 | writing at `back` appends to the ring, and the new back is one slot on, modulo the capacity |
| Queues.RingDequeue | data_structures/queue.h:43-52 | the oldest element is at `front`; the rest is the ring of one fewer from the next slot, with the same back |
| Queues.Queue.constructor | data_structures/queue.h:16 | an empty queue with capacity 8, `front == back == 0` |
| Queues.Queue.WithCapacity | data_structures/queue.h:17 | an empty queue with the given capacity, `front == back == 0` |
| Queues.Queue.FromArray | data_structures/queue.h:18-22 | corrected: a full queue holding the first `count` values in order, with `back == 0`, the slot the next Enqueue would use |
| Queues.Queue.IsFull | data_structures/queue.h:30 | true exactly when the queue holds `capacity` elements |
| Queues.Queue.IsEmpty | data_structures/queue.h:31 | true exactly when the queue holds nothing |
| Queues.Queue.Count | data_structures/queue.h:54 | the number of elements |
| Queues.Queue.Enqueue | data_structures/queue.h:33-41 | on a queue that is not full, appends `value` at the end; writes only slot `back`; `back` advances modulo the capacity |
| Queues.Queue.Dequeue | data_structures/queue.h:43-52 | on a non-empty queue, returns the oldest element and removes it; `front` advances modulo the capacity |
| Queues.BackAsWritten | data_structures/queue.h:18 | `back` as written: `count - 1`, or `2^64 - 1` when `count == 0` |
| Queues.BackAsWrittenValidIff | data_structures/queue.h:18 | the back slot as written is the correct slot 0 only when `count == 1` |
| Queues.BackAsWrittenOverwrites | data_structures/queue.h:18 | on [5, 6] with one element dequeued, an Enqueue of 7 at the back as written overwrites the 6 still queued, giving [7, 5] instead of [6, 7] |
| Queues.FromArrayExample | data_structures/queue.h:18-22 | the corrected constructor on [5, 6], then a Dequeue and an Enqueue of 7, then Dequeues, gives 5, 6, 7 |
| Queues.QueueExampleStart | data_structures/queue.cpp:8-16 | after four Enqueues into Queue(5) and two Dequeues, the Dequeues returned 0 and 1 and the queue holds [2, 3] |
| Queues.QueueExample | data_structures/queue.cpp:6-25 | the demonstration prints 0 1 2 3 4 0 |
| Stacks.PopAsWritten | data_structures/stack.h:44-50 | Pop as written reads slot `count`: an error when the stack is full; otherwise that slot (not the top) with the count decremented |
| Stacks.PopAsWrittenMissesTop | data_structures/stack.h:44-50 | on a full stack [1, 2] the read is out of bounds; with a spare slot holding 0 it returns 0, which is not the top element 2 |
| Stacks.InitializerListAsWritten | data_structures/stack.h:26-31 | the initializer-list fill as written keeps writing slot 0: the result has the right length, the last value at slot 0 and zeros elsewhere |
| Stacks.InitializerListExample | data_structures/stack.h:26-31 | {1, 2, 3} gives [3, 0, 0], not [1, 2, 3] |
| Stacks.Stack.constructor | data_structures/stack.h:19 | an empty stack with capacity 8 |
| Stacks.Stack.WithCapacity | data_structures/stack.h:20 | an empty stack with the given capacity |
| Stacks.Stack.FromArray | data_structures/stack.h:21-25 | a full stack of the first `count` values, the last on top |
| Stacks.Stack.IsFull | data_structures/stack.h:33 | true exactly when the stack holds `capacity` elements |
| Stacks.Stack.IsEmpty | data_structures/stack.h:34 | true exactly when the stack holds nothing |
| Stacks.Stack.Count | data_structures/stack.h:52 | the number of elements |
| Stacks.Stack.Push | data_structures/stack.h:36-42 | on a stack that is not full, `value` becomes the new top; only slot `count` is written |
| Stacks.Stack.Pop | data_structures/stack.h:44-50 | corrected Pop: on a non-empty stack, returns the top element and removes it |
| Stacks.StackExample | data_structures/stack.h:36-50 | pushing 1, 2, 3 and popping three times gives 3, 2, 1 |
| Forests.RootOf | data_structures/union_find.cpp:67-77 | the root reached by following parents is a node that is its own parent |
| Forests.Identity | data_structures/union_find.cpp:16-20 | every node is its own parent |
| Forests.Zeros | data_structures/union_find.cpp:89-96 | a ranking of all zeros |
| Forests.IdentityForest | data_structures/union_find.cpp:45-49 | a fresh structure is a forest in which every node is its own root, so two nodes are connected only when they are equal |
| Forests.RootsAgree | data_structures/union_find.cpp:67-77 | the root of a node does not depend on the ranking that proves termination |
| Forests.OnPathSameRoot | data_structures/union_find.cpp:190-199 | every node on the path from `x` has the root of `x` |
| Forests.ShallowRoot | data_structures/union_find.cpp:67-77 | a node whose parent is a root has that parent as its root |
| Forests.LinkRank | data_structures/union_find.cpp:60-64 | the ranking after a link has one entry per node |
| Forests.LinkRootAt | data_structures/union_find.cpp:60-64 | after pointing `b` at the root `t`, a node on the old path from `b` has root `t`, and any other node keeps its root |
| Forests.LinkRoot | data_structures/union_find.cpp:60-64 | pointing any node at a root keeps the forest acyclic, and the roots change as LinkRootAt says |
| Forests.LinkConnects | data_structures/union_find.cpp:60-64 | pointing `b` at the root of `a` connects them; every node keeps its root or gets that root, and a node outside the tree of `b` keeps its root |
| Forests.CompressAt | data_structures/union_find.cpp:195 | one compression step keeps the root of every node |
| Forests.Compress | data_structures/union_find.cpp:195 | one compression step keeps the forest acyclic and every root unchanged |
| Forests.CompressPath | data_structures/union_find.cpp:190-199 | the forest after the compressing FindRoot: still a forest, with every root unchanged |
| Forests.ShallowCompress | data_structures/union_find.cpp:190-199 | compression changes nothing when the parent of `x` is a root |
| Forests.RelinkDisconnects | data_structures/union_find.cpp:60-64 | pointing the non-root `b`, rather than its root, at another root disconnects `b` from its old tree: 0 and 1 are connected before and not after |
| Forests.Relabel | data_structures/union_find.cpp:25-33 | relabelling keeps the length |
| Forests.RelabelMerges | data_structures/union_find.cpp:25-33 | after QuickFind's relabelling, `a` and `b` are connected, and a pair is connected exactly when it was before or both nodes were in the classes of `a` or `b` |
| Forests.RelabelClasses | data_structures/union_find.cpp:25-33 | after QuickFind's relabelling, the classes of `a` and `b` are one class, their union, and every other class is as it was |
| Forests.RelabelKeepsConnected | data_structures/union_find.cpp:25-33 | QuickFind's Union never disconnects a pair |
| UnionFind.QuickFind.constructor | data_structures/union_find.cpp:16-20 | every node is labelled with itself |
| UnionFind.QuickFind.Connected | data_structures/union_find.cpp:23 | true exactly when `a` lies in the class of `b`, the nodes sharing its label |
| UnionFind.QuickFind.Union | data_structures/union_find.cpp:25-33 | every node with the label `b` had gets the label of `a`, so `a` and `b` are connected and the class of `a` is the union of the two old classes |
| UnionFind.QuickUnion.constructor | data_structures/union_find.cpp:45-49 | every node is its own root |
| UnionFind.QuickUnion.FindRoot | data_structures/union_find.cpp:67-77 | returns the root of `node` and changes nothing |
| UnionFind.QuickUnion.Connected | data_structures/union_find.cpp:51-58 | true exactly when the two nodes have the same root |
| UnionFind.QuickUnion.Union | data_structures/union_find.cpp:60-64 | `b` itself points at the root of `a`; afterwards `a` and `b` are connected, each node keeps its root or gets that of `a`, and nodes outside the tree of `b` keep theirs |
| UnionFind.WeightedUnion.constructor | data_structures/union_find.cpp:89-96 | every node is its own root with tree size 1 |
| UnionFind.WeightedUnion.FindRoot | data_structures/union_find.cpp:128-138 | returns the root of `node` and changes nothing |
| UnionFind.WeightedUnion.Connected | data_structures/union_find.cpp:98-105 | true exactly when the two nodes have the same root |
| UnionFind.WeightedUnion.Link | data_structures/union_find.cpp:115-119 | `b` points at the root of `a`, which connects them; other trees keep their roots |
| UnionFind.WeightedUnion.Join | data_structures/union_find.cpp:115-124 | with distinct roots, the node on the smaller side points at the other root, whose size grows by the other tree's size; `a` and `b` end connected |
| UnionFind.WeightedUnion.Union | data_structures/union_find.cpp:107-125 | nothing changes when the roots agree; otherwise `b` is pointed at the root of `a` when that tree is strictly larger, and `a` at the root of `b` otherwise, with the sizes updated; `a` and `b` end connected, and other trees keep their roots |
| UnionFind.WQUPC.constructor | data_structures/union_find.cpp:151-158 | every node is its own root with tree size 1 |
| UnionFind.WQUPC.FindRoot | data_structures/union_find.cpp:190-199 | returns the root of `node`; the forest becomes its path-compressed form, with every root unchanged |
| UnionFind.WQUPC.Connected | data_structures/union_find.cpp:160-167 | true exactly when the two nodes had the same root; roots are unchanged |
| UnionFind.WQUPC.Link | data_structures/union_find.cpp:177-181 | `b` points at the root of `a`, which connects them; other trees keep their roots |
| UnionFind.WQUPC.Join | data_structures/union_find.cpp:177-187 | as WeightedUnion.Join, on the compressed forest |
| UnionFind.WQUPC.Union | data_structures/union_find.cpp:169-187 | as WeightedUnion.Union, on the forest left by compressing the paths from `a` and then `b` |
| UnionFindExamples.RelabelTraceFirst | data_structures/union_find.cpp:212-215 | the labels after each of the first four QuickFind Unions |
| UnionFindExamples.RelabelTraceSecond | data_structures/union_find.cpp:216-220 | the labels after each of the last four QuickFind Unions |
| UnionFindExamples.TwoTrees | data_structures/union_find.cpp:207-236 | a forest with nodes 0 to 5 directly under one root and 6 to 9 under another has those roots |
| UnionFindExamples.QuickFindUnions | data_structures/union_find.cpp:210-220 | the eight Unions leave labels 0 for nodes 0 to 5 and 6 for nodes 6 to 9 |
| UnionFindExamples.QuickFindExample | data_structures/union_find.cpp:207-236 | TestUnion on QuickFind answers true five times, then false three times |
| UnionFindExamples.QuickUnionStep | data_structures/union_find.cpp:60-64 | one Union of TestUnion when the parent of `a` is a root |
| UnionFindExamples.QuickUnionUnions1 | data_structures/union_find.cpp:212-214 | the parents after Unions (0, 1), (1, 2), (2, 3) |
| UnionFindExamples.QuickUnionUnions2 | data_structures/union_find.cpp:215-218 | the parents after Unions (3, 4), (4, 5), (6, 7) |
| UnionFindExamples.QuickUnionUnions3 | data_structures/union_find.cpp:219-220 | the parents after Unions (7, 8), (8, 9) |
| UnionFindExamples.QuickUnionQueries1 | data_structures/union_find.cpp:224-228 | the first four Connected answers |
| UnionFindExamples.QuickUnionQueries2 | data_structures/union_find.cpp:229-233 | the last four Connected answers |
| UnionFindExamples.QuickUnionExample | data_structures/union_find.cpp:207-236 | TestUnion on QuickUnion gives the expected answers |
| UnionFindExamples.WeightedUnionStep | data_structures/union_find.cpp:107-125 | one Union of TestUnion when `a` and `b` are directly under distinct roots: the smaller tree's node is pointed at the other root, ties going to the root of `b`, and that root's size grows by the other's |
| UnionFindExamples.WeightedUnionUnions1 | data_structures/union_find.cpp:212-213 | the parents and sizes after Unions (0, 1), (1, 2) |
| UnionFindExamples.WeightedUnionUnions2 | data_structures/union_find.cpp:214-215 | the parents and sizes after Unions (2, 3), (3, 4) |
| UnionFindExamples.WeightedUnionUnions3 | data_structures/union_find.cpp:216-218 | the parents and sizes after Unions (4, 5), (6, 7) |
| UnionFindExamples.WeightedUnionUnions4 | data_structures/union_find.cpp:219-220 | the parents and sizes after Unions (7, 8), (8, 9) |
| UnionFindExamples.WeightedUnionQueries1 | data_structures/union_find.cpp:224-228 | the first four Connected answers |
| UnionFindExamples.WeightedUnionQueries2 | data_structures/union_find.cpp:229-233 | the last four Connected answers |
| UnionFindExamples.WeightedUnionExample | data_structures/union_find.cpp:207-236 | TestUnion on WeightedUnion gives the expected answers |
| UnionFindExamples.WQUPCStep | data_structures/union_find.cpp:169-187 | as WeightedUnionStep: both paths are already compressed, so only the linking changes the forest |
| UnionFindExamples.WQUPCUnions1 | data_structures/union_find.cpp:212-213 | the parents and sizes after Unions (0, 1), (1, 2) |
| UnionFindExamples.WQUPCUnions2 | data_structures/union_find.cpp:214-215 | the parents and sizes after Unions (2, 3), (3, 4) |
| UnionFindExamples.WQUPCUnions3 | data_structures/union_find.cpp:216-218 | the parents and sizes after Unions (4, 5), (6, 7) |
| UnionFindExamples.WQUPCUnions4 | data_structures/union_find.cpp:219-220 | the parents and sizes after Unions (7, 8), (8, 9) |
| UnionFindExamples.WQUPCQueries1 | data_structures/union_find.cpp:224-228 | the first four Connected answers |
| UnionFindExamples.WQUPCQueries2 | data_structures/union_find.cpp:229-233 | the last four Connected answers |
| UnionFindExamples.WQUPCExample | data_structures/union_find.cpp:207-236 | TestUnion on WQUPC gives the expected answers |
| SortSpec.MergeFrom | sorting.cpp:116-127 | the merge of what is left of both halves has exactly their combined length |
| SortSpec.HeadMultiset | sorting.cpp:116-127 | a suffix holds its head and the next suffix |
| SortSpec.MergeFromPermutes | sorting.cpp:116-127 | the rest of the merge holds exactly the rest of both halves |
| SortSpec.MergeSeqPermutes | sorting.cpp:116-127 | the merge holds exactly the elements of both halves |
| SortSpec.AtLeastByMultiset | sorting.cpp:116-127 | a permutation keeps a lower bound |
| SortSpec.BelowByMultiset | sorting.cpp:158-170 | a permutation keeps an upper bound |
| SortSpec.HeadThenSorted | sorting.cpp:116-127 | a head no greater than both remaining sides, followed by an ascending merge of them, is ascending |
| SortSpec.MergeFromSorted | sorting.cpp:116-127 | merging the rest of two ascending halves is ascending |
| SortSpec.MergeSeqSorted | sorting.cpp:116-127 | merging two ascending halves is ascending |
| SortSpec.HeadTail | sorting.cpp:116-127 | a suffix is its head followed by the next suffix |
| SortSpec.MergeTakeLeft | sorting.cpp:118-119 | taking the left head on `<=` produces the next element of the merge |
| SortSpec.MergeTakeRight | sorting.cpp:120-121 | taking the right head produces the next element of the merge |
| SortSpec.MergeRest | sorting.cpp:124-127 | once one half is used up, the rest of the merge is the rest of the left half, then of the right half |
| SortSpec.MergeLayout | sorting.cpp:124-127 | where the last two loops of Merge place each remaining element |
| SortSpec.FirstIsLeast | sorting.cpp:13-32 | the first element of an ascending sequence is its least |
| SortSpec.CancelHead | sorting.cpp:13-32 | equal multisets with the same head have equal tails |
| SortSpec.SortedUnique | sorting.cpp:189-219 | two ascending sequences with the same elements are equal, so every correct sort gives the same output |
| SortSpec.SortedAroundPivot | sorting.cpp:171-181 | an ascending part below the pivot, the pivot, and an ascending part at least the pivot form an ascending sequence |
| Sorting.SortsWhole | sorting.cpp:13-186 | what the sorts promise on `[0, count)`, from facts about the prefix |
| Sorting.Inserted | sorting.cpp:19-31 | the prefix `[0, i]` with `s[i]` moved to position `k` |
| Sorting.InsertedPermutes | sorting.cpp:19-31 | the move keeps the elements of `[0, i]` |
| Sorting.InsertedSorted | sorting.cpp:19-31 | putting `s[i]` after the last element at most it, in a sorted prefix, gives a sorted prefix one longer |
| Sorting.InsertedAt | sorting.cpp:24-30 | where each element of the new prefix comes from |
| Sorting.InsertedFrom | sorting.cpp:24-30 | an array that agrees slot by slot with the move is the move |
| Sorting.PrefixRearranged | sorting.cpp:13-32 | a rearranged prefix inside an unchanged rest rearranges every longer prefix |
| Sorting.InsertAt | sorting.cpp:21-30 | one pass of InsertionSort inserts `array[i]` after the last earlier element at most it, shifting the larger ones up |
| Sorting.InsertionSort | sorting.cpp:13-32 | corrected InsertionSort: `array[0 .. count)` ascending and a permutation of its input, the rest unchanged; nothing changes when `count <= 1` |
| Sorting.BubbledStep | sorting.cpp:50-59 | a pass that moves the maximum of `[0, n)` to `n - 1` extends the sorted top of the array by one |
| Sorting.BubbledSorted | sorting.cpp:50-63 | with the top sorted down to slot 1, the range is ascending |
| Sorting.NeighboursSorted | sorting.cpp:60-63 | ascending neighbours make an ascending range, which justifies the early exit |
| Sorting.BubbleCompare | sorting.cpp:54-58 | one comparison of a pass carries the running maximum up and keeps the elements |
| Sorting.BubblePass | sorting.cpp:52-59 | one pass keeps the elements, leaves the maximum of `[0, n)` at `n - 1`, and when nothing was swapped changes nothing and the range is in order |
| Sorting.BubbleRound | sorting.cpp:50-63 | one outer iteration extends the sorted top and keeps the elements |
| Sorting.BubbleSort | sorting.cpp:42-64 | `array[0 .. count)` ascending and a permutation of its input, the rest unchanged, including the early exit with its once-cleared flag |
| Sorting.IndexOfMin | sorting.cpp:76-83 | the index of the first least element of `[i, count)` |
| Sorting.SelectionStep | sorting.cpp:76-86 | swapping that element to `i` extends the sorted, smallest prefix by one |
| Sorting.SelectedSorted | sorting.cpp:72-88 | after the last pass the range is ascending |
| Sorting.SelectionSort | sorting.cpp:72-88 | `array[0 .. count)` ascending and a permutation of its input, the rest unchanged |
| Sorting.PartitionStep | sorting.cpp:164-166 | one step of the Partition loop keeps the loop invariant |
| Sorting.PartitionFinishOrder | sorting.cpp:168 | the final swap puts the pivot between the smaller and the not smaller elements |
| Sorting.SwappedKeeps | sorting.cpp:166-168 | a swap inside a range keeps its elements and everything outside it |
| Sorting.PartitionFinish | sorting.cpp:168-169 | after the final swap the pivot splits the range, which is a permutation of its input |
| Sorting.PartitionLoop | sorting.cpp:163-166 | the loop of Partition moves every element below the pivot before index `i` |
| Sorting.Partition | sorting.cpp:158-170 | returns `p` in `[left, right)` holding the old last element; the elements before it are smaller, those after it are not; a permutation of the range, the rest unchanged |
| Sorting.QuickSortStep | sorting.cpp:174-180 | a partition followed by sorting both sides sorts the range |
| Sorting.QuickSortHelper | sorting.cpp:171-181 | corrected helper: `[left, right)` ascending and a permutation, the rest unchanged |
| Sorting.QuickSort | sorting.cpp:182-186 | `array[0 .. count)` ascending and a permutation of its input, the rest unchanged |
| Sorting.MergingLeft | sorting.cpp:118-119 | taking the left head keeps the state of the first loop of Merge |
| Sorting.MergingRight | sorting.cpp:120-121 | taking the right head keeps that state |
| Sorting.MergeStep | sorting.cpp:116-122 | one iteration of the first loop keeps its state and takes one element |
| Sorting.MergeHeads | sorting.cpp:112-122 | the first loop writes the front of the merge, stops when one half is used up, and changes nothing outside the range |
| Sorting.MergeLeftRest | sorting.cpp:124-125 | the second loop copies the rest of the left half in order |
| Sorting.MergeRightRest | sorting.cpp:126-127 | the third loop copies the rest of the right half in order |
| Sorting.MergeAssembled | sorting.cpp:112-127 | the three loops together write exactly the merge of the two halves |
| Sorting.CopyHalves | sorting.cpp:103-110 | the two Copy calls put both halves into the storage |
| Sorting.MergeBack | sorting.cpp:112-127 | the range becomes the merge of the two stored halves, the rest unchanged |
| Sorting.Merge | sorting.cpp:100-128 | `array[left .. right)` becomes the merge of its two old halves; nothing else changes |
| Sorting.PrefixAgrees | sorting.cpp:129-141 | arrays equal below `n` are equal on every range below `n` |
| Sorting.SuffixAgrees | sorting.cpp:129-141 | arrays equal from `n` on are equal on every range from `n` on |
| Sorting.MergeSortStep | sorting.cpp:132-140 | sorting both halves and merging sorts the range |
| Sorting.MergeSortHelper | sorting.cpp:129-141 | corrected helper: `[left, right)` ascending and a permutation, the rest unchanged |
| Sorting.MergeSort | sorting.cpp:142-148 | `array[0 .. count)` ascending and a permutation of its input, the rest unchanged |
| SortingAsWritten.ShiftAsWritten | sorting.cpp:23-28 | the inner loop as written, on `size_t`: when the result exists it has the input's length |
| SortingAsWritten.InsertStepAsWritten | sorting.cpp:21-30 | a pass as written: when it completes the array keeps its length |
| SortingAsWritten.ShiftFailsIff | sorting.cpp:23-28 | the scan reads past the array exactly when the element is below everything before it |
| SortingAsWritten.InsertStepFailsIff | sorting.cpp:21-30 | a pass as written fails exactly when `array[i]` is smaller than every earlier element |
| SortingAsWritten.InsertionSortPairAsWritten | sorting.cpp:13-32 | InsertionSort as written on [1, 0] reads out of bounds in its first pass |
| SortingAsWritten.GuardAsWritten | sorting.cpp:132 | the guard `left < right - 1` on `size_t` with `right == 0` holds for every `left` but the largest |
| SortingAsWritten.GuardsAgree | sorting.cpp:132 | the guard as written is `left + 1 < right` whenever `right > 0`, and holds at `left == right == 0` |
| SortingAsWritten.MergeCallsAsWritten | sorting.cpp:129-141 | the number of Merge calls of MergeSortHelper as written: none for a range of at most one element |
| SortingAsWritten.MergeSortEmptyDiverges | sorting.cpp:142-148 | MergeSort as written on an empty array never finishes: MergeSortHelper(0, 0) calls itself on (0, 0) |
| SortingAsWritten.QuickSortPairAsWritten | sorting.cpp:171-186 | QuickSort as written on [1, 0]: the pivot lands at 0, then the helper on `(0, 0)` passes its guard and Partition reads `array[right - 1]`, the wrapped index `2^64 - 1` |
| SortingExamples.InputPermutesHalfway | sorting.cpp:191-193 | the first three selection swaps on the demonstration input keep its elements |
| SortingExamples.HalfwayPermutesOutput | sorting.cpp:191-193 | the last three swaps reach the expected output |
| SortingExamples.InputPermutesOutput | sorting.cpp:191-193 | the output is a permutation of the input |
| SortingExamples.OutputSorted | sorting.cpp:191-193 | the output is ascending |
| SortingExamples.SortedInput | sorting.cpp:189-219 | any ascending permutation of the input is the expected output |
| SortingExamples.SortedResult | sorting.cpp:189-219 | a sort of a whole sequence leaves its one ascending arrangement |
| SortingExamples.InputArray | sorting.cpp:191-193 | a fresh array holding the demonstration input |
| SortingExamples.InsertionSortDemoAsWritten | sorting.cpp:192-193 | InsertionSort as written on the demonstration input faults in its first pass, since 3 is below 6 |
| SortingExamples.InsertionSortExample | sorting.cpp:192-194 | the corrected InsertionSort on the input gives 0 to 9 |
| SortingExamples.BubbleSortExample | sorting.cpp:189-219 | BubbleSort on the input gives 0 to 9 |
| SortingExamples.SelectionSortExample | sorting.cpp:189-219 | SelectionSort on the input gives 0 to 9 |
| SortingExamples.MergeSortExample | sorting.cpp:189-219 | MergeSort on the input gives 0 to 9 |
| SortingExamples.QuickSortExample | sorting.cpp:189-219 | QuickSort on the input gives 0 to 9 |
| Graphs.Vertex | graphs.cpp:15 | the `i`-th vertex, one of the vertices |
| Graphs.Edge | graphs.cpp:16 | the adjacency list of vertex `i`, one of the lists |
| Graphs.VertexCount | graphs.cpp:21 | the number of vertices |
| Graphs.EdgeCount | graphs.cpp:22 | the number of adjacency lists |
| Graphs.ReachSelf | graphs.cpp:35-50 | every vertex reaches itself |
| Graphs.ReachStep | graphs.cpp:45-49 | what a neighbour reaches, the vertex reaches |
| Graphs.CountFalse | graphs.cpp:38-41 | the number of unvisited vertices, which bounds the recursion |
| Graphs.GrowsCounts | graphs.cpp:38-41 | marking more vertices never leaves more unvisited |
| Graphs.MarkCounts | graphs.cpp:41 | marking an unvisited vertex leaves one fewer unvisited |
| Graphs.Visit | graphs.cpp:35-50 | DepthFirstSearchHelper as a value: it only ever adds marks |
| Graphs.Neighbours | graphs.cpp:45-49 | the loop over the neighbours as a value: it only ever adds marks |
| Graphs.ClosedCompose | graphs.cpp:45-49 | the neighbour closure of one traversal survives a later traversal appended to it |
| Graphs.ExploresCompose | graphs.cpp:45-49 | two traversals in turn from the same root are one traversal |
| Graphs.ExploresWiden | graphs.cpp:48 | a traversal from a neighbour is a traversal from the vertex |
| Graphs.ExploresStart | graphs.cpp:41-43 | marking the vertex and appending it to the path starts a traversal from it |
| Graphs.ExploresNothing | graphs.cpp:38-39 | a vertex already marked gives a traversal that adds nothing |
| Graphs.ExploresThenNeighbours | graphs.cpp:45-49 | a traversal from one neighbour followed by the rest of the loop is a traversal from the vertex |
| Graphs.VisitExplores | graphs.cpp:35-50 | the helper adds only unmarked vertices reachable from `vertex`, each once, marked exactly as it appends them, with `vertex` first when it was unmarked; afterwards every neighbour of an appended vertex is marked |
| Graphs.NeighboursExplore | graphs.cpp:45-49 | the loop from neighbour `j` on traverses from the vertex and leaves those neighbours marked |
| Graphs.WalkStaysMarked | graphs.cpp:35-50 | once the marks are exactly a path closed under neighbours, every walk from a marked vertex ends at a marked vertex |
| Graphs.ExploredFromNothing | graphs.cpp:52-61 | a closed traversal that started with nothing marked holds each vertex once, exactly the vertices reachable from its start, and its marks are exactly the vertices on it |
| Graphs.DepthFirstOrderCorrect | graphs.cpp:52-61 | the path of DepthFirstSearch starts at vertex 0, repeats no vertex, holds exactly the vertices reachable from vertex 0, and marks exactly those |
| Graphs.DepthFirstOrder | graphs.cpp:52-61 | the path of the traversal from vertex 0 with nothing marked: it starts at vertex 0 and repeats no vertex; DepthFirstOrderCorrect adds that it holds exactly the reachable vertices |
| Graphs.DepthFirstSearchHelper | graphs.cpp:35-50 | the marks and the path afterwards are those of Visit, the path growing through DynamicArray.Add |
| Graphs.DepthFirstSearch | graphs.cpp:52-61 | returns the path of the traversal from vertex 0 with nothing marked, whatever the target |

## Left out

- Printing (`PrintArray`, the `printf` and `std::cout` output of the demonstrations), `debug.h`/`debug.cpp` and the timing code are not modelled. Each demonstration's output is given as the values the model returns.
- Memory management (`unique_ptr`, `new[]`/`delete[]`, `memcpy`) is modelled by fresh Dafny arrays. Leaks and double frees cannot be expressed.
- The `DEBUG_BLOCK` checks in queue.h and stack.h are modelled as preconditions: Enqueue and Push require a container that is not full, and Dequeue and Pop one that is not empty. Without the debug checks the source has no check there.
- Counts and indices are unbounded `nat`. The overflow of a `size_t` count past 2^64 is not modelled. Wrap-around is modelled only where the source relies on it: `count - 1`, `right - 1`, `j - 1`.
- Stability of the sorts, and their complexity claims in the comments, are not stated.
- Utilities.Swap, Utilities.Copy: pointer aliasing between the two arguments is not modelled. Copy requires distinct arrays and takes each side's start offset explicitly.
- Queues.Queue.Dequeue, Stacks.Stack.Pop, Stacks.PopAsWritten: return the element by value. The source returns a reference into the storage, which a later Enqueue or Push can overwrite; the aliasing of that reference is not modelled.
- Heap.MaxHeap.Add: modelled as written, in any state, also after failed Adds have taken `count` past `max_count`. The count is incremented before the check, so a failed Add leaves the count one too high, and the heap holds at most `max_count - 1` elements. No corrected twin is given. The intended array constructor (`Heap.FromArray`) allows for this with one spare slot.
- Heap.BuildMaxHeap: with `count == 0`, the source computes `GetParent(size_t(-1))` and then runs a loop of about 2^63 Heapify calls, each of which does nothing. The model returns at once with the same result.
- Heap.MaxHeap.Pop: the corrected Pop requires a valid max-heap. The as-written PopAsWritten does not, but it requires `index < max_count`; beyond that the source reads outside its storage.
- Heap.FromArrayAsWritten: the loop of Adds is modelled by its first iteration, because that iteration always throws when there is an element.
- Graphs: `Graph<V, E>` is specialised to `size_t` vertices with adjacency lists of `size_t`. Its well-formedness is required:
  - vertex 0 exists;
  - every vertex has an adjacency list;
  - every neighbour is a vertex.

  The unused `target` parameter is kept but has no effect. The graph in the `main` of graphs.cpp (lines 64-91) is not reproduced.
- Graphs.DepthFirstSearchHelper: requires a path with a capacity above 0, which the default-constructed path of DepthFirstSearch has. A DynamicArray of capacity 0 cannot grow by doubling.
- DynamicArrays.DynamicArray.Add: requires that `values` is not the array's own storage. The source reads from freed storage when such an Add reallocates, and reads values it has just written when the new elements overlap the old ones.
- DynamicArrays.DynamicArray.Add: requires `count + n <= 2 * capacity`. A single Reallocate is not enough beyond that, and the source then writes past the new storage. Capacity 0 is allowed; an Add into it then needs `n == 0`.
- Stacks.InitializerListAsWritten: the two initializer-list constructors are modelled by this shared fill loop only. Their corrected form is the `FromArray` constructor of each class.
- UnionFind.QuickUnion.Union, UnionFind.WeightedUnion.Link, UnionFind.WQUPC.Link: modelled as written. They point `b` or `a` itself, not its root, at the other root, which can disconnect the rest of its old tree (Forests.RelinkDisconnects). No corrected twin is given. TestUnion always unions nodes whose parent is a root, so its answers are unaffected.
- SortingAsWritten.ShiftAsWritten, SortingAsWritten.InsertStepAsWritten: their contracts state only the length of the result. What they compute is pinned by ShiftFailsIff, InsertStepFailsIff and the examples.
- SortingAsWritten.MergeCallsAsWritten: counts recursion with a fuel bound, so it shows that the recursion does not end without modelling the infinite run.

## Findings

| source | as written | input that shows it | evidently intended | confidence | as-written member | corrected member |
|---|---|---|---|---|---|---|
| data_structures/stack.h:44-50 | Pop returns `data[count--]`, reading the slot above the top | a full stack [1, 2]: the read is out of bounds; with a spare slot it returns 0, not 2 | `data[--count]`, the top element | not executed | Stacks.PopAsWritten, Stacks.PopAsWrittenMissesTop | Stacks.Stack.Pop |
| data_structures/stack.h:26-31 | the initializer-list fill never advances its index, so every value goes to slot 0 | {1, 2, 3} gives [3, 0, 0] | copy the values in order | not executed | Stacks.InitializerListAsWritten, Stacks.InitializerListExample | Stacks.Stack.FromArray |
| data_structures/queue.h:23-28 | the same fill loop, and `back = size - 1` as in row 4 | {1, 2, 3} gives [3, 0, 0] | copy the values in order, with `back` at 0 | not executed | Stacks.InitializerListAsWritten, Queues.BackAsWritten | Queues.Queue.FromArray |
| data_structures/queue.h:18 | a full queue from an array starts with `back = count - 1`, and `2^64 - 1` when `count == 0` | [5, 6], Dequeue, Enqueue(7): the 6 still queued is overwritten, giving [7, 5] | `back = 0`, the next free slot (modulo `count`) | not executed | Queues.BackAsWritten, Queues.BackAsWrittenOverwrites | Queues.Queue.FromArray, Queues.FromArrayExample |
| data_structures/heap.h:97-106 | Pop's sift-down swaps with the left child whenever it is larger than the parent, even when the right child is larger still, and it never sifts up | Pop(0) on [10, 5, 8, 1, 2, 3] leaves [5, 3, 8, 1, 2], not a max-heap | swap with the larger child, then sift up from the moved slot | not executed | Heap.MaxHeap.PopAsWritten, Heap.PopBreaksHeap | Heap.MaxHeap.Pop |
| data_structures/heap.h:53-57 | the array constructor sets `count` and `max_count` to the array's count before Adding each element | the array [1]: the first Add raises `count` to 2, which is at least 1, and throws | start empty, with room for all elements | not executed | Heap.FromArrayAsWritten, Heap.FromArrayExample | Heap.FromArray |
| sorting.cpp:23-24 | `j` is a `size_t`, so `j >= 0` always holds and `--j` past 0 wraps to 2^64 - 1 | [1, 0]: the scan reads `array[2^64 - 1]`; so does the demonstration input {6, 3, 2, 0, 1, 5, 8, 7, 9, 4} in its first pass | stop the scan below index 0 | not executed | SortingAsWritten.InsertStepAsWritten, SortingAsWritten.InsertionSortPairAsWritten, SortingExamples.InsertionSortDemoAsWritten | Sorting.InsertionSort |
| sorting.cpp:174 | the guard `left < right - 1` on `size_t` holds when `right == 0` | [1, 0]: the pivot lands at 0, the recursion on (0, 0) passes the guard, and Partition reads `array[2^64 - 1]` | `left + 1 < right` | not executed | SortingAsWritten.QuickSortPairAsWritten, SortingAsWritten.GuardsAgree | Sorting.QuickSortHelper |
| sorting.cpp:132 | the same guard in MergeSortHelper | an empty array: MergeSortHelper(0, 0) calls itself on (0, 0) forever | `left + 1 < right` | not executed | SortingAsWritten.MergeSortEmptyDiverges | Sorting.MergeSortHelper |
