# structures-in-go, modelled in Dafny

A model of the core of the Go library `structures-in-go`: its three binary
search trees (`binary-search-tree.go`, `bst.go`, `bstree.go`, with the node type
of `node.go`), the red-black tree, the binary max-heap and its heapsort, the
quicksort `Sorter`, the binary indexed (Fenwick) tree, the singly and doubly
linked lists, the queue, the stack, the `PriorityQ` back end, and the helpers
`FixedMinLength` and `Flatten2D`.

Every container holds `int` values ordered by the three-way comparator the
library's integer constructors install (`Order.Compare`: 1, 0 or -1). Pointer
structures become values:
- A binary search tree is a `BinaryTrees.Tree`. A node pointer is a path of
  left/right turns from the root.
- A red-black tree is a coloured tree, `RedBlackTrees.RBTree`. Its parent
  pointers are a zipper: the node's subtree plus the frames of its ancestors.
- The heap is its slice plus the index of its last slot.
- The Fenwick tree is its cell slice.
- The doubly linked list is a ring of node ids with `next`, `prev` and `val`
  maps.

Methods that mutate their receiver return the new value instead.

Each operation is stated against a partner:
- Tree operations are stated against the in-order walk and its multiset.
  Search order is proved equivalent to a sorted walk.
- Heap operations are stated against the heap property and the multiset of
  slots `1..i`.
- The Fenwick tree is stated against the array of point values it encodes,
  through prefix sums.
- Containers are stated against the sequence they hold, with FIFO and LIFO
  laws.

## Model

| member | source | states |
|---|---|---|
| Order.Compare | structures/binary-search-tree.go:291-301 | the integer comparator: 1, 0, -1 exactly when a > b, a == b, a < b |
| Order.SortedUnique | common/sort.go:19-27 | two sorted sequences with the same multiset are equal, so a sort's output is determined by its input's values |
| BinaryTrees.InOrder | structures/binary-search-tree.go:33-45 | the in-order walk has one entry per node |
| BinaryTrees.OrderedIffSorted | structures/binary-search-tree.go:33-45 | a tree is search-ordered (left at most the node, right at least it) exactly when its in-order walk is sorted |
| BinaryTrees.Search | structures/binary-search-tree.go:48-64 | a found node holds the value; in a search-ordered tree the search fails exactly when the value is absent |
| BinaryTrees.SearchLoop | structures/binary-search-tree.go:48-64 | the iterative descent (left when the node compares greater, right otherwise) finds what the recursive search finds |
| BinaryTrees.MaxSince | structures/binary-search-tree.go:67-76 | from a node, the rightmost node of its subtree: no right child, last position of the subtree's walk; nil for nil |
| BinaryTrees.MinSince | structures/binary-search-tree.go:79-88 | from a node, the leftmost node of its subtree: no left child, first position of the subtree's walk; nil for nil |
| BinaryTrees.MaxNode | structures/binary-search-tree.go:91-93 | nil exactly for the empty tree; otherwise the last position of the walk, at least every value when ordered |
| BinaryTrees.MinNode | structures/binary-search-tree.go:96-98 | nil exactly for the empty tree; otherwise the first position of the walk, at most every value when ordered |
| BinaryTrees.Successor | structures/binary-search-tree.go:103-117 | the node one position later in the walk; nil only for the last node (or a nil node) |
| BinaryTrees.Predecessor | structures/binary-search-tree.go:122-136 | the node one position earlier in the walk; nil only for the first node (or a nil node) |
| BinaryTrees.Insert | structures/binary-search-tree.go:138-170 | the tree's multiset gains exactly the value and search order is kept |
| BinaryTrees.InsertSplice | structures/binary-search-tree.go:138-170 | inserting splices the value into the walk at one position, nothing else moves |
| BinaryTrees.InsertLoop | structures/binary-search-tree.go:138-170 | the iterative descent with a trailing parent builds the same tree as the recursive insert |
| BinaryTrees.InsertAll | structures/binary-search-tree.go:257-283 | inserting a sequence adds exactly its multiset and keeps search order |
| BinaryTrees.Transplant | structures/binary-search-tree.go:185-196 | replacing the subtree at a node replaces exactly that subtree's stretch of the walk by the new subtree's walk |
| BinaryTrees.TransplantConcat | structures/binary-search-tree.go:185-196 | transplanting below a subtree and then the subtree equals one transplant along the joined path |
| BinaryTrees.DeleteNode | structures/binary-search-tree.go:201-223 | false and unchanged for nil; otherwise exactly the node's position leaves the walk |
| BinaryTrees.Delete | structures/binary-search-tree.go:228-231 | true exactly when the search finds the value (when ordered: when it is present); then exactly one copy leaves the multiset; order is kept |
| BinaryTrees.RemoveKeepsOrder | structures/binary-search-tree.go:201-223 | removing one position of the walk keeps a search-ordered tree ordered |
| BinaryTrees.HeightDfs | structures/binary-search-tree.go:236-253 | the depth-first walk with a running depth and maximum returns the larger of the maximum and depth plus the subtree's height |
| BinaryTrees.PathShorterThanHeight | structures/binary-search-tree.go:236-253 | every root-to-node path is shorter than the height |
| BinaryTrees.DeepestPath | structures/binary-search-tree.go:236-253 | a non-empty tree has a path whose length plus one is the height |
| BinarySearchTree.InsertChecked | structures/binary-search-tree.go:138-170 | with `safe` the insert is refused exactly when the search finds the value, leaving the tree unchanged; otherwise it is the plain insert |
| BinarySearchTree.Insert | structures/binary-search-tree.go:175-177 | true exactly when the value was absent (ordered tree); then the multiset gains it; order is kept |
| BinarySearchTree.UnsafeInsert | structures/binary-search-tree.go:180-182 | always inserts: the multiset gains the value, order is kept |
| BinarySearchTree.InsertAllSafe | structures/binary-search-tree.go:257-283 | inserting with refusal keeps the root, keeps order, holds exactly the values of the tree and the sequence, and never duplicates |
| BinarySearchTree.Rebuild | structures/binary-search-tree.go:257-283 | the rebuilt tree is ordered, duplicate-free, holds the same set of values, has the median of the walk at its root, and keeps the walk of a duplicate-free ordered tree |
| BinarySearchTree.RebuildKeepsWalk | structures/binary-search-tree.go:257-283 | re-inserting the values of a duplicate-free ordered tree in any order gives the same walk |
| BinarySearchTree.Height | structures/binary-search-tree.go:236-253 | the height bounds every path and is reached by one |
| Medians.Rearrange | structures/bst.go:333-344 | the median-first order of `rearrange`: same length and multiset as the range, the range's middle first |
| Medians.RearrangeHead | structures/bst.go:323-351 | the whole sorted slice rearranged starts with its median |
| Flatten.Flatten2D | common/flatten.go:4-12 | the loop's result is the layers concatenated in order, as long as all layers together; no layers give nothing and one layer gives itself |
| Flatten.ConcatIndex | common/flatten.go:4-12 | element `j` of layer `i` sits at the total length of the earlier layers plus `j` |
| Flatten.ConcatAppend | common/flatten.go:4-12 | flattening distributes over appending layers |
| Nodes.DummyNode | structures/node.go:22-24 | a node without a value or children |
| Nodes.NewNode | structures/node.go:26-28 | a node with the given value and nil children; it has a value exactly when the given one is not nil |
| Nodes.NodesAsTrees | structures/node.go:17-28 | a placeholder is the empty tree, a new valued node a one-node tree; a node stands for a tree node exactly when it has a value |
| Bst.Insert | structures/bst.go:29-53 | the value is spliced into the walk; multiset, search order and the insert-built shape are kept |
| Bst.Search | structures/bst.go:56-72 | returns the subtree of the found node, which holds the value; when ordered, found exactly when present |
| Bst.Delete | structures/bst.go:79-177 | true exactly when the search finds the value, which in a search tree is exactly when it is stored; then one position holding it leaves the walk; otherwise unchanged; a search tree stays one |
| Bst.Depth | structures/bst.go:237-239 | the height: bounds every path and is reached by one |
| Bst.Values | structures/bst.go:244-302 | one row per level down to the height, with dummy placeholders when `replacement` is set |
| Bst.ValuesLevels | structures/bst.go:244-302 | each row's values are that level's values left to right; with `replacement` row `k` has `2^k` cells; without it no placeholder |
| Bst.DrainLevel | structures/bst.go:274-297 | draining one level yields its labels, the queue of the next level, and whether any real node was met |
| Bst.FlattenedValues | structures/bst.go:307-309 | the rows concatenated; its values are exactly the tree's multiset |
| Bst.Copy | structures/bst.go:312-319 | re-inserting the level order keeps the multiset and gives back the very tree when it was built by inserts, or is a search tree of distinct values |
| Bst.Rebuild | structures/bst.go:323-351 | same multiset, ordered, insert-built shape, sorted walk, median of the walk at the root |
| LevelCopy.LevelOrderRebuilds | structures/bst.go:312-319 | inserting an insert-built tree's values level by level into an empty tree rebuilds that tree |
| LevelRebuild.InsertAllKeepsShape | structures/bst.go:29-53 | inserting any sequence into an insert-built tree (every left value smaller than its ancestor, every right value at least it) keeps that shape |
| LevelRebuild.ShapedIsOrdered | structures/bst.go:29-53 | an insert-built shape is search-ordered |
| LevelRebuild.DistinctOrderedShaped | structures/bst.go:29-53 | a search-ordered tree whose values are all different has the shape the insert descent builds |
| LevelRebuild.InsertAllBelowRoot | structures/bst.go:29-53 | inserting a sequence below a root sends the smaller values left and the rest right, in order |
| Levels.FilledWidth | structures/bst.go:244-302 | with placeholders every level `k` is `2^k` wide |
| Levels.LevelNonEmpty | structures/bst.go:244-302 | a level holds values exactly below the height, which is when the level loop stops |
| Levels.LevelsHoldTree | structures/bstree.go:253-255 | the levels together hold exactly the tree's multiset |
| Levels.FillKeepsValues | structures/bstree.go:191-248 | placeholders do not change the values a level holds |
| BsTree.Search | structures/bstree.go:62-78 | returns the value when found; found exactly when the search finds it, exactly when present in an ordered tree |
| BsTree.Delete | structures/bstree.go:83-181 | returns the value exactly when found; then one copy leaves the multiset; unchanged otherwise; order is kept |
| BsTree.Values | structures/bstree.go:191-248 | the levels of the tree; with `fill` it fails (the type assertion on a queued nil) exactly when a placeholder lands on one of the levels the loop pops |
| BsTree.LoopNextLevel | structures/bstree.go:191-248 | finishing a level appends exactly that level and the loop ends exactly at the height |
| BsTree.FlattenedValues | structures/bstree.go:253-255 | the levels concatenated; exactly the tree's multiset |
| BsTree.Depth | structures/bstree.go:184-186 | the height: bounds every path and is reached by one |
| BsTree.Copy | structures/bstree.go:258-265 | same multiset, and the very tree when it was built by inserts, or is a search tree of distinct values |
| BsTree.Rebuild | structures/bstree.go:269-297 | same multiset, ordered, sorted walk, median of the walk at the root |
| BsTree.FirstInsertedIsRoot | structures/bstree.go:35-59 | the first value inserted into an empty tree stays its root |
| RedBlackTrees.Walk | structures/red-black-tree.go:39-51 | the walk of a coloured tree is the walk of its uncoloured shape |
| RedBlackTrees.Search | structures/red-black-tree.go:54-70 | a found node holds the value; when ordered, found exactly when present |
| RedBlackTrees.MaxSince | structures/red-black-tree.go:73-82 | the last position of the node's subtree in the walk |
| RedBlackTrees.MinSince | structures/red-black-tree.go:85-94 | the first position of the node's subtree in the walk |
| RedBlackTrees.Max | structures/red-black-tree.go:97-99 | nil exactly for the empty tree; else the last position, at least every value when ordered |
| RedBlackTrees.Min | structures/red-black-tree.go:102-104 | nil exactly for the empty tree; else the first position, at most every value when ordered |
| RedBlackTrees.Successor | structures/red-black-tree.go:109-126 | one position later in the walk; nil only for the last node |
| RedBlackTrees.Predecessor | structures/red-black-tree.go:131-148 | one position earlier in the walk; nil only for the first node |
| RedBlackTrees.LeftRotate | structures/red-black-tree.go:151-170 | the right child rises with its colour, the node becomes its left child; the walk is kept |
| RedBlackTrees.RightRotate | structures/red-black-tree.go:173-192 | the mirror image; the walk is kept |
| RedBlackTrees.RotationsInverse | structures/red-black-tree.go:151-192 | a right rotation undoes a left rotation and the other way round |
| RedBlackTrees.RotationKeepsOrder | structures/red-black-tree.go:151-192 | a tree is ordered exactly when its rotations are |
| RedBlackTrees.PlugWalk | structures/red-black-tree.go:283-292 | a subtree plugged into its ancestors walks as the ancestors' left part, the subtree, their right part |
| RedBlackTrees.BalancedPaths | structures/red-black-tree.go:403-420 | in a black-balanced tree every root-to-leaf path meets the same number of black nodes |
| RedBlackTrees.Height | structures/red-black-tree.go:403-420 | zero exactly for the empty tree; bounds every path and is reached by one |
| RedBlackTrees.HeightDfsAsWritten | structures/red-black-tree.go:406-417 | the dfs as written stops only at the sentinel: `None`, the nil dereference, exactly when handed a nil pointer; otherwise the same running maximum as the corrected `HeightDfs` |
| RedBlackTrees.HeightAsWritten | structures/red-black-tree.go:403-420 | on any non-nil root it agrees with the corrected `Height` |
| RedBlackTrees.FreshTreeHeight | structures/red-black-tree.go:403-420 | a fresh tree's nil root makes the height as written panic (`None`), while the empty tree's height is 0 |
| RedBlackInsert.Attach | structures/red-black-tree.go:194-224 | the descent refuses exactly when `safe` and the value is found; otherwise the new red leaf goes where the plain search-tree insert puts it |
| RedBlackInsert.InsertFixup | structures/red-black-tree.go:227-266 | the repair keeps the walk, leaves a black root, and restores the red-black properties when only the new node and its parent are both red |
| RedBlackInsert.RecolorOk | structures/red-black-tree.go:227-266 | case 1 (red uncle) recolours and moves the repair two levels up, keeping its invariant |
| RedBlackInsert.RestructureOk | structures/red-black-tree.go:227-266 | cases 2 and 3 (black uncle) end with a red-black tree |
| RedBlackInsert.InsertChecked | structures/red-black-tree.go:194-224 | refused exactly when `safe` and found; else the walk is the search-tree insert's walk and the multiset gains the value; order, black root and red-black properties kept |
| RedBlackInsert.Insert | structures/red-black-tree.go:271-273 | true exactly when the search misses (ordered: the value is absent); the value is spliced into the walk; order and red-black properties kept |
| RedBlackInsert.UnsafeInsert | structures/red-black-tree.go:276-278 | always inserts: spliced into the walk; order and red-black properties kept |
| RedBlackInsert.InsertAll | tests/red-black-tree_test.go:9-15 | inserting any sequence into a new tree (duplicates refused) gives an ordered red-black tree holding exactly the values that occur in the sequence |
| RedBlackDelete.Unlink | structures/red-black-tree.go:354-387 | unlinking a node (directly or through its successor) drops exactly its value from the walk |
| RedBlackDelete.UnlinkLeavesRed | structures/red-black-tree.go:359-372 | in a balanced tree the node left where the repair starts (the other child, or the successor's right child) is the sentinel or red |
| RedBlackDelete.UnlinkKeepsRoot | structures/red-black-tree.go:359-384 | the successor takes the removed node's colour, so a black root stays at the top of the ancestors |
| RedBlackDelete.DeleteFixup | structures/red-black-tree.go:295-349 | every repair case keeps the walk; with no ancestors, a sentinel or a red node it only blackens; a black root stays black |
| RedBlackDelete.DeleteNode | structures/red-black-tree.go:354-390 | false and unchanged for nil; otherwise true and exactly the node's position leaves the walk; order is kept; on a red-black tree the repair never dereferences nil; a black root stays black |
| RedBlackDelete.DeleteAt | structures/red-black-tree.go:354-390 | removing the node at a path drops exactly its position from the walk and keeps order; on a red-black tree it always succeeds; a black root stays black |
| RedBlackDelete.Delete | structures/red-black-tree.go:395-398 | unchanged and false exactly when the search fails (ordered: the value is absent); otherwise one copy leaves the multiset; order kept; on a red-black tree it always succeeds; a black root stays black |
| RedBlackSample.DeleteBlackLeafUnbalances | structures/red-black-tree.go:295-296 | deleting the black leaf 1 from the red-black tree of black nodes 1, 2, 3 leaves the sentinel in its place, the loop guard skips the repair, and the result is not balanced |
| RedBlackSample.Insert9 | tests/red-black-tree_test.go:9-15 | the ninth insertion of the sample, 15, goes through the restructuring cases to the expected tree |
| RedBlackSample.SampleTree | tests/red-black-tree_test.go:16-25 | the sample tree has height 4 and walk 3, 7, 9, 11, 14, 15, 16, 18, 26 |
| RedBlackSample.SuccessorOf9 | tests/red-black-tree_test.go:28-35 | 9 is found and its successor holds 11 |
| RedBlackSample.PredecessorOf9 | tests/red-black-tree_test.go:36-39 | 9's predecessor holds 7 |
| RedBlackSample.SuccessorOf26 | tests/red-black-tree_test.go:40-47 | 26 is found and has no successor |
| BinaryHeap.HeapIffPairs | structures/binary-heap.go:45-61 | the recursive heap property at slot 1 is the same as every child being at most its parent |
| BinaryHeap.HeapRootIsMax | structures/binary-heap.go:45-61 | the root of a heap is at least everything below it |
| BinaryHeap.Largest | structures/binary-heap.go:45-61 | the slot `maxHeapify` picks holds the largest of the slot and its children |
| BinaryHeap.MaxHeapify | structures/binary-heap.go:45-61 | sifting down permutes only the slot's subtree, puts the largest of slot and children on top, and makes a heap of two child heaps |
| BinaryHeap.Build | structures/binary-heap.go:64-68 | permutes slots `1..n` only and turns them into a heap |
| BinaryHeap.NewEmptyBinaryHeap | structures/binary-heap.go:142-144 | an empty heap with `defaultSize` slots |
| BinaryHeap.NewBinaryHeap | structures/binary-heap.go:152-161 | slot 0 reserved, the values in slots 1 on, and a heap of exactly those values |
| BinaryHeap.Size | structures/binary-heap.go:32-34 | the number of values in the heap |
| BinaryHeap.HeapMaximum | structures/binary-heap.go:84-89 | `NoElement` exactly for an empty heap; otherwise a value of the heap at least all others |
| BinaryHeap.ExtractHeapMaximum | structures/binary-heap.go:95-104 | `NoElement` exactly when empty; otherwise the maximum leaves, the rest stays a heap of the remaining values |
| BinaryHeap.ExtractNonIncreasing | structures/binary-heap.go:95-104 | two extractions in a row never yield a larger second value |
| BinaryHeap.SiftUp | structures/binary-heap.go:107-120 | the climb only permutes slots `1..n` and leaves a heap when only the raised slot was out of place |
| BinaryHeap.UpdateKey | structures/binary-heap.go:107-120 | `InvalidIndex` past the last slot, `KeyValue` for a smaller key; else the key replaces one value and a heap stays a heap |
| BinaryHeap.Insert | structures/binary-heap.go:123-131 | one more value (the slice grows by `defaultSize` when full), exactly the key added, a heap stays a heap |
| BinaryHeap.Heapsort | structures/binary-heap.go:74-81 | permutes slots `1..i`, keeps the size, and sorts the values ascending when they formed a heap |
| BinaryHeap.HeapsortAsWritten | structures/binary-heap.go:74-81 | the same slots as the corrected sort, but the size becomes the slice length minus one |
| BinaryHeap.HeapsortAsWrittenGrows | structures/binary-heap.go:74-81 | a one-value heap in a 50-slot slice comes out with size 49 |
| Sort.Partition | common/sort.go:38-52 | the pivot lands at the returned index, smaller-or-equal values before it, larger after; only the range is permuted |
| Sort.QuickSort | common/sort.go:29-36 | permutes the range and sorts it; a range with `right <= left` is untouched |
| Sort.Sort | common/sort.go:19-27 | false and unchanged without a comparator; otherwise the unique sorted permutation |
| BinaryIndexedTree.Lowbit | structures/binary-indexed-tree.go:10-12 | the largest power of two dividing a positive number |
| BinaryIndexedTree.New | structures/binary-indexed-tree.go:53-56 | `n + 1` zero cells encoding `n` zeros |
| BinaryIndexedTree.Size | structures/binary-indexed-tree.go:36-38 | the number of values encoded |
| BinaryIndexedTree.Update | structures/binary-indexed-tree.go:15-19 | exactly the cells covering position `i` gain `v`, so the cells encode the values with `v` added at `i` |
| BinaryIndexedTree.UpdateKeepsValid | structures/binary-indexed-tree.go:15-19 | adding `v` to the covering cells keeps the cells a Fenwick encoding of the bumped values |
| BinaryIndexedTree.Query | structures/binary-indexed-tree.go:22-28 | the sum of values `0..i`, and 0 for a negative `i` |
| BinaryIndexedTree.Range | structures/binary-indexed-tree.go:31-33 | the sum of values `i..j` |
| BinaryIndexedTree.Snapshot | structures/binary-indexed-tree.go:41-45 | a copy of the cells, still encoding the same values |
| BinaryIndexedTree.QueryAfterUpdates | structures/binary-indexed-tree.go:15-28 | after any updates on a new tree, a query returns the total of the updates at positions up to `i` |
| LinkedLists.NewLinkedList | structures/linked-list.go:59-61 | an empty list |
| LinkedLists.Search | structures/linked-list.go:20-29 | the first position holding the value; nil exactly when absent |
| LinkedLists.Insert | structures/linked-list.go:32-36 | the value becomes the first and is found there |
| LinkedLists.DeleteAsWritten | structures/linked-list.go:39-52 | only the first node is compared: removed and returned when equal, otherwise nil and no change |
| LinkedLists.DeleteAsWrittenMissesLaterNode | structures/linked-list.go:39-52 | the list 1, 2 still holds 2 after deleting 2 |
| LinkedLists.Delete | structures/linked-list.go:38-52 | removes and returns the first node holding the value, nil exactly when absent; the multiset loses one copy |
| LinkedLists.DeleteInsert | structures/linked-list.go:32-52 | deleting a value just inserted gives back the list |
| LinkedLists.DeleteAgreesAtFront | structures/linked-list.go:39-52 | the written and intended deletes agree when the value is first or absent |
| DoubleLinkedLists.NewDoubleLinkedList | structures/linked-list.go:113-118 | the sentinel alone, linked to itself both ways |
| DoubleLinkedLists.Insert | structures/linked-list.go:92-98 | the new node goes first and every link stays consistent |
| DoubleLinkedLists.Consistent | structures/linked-list.go:72-118 | following `next` then `prev` (or the reverse) returns to the node |
| DoubleLinkedLists.Search | structures/linked-list.go:80-89 | the first node holding the value; nil exactly when absent |
| DoubleLinkedLists.DeleteNode | structures/linked-list.go:108-111 | the node leaves the order and the links stay consistent |
| DoubleLinkedLists.Delete | structures/linked-list.go:101-105 | the first node holding the value is unlinked and returned; `None`, the nil dereference in `DeleteNode`, exactly when the value is absent |
| Queues.NewQueue | structures/queue.go:53-55 | an empty queue |
| Queues.NewQueueWithValues | structures/queue.go:57-59 | a queue of the given values, length counted |
| Queues.Length | structures/queue.go:11-13 | the number of values |
| Queues.IsEmpty | structures/queue.go:15-17 | true exactly when no value is queued |
| Queues.Add | structures/queue.go:20-23 | the value goes to the back; the length grows by one |
| Queues.Pop | structures/queue.go:26-36 | nil and no change when empty; otherwise the front value leaves |
| Queues.Reset | structures/queue.go:41-44 | empties the queue |
| Queues.Copy | structures/queue.go:47-51 | the same values and length |
| Queues.Fifo | structures/queue.go:20-36 | adding values then popping everything yields the old values then the new ones, in order |
| Stacks.NewStack | structures/stack.go:52-54 | an empty stack |
| Stacks.Len | structures/stack.go:9-11 | zero exactly for the empty stack |
| Stacks.HasNext | structures/stack.go:13-15 | true exactly when the length is not zero |
| Stacks.Push | structures/stack.go:32-34 | the value goes on top, the rest stays below |
| Stacks.Pop | structures/stack.go:26-30 | the top value leaves |
| Stacks.PopPush | structures/stack.go:26-34 | popping right after a push gives back the value and the stack |
| Stacks.Lifo | structures/stack.go:26-34 | pushing values then popping everything yields them in reverse, then the old values |
| Stacks.Reset | structures/stack.go:39-41 | empties the stack |
| Stacks.Copy | structures/stack.go:44-50 | the same values in the same order |
| PriorityQueues.NewPriorityQ | structures/priorityQ.go:63-65 | an empty queue |
| PriorityQueues.Len | structures/priorityQ.go:17-19 | zero exactly for the empty queue |
| PriorityQueues.HasNext | structures/priorityQ.go:21-23 | true exactly when the length is not zero |
| PriorityQueues.Less | structures/priorityQ.go:25-30 | true exactly when slot `i` does not compare greater than slot `j` |
| PriorityQueues.LessTotalOrder | structures/priorityQ.go:25-30 | `Less` is total and transitive, as a heap driver needs |
| PriorityQueues.Swap | structures/priorityQ.go:32-34 | exchanges two slots, nothing else changes |
| PriorityQueues.SwapTwice | structures/priorityQ.go:32-34 | swapping twice gives back the queue |
| PriorityQueues.Push | structures/priorityQ.go:36-38 | appends the value |
| PriorityQueues.Pop | structures/priorityQ.go:40-44 | removes and returns the last value |
| PriorityQueues.PopPush | structures/priorityQ.go:36-44 | popping right after a push gives back the value and the queue |
| PriorityQueues.Reset | structures/priorityQ.go:49-51 | empties the queue |
| PriorityQueues.Copy | structures/priorityQ.go:54-60 | the same values in the same order |
| TypeCasting.FixedMinLength | common/typecasting.go:30-39 | a string at least `n` long is unchanged; a shorter one is centred in exactly `n` characters, the right margin equal to the left or one more |
| TypeCasting.FixedMinLengthIdempotent | common/typecasting.go:30-39 | padding twice is padding once |
| TypeCasting.FixedMinLengthExamples | common/typecasting.go:30-39 | "7" and "10" padded to 4 are " 7  " and " 10 "; "1024" is unchanged |
| TypeCasting.FixedMinLengthDefault | common/typecasting.go:42-44 | pads to the default length of 4 |

## Left out

- Comparators: values are integers with the library's integer comparator. A user-supplied `compare` function and `interface{}` values are not modelled.
- Pointers and mutation: receivers are values, node pointers are paths into the tree, and parent pointers are a zipper. Aliasing between trees is not modelled.
- RedBlackDelete.DeleteNode: keeps the walk, the search order and a black root, and never fails on a red-black tree, but does not keep black heights equal. The loop guard of `deleteFixup` (red-black-tree.go:296) stops when the node that took the removed black node's place is the sentinel, so the missing black is never repaired: RedBlackSample.DeleteBlackLeafUnbalances deletes 1 from the black nodes 1, 2, 3 and gets an unbalanced tree. A corrected delete is not part of this model. `None` is a run in which the repair loop would read a child of the sentinel.
- RedBlackInsert.Insert: requires a root that is not red. Every public operation leaves a black root, so no reachable tree is excluded.
- RedBlackTrees.Max: an empty tree's root is nil when fresh, and the sentinel once every node has been deleted. Go's `Max` and `Min` return that root; the model returns nil for both.
- The red-black node type `RBTreeNode` is not part of this model; its constructor is read from the tree code only.
- The red-black deletions of tests/red-black-tree_test.go:50-96 are not replayed. The delete repair is proved to keep the walk and a black root, but not the black heights (see RedBlackDelete.DeleteNode above).
- The heap test vectors of tests/binary-heap_test.go are not replayed; evaluating `MaxHeapify` on concrete slices is beyond what the verifier can unfold cheaply.
- BinaryHeap `Copy` (binary-heap.go:134-136) and BinaryIndexedTree `Copy`: with value semantics a copy is the value itself.
- BsTree.Values: with `fill` set, a missing child is queued as an untyped nil, and the type assertion on it panics when the loop pops it. The model returns `None` exactly there. bstree.go calls `Push` and `HasNext`, which queue.go does not define; the model uses the intended `Add` and `IsEmpty`.
- `PrintTree` and `getIndentation` (bst.go:182-234), `CastString` (printing), vectors, the B-tree and the Fibonacci heap are outside the modelled core.
- BinaryIndexedTree.Lowbit: computed by halving rather than `x & -x`; the two agree for positive `x`, the only inputs the tree passes.
- BinaryIndexedTree.Update: the cells hold `float64` in Go and `int` here, so rounding is not modelled. A negative index loops forever (`-1`) or panics in Go and is excluded by `requires`; an index past the end changes nothing, as in Go.
- BinaryIndexedTree.Query: an index past the end panics in Go and is excluded by `requires`.
- BinaryHeap.UpdateKey: a negative index panics in Go and is excluded by `requires`.
- Sort.QuickSort: with `right > left`, bounds outside the slice panic in Go, at the first out-of-range `a[...]` in `partition` (sort.go:38-52), and are excluded by `requires`. `Sort` always passes `0, len - 1`, and a range with `right <= left` is accepted whatever its bounds, as in Go.
- BinaryHeap.NewEmptyBinaryHeap, BinaryHeap.Insert: the empty slots that `make` creates (binary-heap.go:126, 143) hold nil in Go and 0 here. On the normal path no slot beyond the size is ever read or compared, so the two agree. After the as-written `Heapsort` (binary-heap.go:80) the size can cover such slots: Go's next `ExtractHeapMaximum` moves a nil to the top and `maxHeapify` compares nil values, which panics in the integer comparator, where the model reads them as 0.
- TypeCasting.FixedMinLength: lengths count characters, where Go's `len` counts UTF-8 bytes; the two agree on ASCII text.
- PriorityQueues.Pop, Stacks.Pop: popping an empty container panics in Go and is excluded by `requires HasNext`.
- PriorityQueues: the type keeps no order itself. The ordering is done by the `container/heap` driver, which is not part of this model.
- Stacks.Copy, PriorityQueues.Copy: `common.Copy` deep-copies values; integers copy as themselves.
- Nodes: node.go's `Node` has value, left and right only; list nodes (`Next`) are modelled in LinkedLists.
- Bst.Copy, BsTree.Copy: only a tree of the shape inserts build comes back identical; that covers every tree built by inserts alone and every search tree of distinct values (LevelRebuild.DistinctOrderedShaped). A delete with duplicates can leave an equal value on the left, and re-inserting moves it right.

## Findings

| source | as written | input that shows it | evidently intended | confidence | as-written member | corrected member |
|---|---|---|---|---|---|---|
| structures/binary-heap.go:80 | after sorting, the size is reset to `len(bh.Heap) - 1`, the slice length rather than the number of values | a heap holding one value in its 50-slot slice (`NewEmptyBinaryHeap` then `Insert(5)`); after `Heapsort` its size is 49 | the size before sorting is restored | high, not executed | BinaryHeap.HeapsortAsWritten, BinaryHeap.HeapsortAsWrittenGrows | BinaryHeap.Heapsort |
| structures/linked-list.go:42-51 | `Delete` compares only the first node (`if`, where a loop was meant) | the list 1, 2: `Delete(2)` returns nil and 2 stays | the first node whose value compares equal is removed, as the comment says | high, not executed | LinkedLists.DeleteAsWritten, LinkedLists.DeleteAsWrittenMissesLaterNode | LinkedLists.Delete |
| structures/red-black-tree.go:403-419 | `Height` walks until it meets the sentinel; a fresh tree's root is nil, not the sentinel | `NewRedBlackTree(...).Height()` dereferences nil | a fresh tree has height 0 | high, not executed | RedBlackTrees.HeightAsWritten, RedBlackTrees.FreshTreeHeight | RedBlackTrees.Height |
