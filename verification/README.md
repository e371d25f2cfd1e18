# Data structures library, modelled in Dafny

This project models the Java library `std.guedes.datastructures`. The library is a teaching
collection of data structures:

- binary, binary-search and AVL trees;
- the `_Arrays` utilities (searches, five sorts, `swap` and `toString`);
- array-backed structures: `_ArrayList`, `_StaticStack`, `_StaticQueue` and the ring buffer
  `_StaticQueue2`;
- linked structures: `_SinglyLinkedList`, `_DoublyLinkedList`, `_DynamicStack`,
  `_DynamicQueue`, `_PriorityQueue` and `_CircularQueue`;
- the separately chained `_Hashtable`;
- the graph `_AdjacencyMatrix`.

Every structure is an immutable Dafny value. Every mutating Java method is a function or
method that returns the new value, together with the Java return value.

How the Java concepts are represented:

- **Exceptions.** A Java exception is the `Fail` case of `Wrappers.Result`, carrying one of
  `NullPointer`, `IllegalArgument`, `IndexOutOfBounds`, `EmptyStack`, `EmptyTree` or
  `Arithmetic`. A Java `null` return is `None`.
- **Nullable arguments.** These are `Option` values where the code checks them, so the
  null-argument branches are modelled.
- **Elements.** Elements are compared with value equality. In the collections, a `null`
  element is modelled by instantiating the element type with an `Option`. The collections
  test the argument for `null` before calling `equals` on it. `_Arrays.sequentialSearch`
  calls `equals` on the array slot instead, so its slots are explicitly `Option` values and a
  `null` slot throws.
- **Comparisons.** `compareTo` is a total order `le` (`Order.TotalOrder`). `a.compareTo(b) < 0`
  is `Order.Less(le, a, b)`, which is `!le(b, a)`.
- **Linked nodes.** `_DoublyLinkedList`, `_DynamicQueue`, `_PriorityQueue` and `_CircularQueue`
  mutate nodes in place, and their bugs depend on which reference is stale. So their nodes
  are an explicit heap: a `seq` of cells indexed by reference, with `NULL == -1`. A `spine`
  lists the references from the head in order, and `Valid` ties the spine to the next and
  previous fields.
- **Chains.** `_SinglyLinkedList` and `_DynamicStack` never alias a node, so their nodes are
  an inductive `Chains.Chain`.
- **Text.** `toString` renders through a caller-supplied `show` function. The reference
  rendering is `Text.Render`: `[`, the elements joined by `, `, then `]`.

Each operation is related to an independent description of what it should do:

- The sequence of elements, through `Positions.Inserted`, `Positions.Removed`,
  `Positions.FirstIndex` and `Positions.LastIndex`.
- The multiset of a tree's elements and its in-order sequence.
- The key-to-value lookup of a hashtable (`Hashtable.Lookup`).
- Reachability by walks in a graph (`AdjacencyMatrix.Reachable`).

Where the code and its documented intent disagree, the model follows the code, and the
disagreement is logged under "Findings" with both versions in Dafny.

## Model

| member | source | states |
|---|---|---|
| BinaryTree.NewNode | src/main/java/std/guedes/datastructures/util/collections/tree/_BinaryTree.java:316-321 | a fresh node is a leaf holding exactly the given element, with height 0 |
| BinaryTree.Height | src/main/java/std/guedes/datastructures/util/collections/tree/_BinaryTree.java:45-70 | the empty tree and a leaf both have height 0; a non-empty tree's height h satisfies h + 1 <= size <= 2^(h+1) - 1 |
| BinaryTree.DepthBounds | src/main/java/std/guedes/datastructures/util/collections/tree/_BinaryTree.java:61-70 | the node-count bounds that any tree of a given height obeys |
| BinaryTree.IsEmpty | src/main/java/std/guedes/datastructures/util/collections/tree/_BinaryTree.java:77-79 | a tree is empty exactly when it holds no element |
| BinaryTree.Clear | src/main/java/std/guedes/datastructures/util/collections/tree/_BinaryTree.java:125-141 | clearing leaves an empty tree with no elements and height 0 |
| BinaryTree.PreorderIsPermutation | src/main/java/std/guedes/datastructures/util/collections/tree/_BinaryTree.java:161-169 | the pre-order traversal lists every element of the tree exactly once |
| BinaryTree.InorderIsPermutation | src/main/java/std/guedes/datastructures/util/collections/tree/_BinaryTree.java:206-214 | the in-order traversal lists every element of the tree exactly once |
| BinaryTree.PostorderIsPermutation | src/main/java/std/guedes/datastructures/util/collections/tree/_BinaryTree.java:251-259 | the post-order traversal lists every element of the tree exactly once |
| BinaryTree.TraversalsArePermutations | src/main/java/std/guedes/datastructures/util/collections/tree/_BinaryTree.java:149-276 | the three traversals are permutations of one another |
| BinaryTree.PreWalk | src/main/java/std/guedes/datastructures/util/collections/tree/_BinaryTree.java:179-186 | the recursive StringBuilder walk appends the pre-order elements, each followed by a separator |
| BinaryTree.InWalk | src/main/java/std/guedes/datastructures/util/collections/tree/_BinaryTree.java:224-231 | the recursive StringBuilder walk appends the in-order elements, each followed by a separator |
| BinaryTree.PostWalk | src/main/java/std/guedes/datastructures/util/collections/tree/_BinaryTree.java:269-276 | the recursive StringBuilder walk appends the post-order elements, each followed by a separator |
| BinaryTree.WalkRendering | src/main/java/std/guedes/datastructures/util/collections/tree/_BinaryTree.java:149-151 | cutting the trailing separator of a walk over a non-empty tree and closing the bracket gives the reference rendering |
| BinaryTree.Traversal | src/main/java/std/guedes/datastructures/util/collections/tree/_BinaryTree.java:149-241 | each traversal string is the reference rendering of that traversal order, including `[]` for the empty tree |
| BinaryTree.ToString | src/main/java/std/guedes/datastructures/util/collections/tree/_BinaryTree.java:279-281 | a tree prints as its in-order rendering, and the empty tree prints `[]` |
| BinarySearchTree.OrderedIffInorderSorted | src/main/java/std/guedes/datastructures/util/collections/tree/_BinarySearchTree.java:45-56 | the search-tree shape invariant holds exactly when the in-order traversal is sorted |
| BinarySearchTree.OrderedSortsInorder | src/main/java/std/guedes/datastructures/util/collections/tree/_BinarySearchTree.java:45-56 | an ordered tree's in-order traversal is sorted |
| BinarySearchTree.SortedInorderIsOrdered | src/main/java/std/guedes/datastructures/util/collections/tree/_BinarySearchTree.java:45-56 | a tree whose in-order traversal is sorted is ordered |
| BinarySearchTree.Insert | src/main/java/std/guedes/datastructures/util/collections/tree/_BinarySearchTree.java:45-56 | insertion adds exactly one occurrence of the element and always yields a node |
| BinarySearchTree.InsertKeepsOrder | src/main/java/std/guedes/datastructures/util/collections/tree/_BinarySearchTree.java:49-54 | descending left on smaller and right otherwise keeps an ordered tree ordered |
| BinarySearchTree.Add | src/main/java/std/guedes/datastructures/util/collections/tree/_BinarySearchTree.java:28-34 | a null element throws; otherwise add returns true, adds one occurrence and keeps the tree ordered with a sorted in-order traversal |
| BinarySearchTree.Leftmost | src/main/java/std/guedes/datastructures/util/collections/tree/_BinarySearchTree.java:119-125 | the leftmost element belongs to the tree and, in an ordered tree, is no greater than any element |
| BinarySearchTree.Rightmost | src/main/java/std/guedes/datastructures/util/collections/tree/_BinarySearchTree.java:142-148 | the rightmost element belongs to the tree and, in an ordered tree, is no less than any element |
| BinarySearchTree.Min | src/main/java/std/guedes/datastructures/util/collections/tree/_BinarySearchTree.java:105-110 | the empty tree throws; otherwise the result is an element that is a lower bound of all elements of an ordered tree |
| BinarySearchTree.MaxValue | src/main/java/std/guedes/datastructures/util/collections/tree/_BinarySearchTree.java:128-133 | the empty tree throws; otherwise the result is an element that is an upper bound of all elements of an ordered tree |
| BinarySearchTree.RemoveRecCorrect | src/main/java/std/guedes/datastructures/util/collections/tree/_BinarySearchTree.java:81-102 | in an ordered tree the recursive removal reports absence exactly when the element is missing, and otherwise removes exactly one occurrence and keeps the tree ordered |
| BinarySearchTree.RemoveLeftCase | src/main/java/std/guedes/datastructures/util/collections/tree/_BinarySearchTree.java:85-87 | removal of a smaller element recurses into the left subtree and is correct |
| BinarySearchTree.RemoveRightCase | src/main/java/std/guedes/datastructures/util/collections/tree/_BinarySearchTree.java:88-90 | removal of a greater element recurses into the right subtree and is correct |
| BinarySearchTree.SplicedRemoved | src/main/java/std/guedes/datastructures/util/collections/tree/_BinarySearchTree.java:92-97 | a matched node with at most one child is replaced by that child, which removes exactly that occurrence |
| BinarySearchTree.RemoveTwoChildCase | src/main/java/std/guedes/datastructures/util/collections/tree/_BinarySearchTree.java:98-99 | copying the right subtree's minimum into a two-child node and deleting it from the right subtree removes one occurrence and keeps order |
| BinarySearchTree.SuccessorCopyKeepsOrder | src/main/java/std/guedes/datastructures/util/collections/tree/_BinarySearchTree.java:98-99 | the successor copied into the node still separates the left and shrunken right subtrees |
| BinarySearchTree.Remove | src/main/java/std/guedes/datastructures/util/collections/tree/_BinarySearchTree.java:59-72 | a null element throws; otherwise the flag says whether the element was present, one occurrence is gone, and the tree stays ordered; a miss leaves the tree unchanged |
| BinarySearchTree.SearchRec | src/main/java/std/guedes/datastructures/util/collections/tree/_BinarySearchTree.java:167-175 | the result is a subtree whose root equals the sought element, and in an ordered tree it is empty exactly when the element is absent |
| BinarySearchTree.Search | src/main/java/std/guedes/datastructures/util/collections/tree/_BinarySearchTree.java:151-156 | a null element throws; otherwise the result is a subtree rooted at an equal element, found exactly when the element is present |
| AvlTree.CachedHeight | src/main/java/std/guedes/datastructures/util/collections/tree/_AVLTree.java:31-33 | the empty tree has height -1, and a node whose height fields are up to date reports its true height |
| AvlTree.UpdateHeight | src/main/java/std/guedes/datastructures/util/collections/tree/_AVLTree.java:40-47 | recomputing a node's height from up-to-date children makes the cached height correct and changes nothing else |
| AvlTree.BalanceFactor | src/main/java/std/guedes/datastructures/util/collections/tree/_AVLTree.java:56-61 | the balance factor is the right subtree's height minus the left subtree's |
| AvlTree.RotateLeft | src/main/java/std/guedes/datastructures/util/collections/tree/_AVLTree.java:172-179 | a left rotation rearranges the three subtrees as documented, keeps the in-order sequence and the elements, and refreshes both heights |
| AvlTree.RotateRight | src/main/java/std/guedes/datastructures/util/collections/tree/_AVLTree.java:188-195 | a right rotation rearranges the three subtrees as documented, keeps the in-order sequence and the elements, and refreshes both heights |
| AvlTree.RotateLeftRight | src/main/java/std/guedes/datastructures/util/collections/tree/_AVLTree.java:205-209 | the double rotation lifts the left child's right child to the root and keeps the in-order sequence |
| AvlTree.RotateRightLeft | src/main/java/std/guedes/datastructures/util/collections/tree/_AVLTree.java:219-223 | the double rotation lifts the right child's left child to the root and keeps the in-order sequence |
| AvlTree.Rebalance | src/main/java/std/guedes/datastructures/util/collections/tree/_AVLTree.java:143-163 | rebalancing keeps the in-order sequence and elements and leaves all cached heights correct |
| AvlTree.RebalanceRestoresBalance | src/main/java/std/guedes/datastructures/util/collections/tree/_AVLTree.java:143-163 | a node whose AVL subtrees differ in height by at most two becomes an AVL tree whose height grows by at most one, and a balanced node is only re-heighted |
| AvlTree.LeftHeavyRebalances | src/main/java/std/guedes/datastructures/util/collections/tree/_AVLTree.java:146-153 | a node that is two levels left-heavy becomes balanced by a right or a left-right rotation |
| AvlTree.RightHeavyRebalances | src/main/java/std/guedes/datastructures/util/collections/tree/_AVLTree.java:154-161 | a node that is two levels right-heavy becomes balanced by a left or a right-left rotation |
| AvlTree.RightRotationBalances | src/main/java/std/guedes/datastructures/util/collections/tree/_AVLTree.java:188-195 | a right rotation fixes a left-left imbalance |
| AvlTree.LeftRotationBalances | src/main/java/std/guedes/datastructures/util/collections/tree/_AVLTree.java:172-179 | a left rotation fixes a right-right imbalance |
| AvlTree.LeftRightRotationBalances | src/main/java/std/guedes/datastructures/util/collections/tree/_AVLTree.java:205-209 | the left-right rotation fixes a left-right imbalance |
| AvlTree.RightLeftRotationBalances | src/main/java/std/guedes/datastructures/util/collections/tree/_AVLTree.java:219-223 | the right-left rotation fixes a right-left imbalance |
| AvlTree.AvlInsert | src/main/java/std/guedes/datastructures/util/collections/tree/_AVLTree.java:73-84 | insertion adds exactly one occurrence and keeps every cached height correct |
| AvlTree.InsertKeepsBalance | src/main/java/std/guedes/datastructures/util/collections/tree/_AVLTree.java:73-84 | insertion into an AVL tree gives an AVL tree whose height grew by zero or one |
| AvlTree.InsertKeepsOrder | src/main/java/std/guedes/datastructures/util/collections/tree/_AVLTree.java:73-84 | insertion followed by rebalancing keeps a search tree ordered |
| AvlTree.Add | src/main/java/std/guedes/datastructures/util/collections/tree/_AVLTree.java:64-70 | a null element throws; otherwise add returns true, adds one occurrence and preserves order and balance |
| AvlTree.AvlRemoveRec | src/main/java/std/guedes/datastructures/util/collections/tree/_AVLTree.java:111-132 | recursive removal keeps every cached height correct |
| AvlTree.SplicedChildUnchanged | src/main/java/std/guedes/datastructures/util/collections/tree/_AVLTree.java:122-127 | a matched node with at most one child is replaced by that child as it is, without rebalancing the child |
| AvlTree.RemoveKeepsBalance | src/main/java/std/guedes/datastructures/util/collections/tree/_AVLTree.java:111-132 | removal from an AVL tree gives an AVL tree whose height dropped by zero or one |
| AvlTree.RemoveKeepsOrder | src/main/java/std/guedes/datastructures/util/collections/tree/_AVLTree.java:111-132 | in an ordered tree removal reports absence exactly when the element is missing, otherwise removes one occurrence and keeps order |
| AvlTree.Remove | src/main/java/std/guedes/datastructures/util/collections/tree/_AVLTree.java:87-100 | a null element throws; otherwise the flag says whether the element was present, one occurrence is gone, order and balance are kept, and a miss leaves the tree unchanged |
| AvlTree.AscendingTripleRotates | src/main/java/std/guedes/datastructures/util/collections/tree/_AVLTree.java:143-179 | inserting 1, 2, 3 in order yields the balanced tree with 2 at the root |
| AvlTree.RepeatedValueLandsLeft | src/main/java/std/guedes/datastructures/util/collections/tree/_AVLTree.java:73-84 | an element equal to the node's goes to the right, so inserting 1 three times builds a right chain that one rotation balances |
| Arrays.SequentialSearch | src/main/java/std/guedes/datastructures/util/_Arrays.java:23-30 | `equals` is called on each slot, so a `null` slot reached before the target throws `NullPointerException`, and a `null` target always throws when the array has a `null` slot; otherwise the result is the first index holding the target, or -1 when it is absent |
| Arrays.BinarySearch | src/main/java/std/guedes/datastructures/util/_Arrays.java:50-69 | on a sorted array the result is an index holding the element, or -1 exactly when it is absent |
| Arrays.Swap | src/main/java/std/guedes/datastructures/util/_Arrays.java:281-285 | the two positions exchange their elements, every other position is unchanged, and the contents are a permutation |
| Arrays.SelectionSort | src/main/java/std/guedes/datastructures/util/_Arrays.java:92-100 | the result is sorted and is a permutation of the input |
| Arrays.BubbleSort | src/main/java/std/guedes/datastructures/util/_Arrays.java:112-123 | the result is sorted and is a permutation of the input |
| Arrays.BubblePass | src/main/java/std/guedes/datastructures/util/_Arrays.java:115-121 | one pass settles one more maximum at the end, permutes the array, and a pass without swaps means the array is already sorted |
| Arrays.InsertionSort | src/main/java/std/guedes/datastructures/util/_Arrays.java:134-145 | the result is sorted and is a permutation of the input |
| Arrays.CarryLeft | src/main/java/std/guedes/datastructures/util/_Arrays.java:137-143 | the inner loop moves the current element left past every strictly greater one and stops after a no-greater one |
| Arrays.Merge | src/main/java/std/guedes/datastructures/util/_Arrays.java:189-205 | the loop produces the reference merge, which prefers the left half on ties |
| Arrays.MergeFromSorted | src/main/java/std/guedes/datastructures/util/_Arrays.java:189-205 | merging two sorted halves gives a sorted permutation of their union |
| Arrays.MergeSort | src/main/java/std/guedes/datastructures/util/_Arrays.java:159-175 | the result is sorted and is a permutation of the input |
| Arrays.Partition | src/main/java/std/guedes/datastructures/util/_Arrays.java:253-267 | the pivot, the last element of the range, ends at the returned index with no greater element before it and no smaller after it; the range is permuted and nothing outside it changes |
| Arrays.QuickSortRange | src/main/java/std/guedes/datastructures/util/_Arrays.java:227-235 | the range is sorted and permuted, and nothing outside it changes |
| Arrays.QuickSort | src/main/java/std/guedes/datastructures/util/_Arrays.java:223-225 | the result is sorted and is a permutation of the input |
| Arrays.Sort | src/main/java/std/guedes/datastructures/util/_Arrays.java:78-80 | the default sort returns a sorted permutation of the input |
| Arrays.ToString | src/main/java/std/guedes/datastructures/util/_Arrays.java:309-319 | an array prints as the reference rendering, and an empty one as `[]` |
| ArrayList.ToString | src/main/java/std/guedes/datastructures/util/collections/list/_ArrayList.java:224-235 | the list prints as the reference rendering of its live prefix, the same text the array utility gives for that prefix, and an empty list prints `[]` |
| Positions.FirstIndex | src/main/java/std/guedes/datastructures/util/collections/list/_ArrayList.java:152-168 | the index of the first equal element, or -1 exactly when there is none |
| Positions.LastIndex | src/main/java/std/guedes/datastructures/util/collections/list/_ArrayList.java:171-187 | the index of the last equal element, or -1 exactly when there is none |
| Positions.LastIndexOf | src/main/java/std/guedes/datastructures/util/collections/list/_ArrayList.java:171-187 | the backward loop finds the last equal element |
| Positions.FirstIsLastIffUnique | src/main/java/std/guedes/datastructures/util/collections/list/_ArrayList.java:152-187 | indexOf and lastIndexOf agree exactly when the element occurs at most once |
| Positions.Inserted | src/main/java/std/guedes/datastructures/util/collections/list/_ArrayList.java:104-114 | inserting at an index shifts the later elements one place right and adds one occurrence |
| Positions.Removed | src/main/java/std/guedes/datastructures/util/collections/list/_ArrayList.java:127-136 | removing at an index shifts the later elements one place left and drops one occurrence |
| Positions.RemovedInserted | src/main/java/std/guedes/datastructures/util/collections/list/_ArrayList.java:104-136 | removing at the index just inserted at restores the sequence |
| Positions.ShiftInsert | src/main/java/std/guedes/datastructures/util/collections/list/_ArrayList.java:109-112 | the right-shifting loop performs the insertion |
| Positions.ShiftRemove | src/main/java/std/guedes/datastructures/util/collections/list/_ArrayList.java:129-131 | the left-shifting loop performs the removal |
| Positions.FirstIndexReversed | src/main/java/std/guedes/datastructures/util/collections/stack/_DynamicStack.java:172-214 | the first match from the top is the last match from the bottom, with the index mirrored |
| Resize.CeilFiveQuarters | src/main/java/std/guedes/datastructures/util/collections/list/_ArrayList.java:75-88 | the least integer at least 1.25 times the size |
| Resize.Grown | src/main/java/std/guedes/datastructures/util/collections/list/_ArrayList.java:57-68 | a full array doubles, a zero-length one becomes `DEFAULT_SIZE` (10), and an array with room is kept, so there is always a free slot |
| Resize.Shrunk | src/main/java/std/guedes/datastructures/util/collections/list/_ArrayList.java:75-88 | the array halves exactly when it is above its initial length and has more free slots than the rounded-up 1.25 times the size; the size still fits |
| Modular.WrapIsMod | src/main/java/std/guedes/datastructures/util/collections/Queue/_StaticQueue2.java:159-161 | the ring position is the slot counter modulo the length |
| Modular.WrapDistinct | src/main/java/std/guedes/datastructures/util/collections/Queue/_StaticQueue2.java:164-180 | fewer than length consecutive counters occupy distinct slots |
| ArrayList.NewIsEmpty | src/main/java/std/guedes/datastructures/util/collections/list/_ArrayList.java:33-40 | a negative capacity throws; otherwise the list is empty with that capacity |
| ArrayList.DefaultIsEmpty | src/main/java/std/guedes/datastructures/util/collections/list/_ArrayList.java:42-46 | the default list is empty with capacity 10 |
| ArrayList.Expand | src/main/java/std/guedes/datastructures/util/collections/list/_ArrayList.java:57-68 | resizing keeps the elements and always leaves room for one more |
| ArrayList.Shrink | src/main/java/std/guedes/datastructures/util/collections/list/_ArrayList.java:75-88 | resizing keeps the elements and follows the halving rule |
| ArrayList.Add | src/main/java/std/guedes/datastructures/util/collections/list/_ArrayList.java:96-101 | the element is appended after the existing ones, after growing if full |
| ArrayList.AddAt | src/main/java/std/guedes/datastructures/util/collections/list/_ArrayList.java:104-114 | an index outside 0..size throws; otherwise the element is inserted there |
| ArrayList.Get | src/main/java/std/guedes/datastructures/util/collections/list/_ArrayList.java:139-142 | an index outside 0..size-1 throws; otherwise it returns the element at that index |
| ArrayList.Set | src/main/java/std/guedes/datastructures/util/collections/list/_ArrayList.java:145-149 | an out-of-range index throws; otherwise only that position changes and the old element is returned |
| ArrayList.RemoveAt | src/main/java/std/guedes/datastructures/util/collections/list/_ArrayList.java:127-136 | an out-of-range index throws; otherwise the element there is removed and returned, and the array shrinks per the rule |
| ArrayList.RemoveElement | src/main/java/std/guedes/datastructures/util/collections/list/_ArrayList.java:117-124 | the result is true exactly when the element occurs, and then its first occurrence is removed; otherwise nothing changes |
| ArrayList.Contains | src/main/java/std/guedes/datastructures/util/collections/list/_ArrayList.java:190-192 | true exactly when some position holds the element |
| ArrayList.Clear | src/main/java/std/guedes/datastructures/util/collections/list/_ArrayList.java:195-201 | the list becomes empty at its initial capacity |
| ArrayList.ToArray | src/main/java/std/guedes/datastructures/util/collections/list/_ArrayList.java:204-210 | the copy holds the elements in order |
| ArrayList.GetAfterSet | src/main/java/std/guedes/datastructures/util/collections/list/_ArrayList.java:139-149 | reading after set returns the new element at that index and the old one elsewhere |
| ArrayList.RemoveAtUndoesAddAt | src/main/java/std/guedes/datastructures/util/collections/list/_ArrayList.java:104-136 | removing at the index just inserted at returns the inserted element and the original elements |
| ArrayList.AddAtEndIsAdd | src/main/java/std/guedes/datastructures/util/collections/list/_ArrayList.java:96-114 | inserting at index size is the same as appending |
| StaticStack.Push | src/main/java/std/guedes/datastructures/util/collections/stack/_StaticStack.java:117-120 | push appends the element on top and returns it |
| StaticStack.Pop | src/main/java/std/guedes/datastructures/util/collections/stack/_StaticStack.java:145-150 | the empty stack throws; otherwise the top element is removed and returned |
| StaticStack.Peek | src/main/java/std/guedes/datastructures/util/collections/stack/_StaticStack.java:153-158 | the empty stack throws; otherwise it returns the top element |
| StaticStack.Search | src/main/java/std/guedes/datastructures/util/collections/stack/_StaticStack.java:217-223 | the 1-based distance from the top of the topmost match, or -1 exactly when absent |
| StaticStack.PopUndoesPush | src/main/java/std/guedes/datastructures/util/collections/stack/_StaticStack.java:117-150 | popping after a push returns the pushed element and the original stack contents |
| StaticStack.PushedIsOnTop | src/main/java/std/guedes/datastructures/util/collections/stack/_StaticStack.java:117-223 | after a push, peek returns the element and search finds it at distance 1 |
| StaticQueue.Peek | src/main/java/std/guedes/datastructures/util/collections/Queue/_StaticQueue.java:142-144 | the front element, or null exactly when the queue is empty |
| StaticQueue.Remove | src/main/java/std/guedes/datastructures/util/collections/Queue/_StaticQueue.java:135-139 | the front element is removed and returned; the empty queue returns null and is unchanged |
| StaticQueue.FifoOrder | src/main/java/std/guedes/datastructures/util/collections/Queue/_StaticQueue.java:96-139 | after appending, removal returns the old front, or the new element when the queue was empty |
| StaticQueue2.Window | src/main/java/std/guedes/datastructures/util/collections/Queue/_StaticQueue2.java:164-180 | the occupied slots read in ring order from the first counter |
| StaticQueue2.NewIsEmpty | src/main/java/std/guedes/datastructures/util/collections/Queue/_StaticQueue2.java:37-45 | a negative size throws; otherwise the ring is empty with that many slots |
| StaticQueue2.Expand | src/main/java/std/guedes/datastructures/util/collections/Queue/_StaticQueue2.java:63-77 | a full ring is copied in order into a doubled array, so the queue is unchanged and has room |
| StaticQueue2.Shrink | src/main/java/std/guedes/datastructures/util/collections/Queue/_StaticQueue2.java:84-101 | the ring is halved under the same rule as the array list, keeping the queue |
| StaticQueue2.Add | src/main/java/std/guedes/datastructures/util/collections/Queue/_StaticQueue2.java:109-114 | the element joins the rear |
| StaticQueue2.Peek | src/main/java/std/guedes/datastructures/util/collections/Queue/_StaticQueue2.java:159-161 | the front element, or null exactly when empty |
| StaticQueue2.Remove | src/main/java/std/guedes/datastructures/util/collections/Queue/_StaticQueue2.java:147-156 | the corrected removal returns the front and drops it; the empty queue is unchanged |
| StaticQueue2.RemoveAsWritten | src/main/java/std/guedes/datastructures/util/collections/Queue/_StaticQueue2.java:147-156 | the removal as written throws exactly when the first counter is past the array's end; the counter is advanced before the throw, so the ring left behind has lost its front element without returning it; otherwise the call agrees with the corrected removal |
| StaticQueue2.ShiftDown | src/main/java/std/guedes/datastructures/util/collections/Queue/_StaticQueue2.java:134-136 | moving each later slot one place toward the front closes the gap at the index |
| StaticQueue2.CloseGap | src/main/java/std/guedes/datastructures/util/collections/Queue/_StaticQueue2.java:117-145 | shifting the later elements forward, stepping `last` back and nulling the slot it then names, and shrinking, removes exactly the element at that queue position |
| StaticQueue2.RemoveElement | src/main/java/std/guedes/datastructures/util/collections/Queue/_StaticQueue2.java:117-145 | true exactly when the element is queued, and then its first occurrence is removed; otherwise nothing changes |
| StaticQueue2.Contains | src/main/java/std/guedes/datastructures/util/collections/Queue/_StaticQueue2.java:164-180 | true exactly when the element is queued |
| StaticQueue2.Clear | src/main/java/std/guedes/datastructures/util/collections/Queue/_StaticQueue2.java:183-190 | the queue becomes empty at its initial size |
| StaticQueue2.ToArray | src/main/java/std/guedes/datastructures/util/collections/Queue/_StaticQueue2.java:193-199 | the copy holds the queue from front to rear |
| StaticQueue2.ToString | src/main/java/std/guedes/datastructures/util/collections/Queue/_StaticQueue2.java:202-213 | the corrected text is the reference rendering of the queue |
| StaticQueue2.ToStringAsWritten | src/main/java/std/guedes/datastructures/util/collections/Queue/_StaticQueue2.java:202-213 | the text as written throws exactly when the rear counter has passed the array's end, and otherwise is the reference rendering |
| StaticQueue2.OverrunReached | src/main/java/std/guedes/datastructures/util/collections/Queue/_StaticQueue2.java:109-156 | new(1), add, remove, add reaches a valid ring whose counters have passed the one-slot array |
| StaticQueue2.OverrunDefects | src/main/java/std/guedes/datastructures/util/collections/Queue/_StaticQueue2.java:147-213 | on that ring the removal and the text as written throw, and the failed removal leaves an empty queue with 8 lost; the corrected versions return 8 and `[8]` |
| StaticQueue2.FifoOrder | src/main/java/std/guedes/datastructures/util/collections/Queue/_StaticQueue2.java:109-156 | adding then removing from a non-empty queue returns the old front and leaves the rest followed by the new element |
| Chains.Walk | src/main/java/std/guedes/datastructures/util/collections/list/_SinglyLinkedList.java:235-242 | stepping k nodes from the head reaches the node holding element k |
| Chains.LinkAfter | src/main/java/std/guedes/datastructures/util/collections/list/_SinglyLinkedList.java:54-66 | linking after node k inserts the element at position k+1 |
| Chains.UnlinkAfter | src/main/java/std/guedes/datastructures/util/collections/list/_SinglyLinkedList.java:119-139 | unlinking the node after k removes the element at position k+1 |
| Chains.SetAt | src/main/java/std/guedes/datastructures/util/collections/list/_SinglyLinkedList.java:147-152 | only the element at position k changes |
| Chains.UnlinkFirstMatch | src/main/java/std/guedes/datastructures/util/collections/list/_SinglyLinkedList.java:69-116 | true exactly when the element occurs, and then its first occurrence is unlinked; otherwise unchanged |
| Chains.FirstPosition | src/main/java/std/guedes/datastructures/util/collections/list/_SinglyLinkedList.java:155-174 | the forward scan returns the first matching position or -1 |
| Chains.LastPosition | src/main/java/std/guedes/datastructures/util/collections/list/_SinglyLinkedList.java:177-197 | the forward scan that remembers the latest match returns the last matching position or -1 |
| Chains.ToSeq | src/main/java/std/guedes/datastructures/util/collections/list/_SinglyLinkedList.java:218-226 | the copy holds the elements in order |
| Chains.NodeText | src/main/java/std/guedes/datastructures/util/collections/list/_SinglyLinkedList.java:256-264 | the nodes print as their elements joined by `, ` |
| SinglyLinkedList.NewIsEmpty | src/main/java/std/guedes/datastructures/util/collections/list/_SinglyLinkedList.java:25-28 | a new list is empty |
| SinglyLinkedList.Add | src/main/java/std/guedes/datastructures/util/collections/list/_SinglyLinkedList.java:41-51 | the element is appended |
| SinglyLinkedList.AddAt | src/main/java/std/guedes/datastructures/util/collections/list/_SinglyLinkedList.java:54-66 | an index outside 0..size throws; otherwise the element is inserted there |
| SinglyLinkedList.IndexCheck | src/main/java/std/guedes/datastructures/util/collections/list/_SinglyLinkedList.java:249-253 | passes exactly for indices 0..size-1 |
| SinglyLinkedList.GetNode | src/main/java/std/guedes/datastructures/util/collections/list/_SinglyLinkedList.java:235-242 | the node at a valid index starts the suffix from that index |
| SinglyLinkedList.Get | src/main/java/std/guedes/datastructures/util/collections/list/_SinglyLinkedList.java:142-144 | an out-of-range index throws; otherwise the element at that index |
| SinglyLinkedList.Set | src/main/java/std/guedes/datastructures/util/collections/list/_SinglyLinkedList.java:147-152 | an out-of-range index throws; otherwise only that position changes and the old element is returned |
| SinglyLinkedList.RemoveAt | src/main/java/std/guedes/datastructures/util/collections/list/_SinglyLinkedList.java:119-139 | an out-of-range index throws; otherwise the element there is removed and returned |
| SinglyLinkedList.RemoveElement | src/main/java/std/guedes/datastructures/util/collections/list/_SinglyLinkedList.java:69-116 | true exactly when the element occurs, and then its first occurrence is removed; otherwise unchanged |
| SinglyLinkedList.IndexOf | src/main/java/std/guedes/datastructures/util/collections/list/_SinglyLinkedList.java:155-174 | the first matching index, or -1 |
| SinglyLinkedList.LastIndexOf | src/main/java/std/guedes/datastructures/util/collections/list/_SinglyLinkedList.java:177-197 | the last matching index, or -1 |
| SinglyLinkedList.Contains | src/main/java/std/guedes/datastructures/util/collections/list/_SinglyLinkedList.java:200-202 | true exactly when the element occurs |
| SinglyLinkedList.Clear | src/main/java/std/guedes/datastructures/util/collections/list/_SinglyLinkedList.java:205-215 | the list becomes empty |
| SinglyLinkedList.ToArray | src/main/java/std/guedes/datastructures/util/collections/list/_SinglyLinkedList.java:218-226 | the copy holds the elements in order |
| SinglyLinkedList.ToString | src/main/java/std/guedes/datastructures/util/collections/list/_SinglyLinkedList.java:256-264 | the reference rendering of the elements |
| SinglyLinkedList.RemoveAtUndoesAddAt | src/main/java/std/guedes/datastructures/util/collections/list/_SinglyLinkedList.java:54-139 | removing at the index just inserted at returns the element and restores the list |
| SinglyLinkedList.GetAfterSet | src/main/java/std/guedes/datastructures/util/collections/list/_SinglyLinkedList.java:142-152 | reading after set returns the new element at that index and the old one elsewhere |
| SinglyLinkedList.AddAtEndIsAdd | src/main/java/std/guedes/datastructures/util/collections/list/_SinglyLinkedList.java:41-66 | inserting at index size is the same as appending |
| DynamicStack.NewIsEmpty | src/main/java/std/guedes/datastructures/util/collections/stack/_DynamicStack.java:26-29 | a new stack is empty |
| DynamicStack.Add | src/main/java/std/guedes/datastructures/util/collections/stack/_DynamicStack.java:42-46 | the element goes on top |
| DynamicStack.Push | src/main/java/std/guedes/datastructures/util/collections/stack/_DynamicStack.java:64-67 | the element goes on top and is returned |
| DynamicStack.AddAt | src/main/java/std/guedes/datastructures/util/collections/stack/_DynamicStack.java:49-61 | an index outside 0..size throws; otherwise the element is inserted at that bottom-based index |
| DynamicStack.LinkBelow | src/main/java/std/guedes/datastructures/util/collections/stack/_DynamicStack.java:57-58 | linking after the node counted from the top inserts at the bottom-based index |
| DynamicStack.IndexCheck | src/main/java/std/guedes/datastructures/util/collections/stack/_DynamicStack.java:289-293 | passes exactly for indices 0..size-1 |
| DynamicStack.GetNode | src/main/java/std/guedes/datastructures/util/collections/stack/_DynamicStack.java:275-282 | the node for a bottom-based index holds that element, with everything below it after it |
| DynamicStack.Get | src/main/java/std/guedes/datastructures/util/collections/stack/_DynamicStack.java:159-161 | an out-of-range index throws; otherwise the element at that bottom-based index |
| DynamicStack.Set | src/main/java/std/guedes/datastructures/util/collections/stack/_DynamicStack.java:164-169 | an out-of-range index throws; otherwise only that position changes and the old element is returned |
| DynamicStack.RemoveAt | src/main/java/std/guedes/datastructures/util/collections/stack/_DynamicStack.java:120-140 | an out-of-range index throws; otherwise the element there is removed and returned |
| DynamicStack.Pop | src/main/java/std/guedes/datastructures/util/collections/stack/_DynamicStack.java:143-148 | the empty stack throws; otherwise the top is removed and returned |
| DynamicStack.Peek | src/main/java/std/guedes/datastructures/util/collections/stack/_DynamicStack.java:151-156 | the empty stack throws; otherwise the top element |
| DynamicStack.RemoveElement | src/main/java/std/guedes/datastructures/util/collections/stack/_DynamicStack.java:70-117 | true exactly when the element occurs, and then the topmost occurrence is removed; otherwise unchanged |
| DynamicStack.IndexOf | src/main/java/std/guedes/datastructures/util/collections/stack/_DynamicStack.java:172-192 | the first matching bottom-based index, or -1 |
| DynamicStack.LastIndexOf | src/main/java/std/guedes/datastructures/util/collections/stack/_DynamicStack.java:195-214 | the last matching bottom-based index, or -1 |
| DynamicStack.Contains | src/main/java/std/guedes/datastructures/util/collections/stack/_DynamicStack.java:217-219 | true exactly when the element occurs |
| DynamicStack.Search | src/main/java/std/guedes/datastructures/util/collections/stack/_DynamicStack.java:222-228 | the 1-based distance from the top of the topmost match, or -1 exactly when absent |
| DynamicStack.Clear | src/main/java/std/guedes/datastructures/util/collections/stack/_DynamicStack.java:231-241 | the stack becomes empty |
| DynamicStack.CopyToArray | src/main/java/std/guedes/datastructures/util/collections/stack/_DynamicStack.java:260-266 | the recursive copy fills the array from the bottom up and touches nothing else |
| DynamicStack.ToArray | src/main/java/std/guedes/datastructures/util/collections/stack/_DynamicStack.java:244-248 | the array holds the elements from bottom to top |
| DynamicStack.BelowText | src/main/java/std/guedes/datastructures/util/collections/stack/_DynamicStack.java:303-312 | the recursive append prints the elements from bottom to top, each followed by a separator |
| DynamicStack.ToString | src/main/java/std/guedes/datastructures/util/collections/stack/_DynamicStack.java:315-323 | the reference rendering from bottom to top |
| DynamicStack.PopUndoesPush | src/main/java/std/guedes/datastructures/util/collections/stack/_DynamicStack.java:64-148 | popping after a push returns the pushed element and the original contents |
| DynamicStack.RemoveAtUndoesAddAt | src/main/java/std/guedes/datastructures/util/collections/stack/_DynamicStack.java:49-140 | removing at the index just inserted at returns the element and restores the stack |
| DynamicStack.PushedIsOnTop | src/main/java/std/guedes/datastructures/util/collections/stack/_DynamicStack.java:64-156 | after a push, peek returns the element |
| Links.Snoc | src/main/java/std/guedes/datastructures/util/collections/Queue/_DynamicQueue.java:41-52 | linking a new cell after the last keeps the chain well formed and appends its element |
| Links.Cons | src/main/java/std/guedes/datastructures/util/collections/Queue/_PriorityQueue.java:25-28 | a new head cell pointing at the old head prepends its element |
| Links.LinkIn | src/main/java/std/guedes/datastructures/util/collections/Queue/_PriorityQueue.java:37-40 | a new cell spliced after node k inserts its element at position k+1 |
| Links.Unlink | src/main/java/std/guedes/datastructures/util/collections/Queue/_DynamicQueue.java:88-96 | bypassing the cell after node k removes the element at position k+1 |
| Links.RingUnlink | src/main/java/std/guedes/datastructures/util/collections/Queue/_CircularQueue.java:88-101 | bypassing a cell of the ring removes its element and moves the rear back exactly when the rear was removed |
| Links.LinearUnique | src/main/java/std/guedes/datastructures/util/collections/Queue/_DynamicQueue.java:161-169 | a chain from first to last determines its node order uniquely |
| DoubleLinks.Append | src/main/java/std/guedes/datastructures/util/collections/list/_DoublyLinkedList.java:47-59 | appending a cell linked both ways appends its element |
| DoubleLinks.InsertBefore | src/main/java/std/guedes/datastructures/util/collections/list/_DoublyLinkedList.java:62-81 | a cell linked in before node k inserts its element at position k and keeps both directions consistent |
| DoubleLinks.Unlink | src/main/java/std/guedes/datastructures/util/collections/list/_DoublyLinkedList.java:252-273 | unlinking node k, including the first or last, removes its element and keeps both directions consistent |
| DoubleLinks.Overwrite | src/main/java/std/guedes/datastructures/util/collections/list/_DoublyLinkedList.java:118-123 | overwriting a node's element changes only that position |
| DoublyLinkedList.NewIsEmpty | src/main/java/std/guedes/datastructures/util/collections/list/_DoublyLinkedList.java:30-34 | a new list is empty |
| DoublyLinkedList.Add | src/main/java/std/guedes/datastructures/util/collections/list/_DoublyLinkedList.java:47-59 | the element is appended |
| DoublyLinkedList.IndexCheck | src/main/java/std/guedes/datastructures/util/collections/list/_DoublyLinkedList.java:305-309 | passes exactly for indices 0..size-1 |
| DoublyLinkedList.Forward | src/main/java/std/guedes/datastructures/util/collections/list/_DoublyLinkedList.java:285-290 | walking forward from the head reaches the node at the index |
| DoublyLinkedList.Backward | src/main/java/std/guedes/datastructures/util/collections/list/_DoublyLinkedList.java:291-296 | walking backward from the tail reaches the node at the index |
| DoublyLinkedList.WalksAgree | src/main/java/std/guedes/datastructures/util/collections/list/_DoublyLinkedList.java:282-298 | the forward and backward walks reach the same node |
| DoublyLinkedList.GetNode | src/main/java/std/guedes/datastructures/util/collections/list/_DoublyLinkedList.java:282-298 | an out-of-range index throws; otherwise the node at that index, from whichever end is nearer |
| DoublyLinkedList.AddAt | src/main/java/std/guedes/datastructures/util/collections/list/_DoublyLinkedList.java:62-81 | an index outside 0..size throws; otherwise the element is inserted there |
| DoublyLinkedList.LinkBefore | src/main/java/std/guedes/datastructures/util/collections/list/_DoublyLinkedList.java:70-79 | linking before the node at k inserts at position k |
| DoublyLinkedList.Unlink | src/main/java/std/guedes/datastructures/util/collections/list/_DoublyLinkedList.java:252-273 | unlinking the node at k removes and returns its element |
| DoublyLinkedList.RemoveAt | src/main/java/std/guedes/datastructures/util/collections/list/_DoublyLinkedList.java:107-110 | an out-of-range index throws; otherwise the element there is removed and returned |
| DoublyLinkedList.Get | src/main/java/std/guedes/datastructures/util/collections/list/_DoublyLinkedList.java:113-115 | an out-of-range index throws; otherwise the element at that index |
| DoublyLinkedList.Set | src/main/java/std/guedes/datastructures/util/collections/list/_DoublyLinkedList.java:118-123 | an out-of-range index throws; otherwise only that position changes and the old element is returned |
| DoublyLinkedList.ScanForward | src/main/java/std/guedes/datastructures/util/collections/list/_DoublyLinkedList.java:84-104 | the forward scan from position i finds the first match from i on, or -1 |
| DoublyLinkedList.RemoveElement | src/main/java/std/guedes/datastructures/util/collections/list/_DoublyLinkedList.java:84-104 | true exactly when the element occurs, and then its first occurrence is removed; otherwise unchanged |
| DoublyLinkedList.IndexOf | src/main/java/std/guedes/datastructures/util/collections/list/_DoublyLinkedList.java:126-145 | the first matching index, or -1 |
| DoublyLinkedList.Contains | src/main/java/std/guedes/datastructures/util/collections/list/_DoublyLinkedList.java:170-172 | true exactly when the element occurs |
| DoublyLinkedList.ScanBack | src/main/java/std/guedes/datastructures/util/collections/list/_DoublyLinkedList.java:148-167 | the backward scan down to a lower bound finds the last match at or above it, or -1 |
| DoublyLinkedList.LastIndexOfAsWritten | src/main/java/std/guedes/datastructures/util/collections/list/_DoublyLinkedList.java:148-167 | the scan as written returns the last match only when it is not at index 0 |
| DoublyLinkedList.LastIndexOf | src/main/java/std/guedes/datastructures/util/collections/list/_DoublyLinkedList.java:148-167 | the corrected scan returns the last matching index, or -1 |
| DoublyLinkedList.LastIndexOfMissesOnlyFront | src/main/java/std/guedes/datastructures/util/collections/list/_DoublyLinkedList.java:151-159 | the scan as written differs from the corrected one exactly when the only match is at index 0 |
| DoublyLinkedList.LastIndexOfMissesSingleton | src/main/java/std/guedes/datastructures/util/collections/list/_DoublyLinkedList.java:151-159 | in the list [7], lastIndexOf(7) as written is -1, while the element is at index 0 |
| DoublyLinkedList.Clear | src/main/java/std/guedes/datastructures/util/collections/list/_DoublyLinkedList.java:175-186 | the list becomes empty |
| DoublyLinkedList.ToArray | src/main/java/std/guedes/datastructures/util/collections/list/_DoublyLinkedList.java:189-197 | the copy holds the elements in order |
| DoublyLinkedList.ToString | src/main/java/std/guedes/datastructures/util/collections/list/_DoublyLinkedList.java:312-320 | the reference rendering of the elements |
| DoublyLinkedList.RemoveAtUndoesAddAt | src/main/java/std/guedes/datastructures/util/collections/list/_DoublyLinkedList.java:62-110 | removing at the index just inserted at returns the element and restores the list |
| DoublyLinkedList.GetAfterSet | src/main/java/std/guedes/datastructures/util/collections/list/_DoublyLinkedList.java:113-123 | reading after set returns the new element at that index and the old one elsewhere |
| DynamicQueue.NewIsEmpty | src/main/java/std/guedes/datastructures/util/collections/Queue/_DynamicQueue.java:20-28 | a new queue is empty |
| DynamicQueue.Add | src/main/java/std/guedes/datastructures/util/collections/Queue/_DynamicQueue.java:41-52 | the element joins the rear and becomes the last node |
| DynamicQueue.Peek | src/main/java/std/guedes/datastructures/util/collections/Queue/_DynamicQueue.java:122-124 | the front element, or null exactly when empty |
| DynamicQueue.Remove | src/main/java/std/guedes/datastructures/util/collections/Queue/_DynamicQueue.java:105-119 | the front element is removed and returned; the empty queue is unchanged; the call never needs the last pointer to be right and keeps whichever invariant the queue had |
| DynamicQueue.ScanNext | src/main/java/std/guedes/datastructures/util/collections/Queue/_DynamicQueue.java:86-99 | the scan after position k finds the first later match, or -1 |
| DynamicQueue.MatchPosition | src/main/java/std/guedes/datastructures/util/collections/Queue/_DynamicQueue.java:55-102 | the head test and the scan together find the first match |
| DynamicQueue.Unlinked | src/main/java/std/guedes/datastructures/util/collections/Queue/_DynamicQueue.java:89-92 | bypassing a node removes its position from the chain; the queue is well formed exactly when the last pointer names the new tail, and keeps the weaker chained invariant exactly when the pointer is that tail or null |
| DynamicQueue.RemoveElementAsWritten | src/main/java/std/guedes/datastructures/util/collections/Queue/_DynamicQueue.java:55-102 | the removal as written removes the first match and keeps the chained invariant (the last pointer is the tail or null), also from a state it left behind earlier; from a well-formed queue the result is well formed exactly unless the match is the tail of a queue of two or more |
| DynamicQueue.RemoveElement | src/main/java/std/guedes/datastructures/util/collections/Queue/_DynamicQueue.java:55-102 | the corrected removal: true exactly when the element is queued, and then its first occurrence is removed; otherwise unchanged |
| DynamicQueue.AsWrittenAgrees | src/main/java/std/guedes/datastructures/util/collections/Queue/_DynamicQueue.java:89-91 | the removal as written and the corrected one report the same result and leave the same nodes, links and size, differing in the last pointer alone |
| DynamicQueue.Contains | src/main/java/std/guedes/datastructures/util/collections/Queue/_DynamicQueue.java:127-145 | true exactly when the element is queued |
| DynamicQueue.Clear | src/main/java/std/guedes/datastructures/util/collections/Queue/_DynamicQueue.java:148-158 | the queue becomes empty |
| DynamicQueue.ToArray | src/main/java/std/guedes/datastructures/util/collections/Queue/_DynamicQueue.java:161-169 | the copy holds the queue from front to rear |
| DynamicQueue.ToString | src/main/java/std/guedes/datastructures/util/collections/Queue/_DynamicQueue.java:172-180 | the reference rendering from front to rear |
| DynamicQueue.FifoOrder | src/main/java/std/guedes/datastructures/util/collections/Queue/_DynamicQueue.java:41-119 | after adding, removal returns the old front, or the new element when the queue was empty |
| DynamicQueue.LostReached | src/main/java/std/guedes/datastructures/util/collections/Queue/_DynamicQueue.java:41-102 | add 1, add 2, remove(2), add 3 reaches the broken state |
| DynamicQueue.LostIsBroken | src/main/java/std/guedes/datastructures/util/collections/Queue/_DynamicQueue.java:89-91 | in that state no chain runs from first to last: the size is 2, but 3 is unreachable from the front |
| DynamicQueue.CorrectedKeepsAll | src/main/java/std/guedes/datastructures/util/collections/Queue/_DynamicQueue.java:55-102 | with the corrected removal the same steps leave the queue [1, 3] |
| PriorityQueue.InsertionPoint | src/main/java/std/guedes/datastructures/util/collections/Queue/_PriorityQueue.java:18-44 | the position after every element that the new one is not smaller than, and before the first one it is smaller than |
| PriorityQueue.ScanInsert | src/main/java/std/guedes/datastructures/util/collections/Queue/_PriorityQueue.java:30-36 | the scan stops at the last node before the first strictly greater element |
| PriorityQueue.LinkFront | src/main/java/std/guedes/datastructures/util/collections/Queue/_PriorityQueue.java:25-28 | a new head node prepends the element, on a queue whose last pointer may be null |
| PriorityQueue.LinkBehind | src/main/java/std/guedes/datastructures/util/collections/Queue/_PriorityQueue.java:37-40 | a node linked after the stopping node inserts the element there and moves the last pointer when it becomes the tail |
| PriorityQueue.Add | src/main/java/std/guedes/datastructures/util/collections/Queue/_PriorityQueue.java:18-44 | a null element throws; otherwise the element is inserted at its insertion point; the last pointer is never read, so a queue whose last pointer was nulled stays a correct chain |
| PriorityQueue.InsertedSorted | src/main/java/std/guedes/datastructures/util/collections/Queue/_PriorityQueue.java:18-44 | inserting at the insertion point keeps a sorted sequence sorted |
| PriorityQueue.AddKeepsSorted | src/main/java/std/guedes/datastructures/util/collections/Queue/_PriorityQueue.java:18-44 | add keeps the queue in priority order |
| PriorityQueue.PeekIsLeast | src/main/java/std/guedes/datastructures/util/collections/Queue/_PriorityQueue.java:3-5 | the front of a queue kept in priority order is no greater than any queued element |
| PriorityQueue.RemovalsKeepSorted | src/main/java/std/guedes/datastructures/util/collections/Queue/_DynamicQueue.java:55-119 | removing the front, or any element with the inherited removal as written, keeps the queue in priority order on every state the priority queue can reach; so does the corrected removal |
| PriorityQueue.LossIsHarmless | src/main/java/std/guedes/datastructures/util/collections/Queue/_PriorityQueue.java:18-44 | on a queue holding 1, 2 the inherited removal of 2 leaves the last pointer null, yet adding 3 leaves 1, 3 queued, where the plain queue loses 3 |
| PriorityQueue.OneTwoQueued | src/main/java/std/guedes/datastructures/util/collections/Queue/_PriorityQueue.java:18-44 | adding 1 then 2 to a new priority queue gives a well-formed queue holding 1, 2 |
| PriorityQueue.SmallerGoesFirst | src/main/java/std/guedes/datastructures/util/collections/Queue/_PriorityQueue.java:25-40 | after adding 5 then 3 the queue is [3, 5], and an equal element goes behind its equal |
| CircularQueue.NewIsEmpty | src/main/java/std/guedes/datastructures/util/collections/Queue/_CircularQueue.java:27-31 | a new queue is empty |
| CircularQueue.Add | src/main/java/std/guedes/datastructures/util/collections/Queue/_CircularQueue.java:44-56 | the element joins the rear, and the new rear points back at the front |
| CircularQueue.Remove | src/main/java/std/guedes/datastructures/util/collections/Queue/_CircularQueue.java:108-125 | the front element is removed and returned; the empty queue returns null and is unchanged |
| CircularQueue.PeekAsWritten | src/main/java/std/guedes/datastructures/util/collections/Queue/_CircularQueue.java:128-130 | peek as written throws exactly on the empty queue |
| CircularQueue.Peek | src/main/java/std/guedes/datastructures/util/collections/Queue/_CircularQueue.java:128-130 | the corrected peek returns the front, or null exactly when empty |
| CircularQueue.PeekAsWrittenThrows | src/main/java/std/guedes/datastructures/util/collections/Queue/_CircularQueue.java:108-130 | on the new queue, peek as written throws while remove returns null |
| CircularQueue.PeekPreviewsRemove | src/main/java/std/guedes/datastructures/util/collections/Queue/_CircularQueue.java:108-130 | the corrected peek returns what remove would return, and agrees with peek as written on a non-empty queue |
| CircularQueue.ScanRing | src/main/java/std/guedes/datastructures/util/collections/Queue/_CircularQueue.java:84-101 | the scan from position k round the ring finds the first later match, or -1 on coming back to the front |
| CircularQueue.RingNext | src/main/java/std/guedes/datastructures/util/collections/Queue/_CircularQueue.java:44-56 | each node's successor is the next queued node, and the rear's successor is the front |
| CircularQueue.UnlinkNext | src/main/java/std/guedes/datastructures/util/collections/Queue/_CircularQueue.java:90-97 | bypassing the node after k removes that element, and the rear moves back exactly when it was removed |
| CircularQueue.RemoveElement | src/main/java/std/guedes/datastructures/util/collections/Queue/_CircularQueue.java:59-105 | true exactly when the element is queued, and then its first occurrence is removed; otherwise unchanged |
| CircularQueue.Contains | src/main/java/std/guedes/datastructures/util/collections/Queue/_CircularQueue.java:133-154 | true exactly when the element is queued |
| CircularQueue.Clear | src/main/java/std/guedes/datastructures/util/collections/Queue/_CircularQueue.java:157-167 | the queue becomes empty and every old node's link is cut |
| CircularQueue.ToArray | src/main/java/std/guedes/datastructures/util/collections/Queue/_CircularQueue.java:170-178 | the copy holds the queue from front to rear |
| CircularQueue.ToString | src/main/java/std/guedes/datastructures/util/collections/Queue/_CircularQueue.java:181-194 | the reference rendering from front to rear |
| CircularQueue.FifoOrder | src/main/java/std/guedes/datastructures/util/collections/Queue/_CircularQueue.java:44-125 | after adding, removal returns the old front, or the new element when the queue was empty |
| Hashtable.JavaRem | src/main/java/std/guedes/datastructures/util/collections/hashtable/_Hashtable.java:259-265 | the Java remainder takes the sign of the dividend and is smaller than the divisor in magnitude |
| Hashtable.Slot | src/main/java/std/guedes/datastructures/util/collections/hashtable/_Hashtable.java:259-265 | the bucket index is within the table |
| Hashtable.Hash | src/main/java/std/guedes/datastructures/util/collections/hashtable/_Hashtable.java:259-265 | a zero capacity throws an arithmetic error; otherwise the bucket index |
| Hashtable.HashOf | src/main/java/std/guedes/datastructures/util/collections/hashtable/_Hashtable.java:225-234 | a null key throws; a zero capacity throws; otherwise the key's bucket within the table |
| Hashtable.Find | src/main/java/std/guedes/datastructures/util/collections/hashtable/_Hashtable.java:225-234 | the chain walk finds an entry with the key, or reports that none has it |
| Hashtable.Lookup | src/main/java/std/guedes/datastructures/util/collections/hashtable/_Hashtable.java:57-73 | the key's value anywhere in the table, or none exactly when no entry has the key |
| Hashtable.HomeFind | src/main/java/std/guedes/datastructures/util/collections/hashtable/_Hashtable.java:225-234 | in a well-formed table looking only in the key's home bucket gives the table-wide lookup |
| Hashtable.SameKeySamePlace | src/main/java/std/guedes/datastructures/util/collections/hashtable/_Hashtable.java:76-92 | a well-formed table never holds two entries with the same key |
| Hashtable.NewIsEmpty | src/main/java/std/guedes/datastructures/util/collections/hashtable/_Hashtable.java:31-38 | a negative capacity throws; otherwise an empty table with that many buckets, including zero |
| Hashtable.ZeroCapacityFailsEveryKey | src/main/java/std/guedes/datastructures/util/collections/hashtable/_Hashtable.java:31-38 | the zero-capacity table is accepted, but every put and get on it throws an arithmetic error |
| Hashtable.NewCheckedIsEmpty | src/main/java/std/guedes/datastructures/util/collections/hashtable/_Hashtable.java:31-38 | the corrected constructor rejects capacities below one; otherwise the same empty table |
| Hashtable.CheckedTakesEveryKey | src/main/java/std/guedes/datastructures/util/collections/hashtable/_Hashtable.java:259-265 | on a table from the corrected constructor every key can be put and got |
| Hashtable.DefaultIsEmpty | src/main/java/std/guedes/datastructures/util/collections/hashtable/_Hashtable.java:40-44 | the default table is empty with 10 buckets |
| Hashtable.IsEmpty | src/main/java/std/guedes/datastructures/util/collections/hashtable/_Hashtable.java:52-54 | empty exactly when no key has a value |
| Hashtable.Get | src/main/java/std/guedes/datastructures/util/collections/hashtable/_Hashtable.java:70-73 | a null key throws; otherwise the value mapped to the key, or null |
| Hashtable.ContainsKey | src/main/java/std/guedes/datastructures/util/collections/hashtable/_Hashtable.java:57-59 | a null key throws; otherwise true exactly when some entry has the key |
| Hashtable.Put | src/main/java/std/guedes/datastructures/util/collections/hashtable/_Hashtable.java:76-92 | a null key or value throws; otherwise the key now maps to the value, no other key changes, the size grows only for a new key, and the value is returned |
| Hashtable.Remove | src/main/java/std/guedes/datastructures/util/collections/hashtable/_Hashtable.java:95-117 | a null key throws; otherwise the key's old value is returned and the key is gone, no other key changes, and a miss leaves the table unchanged |
| Hashtable.RemovePair | src/main/java/std/guedes/datastructures/util/collections/hashtable/_Hashtable.java:138-159 | true exactly when the key maps to that value, and then only that key is gone; a null value for a present key throws |
| Hashtable.Replace | src/main/java/std/guedes/datastructures/util/collections/hashtable/_Hashtable.java:175-186 | a null key or value throws; otherwise a present key gets the new value and its old value is returned, and nothing else changes |
| Hashtable.ReplacePair | src/main/java/std/guedes/datastructures/util/collections/hashtable/_Hashtable.java:162-172 | true exactly when the key maps to the old value, and then only that key gets the new value |
| Hashtable.ContainsValue | src/main/java/std/guedes/datastructures/util/collections/hashtable/_Hashtable.java:62-67 | a null value throws; otherwise true exactly when some key maps to the value |
| Hashtable.Clear | src/main/java/std/guedes/datastructures/util/collections/hashtable/_Hashtable.java:120-135 | every key loses its value, the size is 0, and the capacity is kept |
| AdjacencyMatrix.NewIsEmpty | src/main/java/std/guedes/datastructures/util/collections/graph/_AdjacencyMatrix.java:31-38 | a negative size throws; otherwise there are no vertices and no edges |
| AdjacencyMatrix.AddVertex | src/main/java/std/guedes/datastructures/util/collections/graph/_AdjacencyMatrix.java:45-58 | the vertex goes into the next free slot exactly when the graph is not full; edges are untouched |
| AdjacencyMatrix.IndexAfterAddVertex | src/main/java/std/guedes/datastructures/util/collections/graph/_AdjacencyMatrix.java:50-104 | adding a vertex keeps every existing index, and only a new name gets the new slot |
| AdjacencyMatrix.IndexOf | src/main/java/std/guedes/datastructures/util/collections/graph/_AdjacencyMatrix.java:93-104 | a null vertex throws; otherwise the first slot holding it, or -1 |
| AdjacencyMatrix.Contains | src/main/java/std/guedes/datastructures/util/collections/graph/_AdjacencyMatrix.java:106-109 | a null vertex throws; otherwise true exactly when it is a vertex |
| AdjacencyMatrix.AddEdge | src/main/java/std/guedes/datastructures/util/collections/graph/_AdjacencyMatrix.java:60-73 | a null end throws; true exactly when both ends are vertices, and then exactly the edge in both directions is added |
| AdjacencyMatrix.Joined | src/main/java/std/guedes/datastructures/util/collections/graph/_AdjacencyMatrix.java:70-71 | setting both matrix entries adds exactly that undirected edge and keeps the matrix symmetric |
| AdjacencyMatrix.EdgeJoinsNeighbours | src/main/java/std/guedes/datastructures/util/collections/graph/_AdjacencyMatrix.java:60-91 | after adding an edge, each end gains the other as a neighbour and no other vertex's neighbours change |
| AdjacencyMatrix.Degree | src/main/java/std/guedes/datastructures/util/collections/graph/_AdjacencyMatrix.java:76-91 | a null vertex throws; an unknown one throws illegal argument; otherwise the number of its neighbours |
| AdjacencyMatrix.WalkStays | src/main/java/std/guedes/datastructures/util/collections/graph/_AdjacencyMatrix.java:112-139 | a walk that starts in a set closed under edges stays in it |
| AdjacencyMatrix.Unreachable | src/main/java/std/guedes/datastructures/util/collections/graph/_AdjacencyMatrix.java:112-139 | a vertex outside an edge-closed set containing the source is not reachable |
| AdjacencyMatrix.ReachStep | src/main/java/std/guedes/datastructures/util/collections/graph/_AdjacencyMatrix.java:129-134 | a neighbour of a reachable vertex is reachable |
| AdjacencyMatrix.Expand | src/main/java/std/guedes/datastructures/util/collections/graph/_AdjacencyMatrix.java:129-134 | every unvisited neighbour is marked and queued, and everything queued is reachable |
| AdjacencyMatrix.Exhausted | src/main/java/std/guedes/datastructures/util/collections/graph/_AdjacencyMatrix.java:135-137 | when nothing is pending and the destination was never reached, it is unreachable |
| AdjacencyMatrix.DepthSearch | src/main/java/std/guedes/datastructures/util/collections/graph/_AdjacencyMatrix.java:112-139 | a null end throws; otherwise true exactly when both ends are vertices and a walk joins them |
| AdjacencyMatrix.BreadthSearch | src/main/java/std/guedes/datastructures/util/collections/graph/_AdjacencyMatrix.java:142-169 | a null end throws; otherwise true exactly when both ends are vertices and a walk joins them |
| AdjacencyMatrix.Vertices | src/main/java/std/guedes/datastructures/util/collections/graph/_AdjacencyMatrix.java:172-181 | the vertex slots print as the reference rendering, empty slots as `null` |

## Left out

- The interfaces `_Collection`, `_List`, `_Stack`, `_Queue`, `_Map` and `_Graph` declare the
  operations and add no behaviour.
- `size()` and `isEmpty()` of the collections read one field. The model keeps the field, or
  the length of the element sequence, and the contracts speak of it directly.
- The `equals` and `hashCode` of the node and entry classes are never called by the
  collections. The entry's `toString` is reached only through `_Hashtable.toString`,
  which is not modelled (see below). The node's `toString`, which the linked collections'
  `toString` uses, is modelled by `Chains.NodeText` and the `ToString` members of those
  collections.
- The sorts and `binarySearch` of `_Arrays` call `compareTo` on the slots, so a `null` slot
  would throw there. The model gives them non-null elements, ordered by `le`.
- `_Hashtable.toString` and `_AdjacencyMatrix.toString` are diagnostic dumps of the internal
  layout. They are not modelled.
- Storing `null` into vacated slots and node fields only helps the garbage collector. It is not
  modelled, except in `_StaticQueue2`, whose slots are modelled one by one. There
  `remove()` clears the front slot, where the as-written store can throw, and `remove(e)`
  clears the slot vacated at the rear.
- `_DoublyLinkedList.unlinkFirst` and `unlinkLast` are never called. The general `unlink` is
  modelled.
- `_StaticStack` and `_StaticQueue` share the model of `_ArrayList`. Their fields, resizing
  and list operations (add, add at an index, remove, get, set, indexOf, lastIndexOf,
  contains, clear, toArray and toString) are the same code. Only push, pop, peek, search and
  the queue's removal from the front get members of their own.
- `BinarySearchTree.Search`: Java returns the live subtree, through which a caller could
  mutate the tree. The model returns an immutable subtree.
- `Order.TotalOrder`: `compareTo` is required to be a total order (antisymmetric), not
  merely a preorder. With a comparator that calls distinct elements equal, removal of a node
  with two children deletes "an element comparing equal" to the copied successor. The
  exact-multiset statements would then need that weakening.
- `Resize.CeilFiveQuarters`: `Math.ceil(size * 1.25)` is computed exactly in integers,
  because the double product is exact for every `int` size.
- Java `int` overflow of sizes, indices, `size * 2` and `hashCode` is not modelled. Integers
  are unbounded, and a collection of 2^31 elements cannot be allocated.
- `Hashtable.Put`: chains are sequences, with the new entry prepended as in the source. The
  `hashCode` of keys is a parameter `code`.
- `Hashtable.RemovePair`: the source finds the entry by key and value in one scan. The model
  uses the fact that keys are unique within a table, so the outcome is the same.
- `AdjacencyMatrix.DepthSearch` and `AdjacencyMatrix.BreadthSearch`: the stack and queue the
  searches use are sequences, not the library's own `_DynamicStack` and `_DynamicQueue`.
  The contracts state reachability, not the visiting order.
- The sorts of `Arrays` return a new sequence where Java sorts in place. The loop structure
  is kept.
- Recursion limits (`StackOverflowError` on deep trees or long stacks) are not modelled.

## Findings

| source | as written | input that shows it | evidently intended | confidence | as-written member | corrected member |
|---|---|---|---|---|---|---|
| src/main/java/std/guedes/datastructures/util/collections/Queue/_StaticQueue2.java:153 | `remove()` clears `array[first++]` without reducing the counter modulo the length | `new _StaticQueue2(1)`, `add(7)`, `remove()`, `add(8)`, `remove()` | clear slot `first % array.length`, as `peek` reads it | not executed | StaticQueue2.RemoveAsWritten, StaticQueue2.OverrunDefects | StaticQueue2.Remove |
| src/main/java/std/guedes/datastructures/util/collections/Queue/_StaticQueue2.java:209 | `toString` appends `array[last-1]` without reducing modulo the length | the same queue holding 8, then `toString()` | append `array[(last-1) % array.length]`, giving `[8]` | not executed | StaticQueue2.ToStringAsWritten, StaticQueue2.OverrunDefects | StaticQueue2.ToString |
| src/main/java/std/guedes/datastructures/util/collections/list/_DoublyLinkedList.java:151 | both `lastIndexOf` loops stop at `i > 0`, so index 0 is never examined | list `[7]`, `lastIndexOf(7)` returns -1 | loop to `i >= 0` and return 0 | not executed | DoublyLinkedList.LastIndexOfAsWritten, DoublyLinkedList.LastIndexOfMissesSingleton | DoublyLinkedList.LastIndexOf |
| src/main/java/std/guedes/datastructures/util/collections/Queue/_DynamicQueue.java:89-91 | removing the tail node sets `last = null` instead of the new tail | `add(1)`, `add(2)`, `remove(2)`, `add(3)`: the size is 2 but 3 cannot be reached from the front | set `last = current` | not executed | DynamicQueue.RemoveElementAsWritten, DynamicQueue.LostIsBroken | DynamicQueue.RemoveElement, DynamicQueue.CorrectedKeepsAll |
| src/main/java/std/guedes/datastructures/util/collections/Queue/_CircularQueue.java:128-130 | `peek()` dereferences `front` without checking for an empty queue | `new _CircularQueue()`, `peek()` throws `NullPointerException` | return `null` when empty, as `remove()` does | not executed | CircularQueue.PeekAsWritten, CircularQueue.PeekAsWrittenThrows | CircularQueue.Peek |
| src/main/java/std/guedes/datastructures/util/collections/hashtable/_Hashtable.java:31-38 | the constructor accepts capacity 0, and `hash` then computes `hashCode() % 0` | `new _Hashtable(0)`, `put(k, v)` throws `ArithmeticException` | reject capacities below one | not executed | Hashtable.NewIsEmpty, Hashtable.ZeroCapacityFailsEveryKey | Hashtable.NewCheckedIsEmpty, Hashtable.CheckedTakesEveryKey |
