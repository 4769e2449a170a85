# A verified model of the AVL tree of `Tree.h`

The repository's one real component is a generic, self-balancing binary search
tree (`AVL_Tree/AVL_Tree/AVL_Tree/include/Tree.h`). Heap nodes cache their
height. Insertion is recursive and rebalances bottom-up with single and double
rotations. The tree can be walked in-order, pre-order and post-order, searched
for a key, copied node by node, and released in post-order.

The model has three modules:

- `Avl` (`avl.dfy`) is the value model. A subtree is `Nil` (a null pointer) or
  `Node(height, left, data, right)`. The operations that compute a subtree
  or a walk (height bookkeeping, rotations, balancing, insertion, the
  traversals, search and copy) are functions here. These functions serve as
  the specifications of the heap methods. Releasing memory, the constructors
  and assignment have no function here; they are specified in `AvlHeap`. The element type `T` is modelled as `int`, with its own `<` and `==`.
- `AvlProperties` (`avl_properties.dfy`) proves what those operations
  guarantee:
  - insertion keeps the order, the cached heights and the balance;
  - insertion adds exactly one occurrence and places it after every equal
    element;
  - each traversal visits every element once;
  - search finds exactly the stored keys of an ordered tree;
  - the copy is a mirror image;
  - an AVL tree's height is logarithmic in its size.
- `AvlHeap` (`avl_heap.dfy`) is the pointer program itself.
  - A `Node` class has mutable `height`, `left` and `right` fields. Its ghost
    `Repr` holds every node reachable from it (and may hold more; see
    "Left out"), and its ghost `Model` is the subtree's value.
  - A `Tree` class owns `root`.
  - `FixHeight`, the rotations, `Balance` and `Insert` relink and overwrite
    fields in place.
  - The contracts of `FixHeight`, the rotations, `Balance`, `Insert`, the
    traversals, search and `Copy` tie the new heap or the result to the
    `Avl` function of the same name, applied to the value the heap held
    before the call.
  - `Clear` and the destructor are specified by `PostOrderNodes`, the
    sequence of the subtree's nodes in post-order. The copy constructor and
    assignment are specified by `Avl.Copy`.

Callbacks are modelled as the sequence of elements they would receive. The
traversal methods return that sequence. `Search` returns the found flag and the
elements handed to `searchFunc`. `Clear` and the destructor return the nodes
they release, in release order.

Three behaviours of the code deserve a note; the model follows the code:

- **Order of equal elements.** The header says only that insertion "sorts"
  the data with `<`. The usual binary-search-tree reading is that the left
  subtree is strictly smaller than its node. Insertion sends equal elements
  right, but a left rotation can lift one of two equal elements above its
  twin, and that strict order is then lost.
  - `AvlProperties.DuplicatesBreakStrictOrder` shows this: inserting 5 three
    times yields a tree that is not strictly ordered.
  - `Avl.Bst` therefore states the order that the code keeps: nothing on the
    left is greater, and nothing on the right is smaller.
  - `AvlProperties.DistinctOrderedTreeIsStrict` proves that the strict order
    does hold when there are no duplicates.
- **Copying.** The copy is documented as a deep copy. `Copy` links the copy of
  the left subtree as the new right child and vice versa (Tree.h:296-297), so
  the result is the mirror image. Its in-order walk is the reverse of the
  source's walk, and the copy of an ordered tree holding two different
  elements is not ordered.
  - Tree.h:291 calls a constructor `node()` that the struct does not declare.
    Each copied node is modelled as the one-argument constructor leaves it, with
    height 1, and `Copy` never writes a height afterwards.
- **Assignment.** `operator=` is documented (Tree.h:115-124) and implemented
  as building a deep copy of the right-hand side and returning it. The
  receiver keeps its own nodes, which is unusual for an assignment operator
  but is what both the comment and the code say. The returned object is
  modelled as the copy that was built, with no second copy on return.

## Model

| member | source | states |
|---|---|---|
| Avl.FixHeight | AVL_Tree/AVL_Tree/AVL_Tree/include/Tree.h:400-406 | the node keeps its children and element; its height becomes one more than the larger child height, an absent child counting 0 |
| Avl.RotateRight | AVL_Tree/AVL_Tree/AVL_Tree/include/Tree.h:359-370 | on a node with a left child, the result has a right child (the demoted node) and the same in-order sequence |
| Avl.RotateLeft | AVL_Tree/AVL_Tree/AVL_Tree/include/Tree.h:372-383 | on a node with a right child, the result has a left child (the demoted node) and the same in-order sequence |
| Avl.Balance | AVL_Tree/AVL_Tree/AVL_Tree/include/Tree.h:337-357 | rebalancing returns a present node with the same in-order sequence |
| Avl.RepairRightHeavy | AVL_Tree/AVL_Tree/AVL_Tree/include/Tree.h:342-347 | the right-heavy repair (optional right rotation of the right child, then left rotation) keeps the in-order sequence |
| Avl.RepairLeftHeavy | AVL_Tree/AVL_Tree/AVL_Tree/include/Tree.h:349-354 | the left-heavy repair keeps the in-order sequence |
| Avl.Insert | AVL_Tree/AVL_Tree/AVL_Tree/include/Tree.h:319-331 | insertion always returns a present root |
| Avl.Height | AVL_Tree/AVL_Tree/AVL_Tree/include/Tree.h:386-390 | the cached height, 0 for an absent subtree; `AvlProperties.CachedHeightIsDepth` proves it is the longest path when the heights are correct |
| Avl.BalanceFactor | AVL_Tree/AVL_Tree/AVL_Tree/include/Tree.h:393-397 | right height minus left height; `AvlProperties.RightHeavyRepaired` and `LeftHeavyRepaired` prove the repair at +2 and -2 |
| Avl.Build | AVL_Tree/AVL_Tree/AVL_Tree/include/Tree.h:313-317 | the tree left by a sequence of `Insert` calls from an empty tree; `AvlProperties.BuiltTreeIsSortedAvl` proves it is an AVL tree holding exactly the inserted elements with a sorted walk |
| Avl.InOrder | AVL_Tree/AVL_Tree/AVL_Tree/include/Tree.h:417-426 | left walk, element, right walk; `AvlProperties.InOrderVisitsEachOnce` and `InOrderOfBstIsSorted` prove it hands over every element once, sorted when the tree is ordered |
| Avl.PreOrder | AVL_Tree/AVL_Tree/AVL_Tree/include/Tree.h:438-447 | element, left walk, right walk; `AvlProperties.PreOrderVisitsEachOnce` proves every element is handed over once |
| Avl.PostOrder | AVL_Tree/AVL_Tree/AVL_Tree/include/Tree.h:459-468 | left walk, right walk, element; `AvlProperties.PostOrderVisitsEachOnce` proves every element is handed over once |
| Avl.Copy | AVL_Tree/AVL_Tree/AVL_Tree/include/Tree.h:283-300 | the mirror copy with every copied node at height 1 (the reading of the undeclared `node()` at Tree.h:291); `AvlProperties.CopyKeepsContents` proves the same elements, size and depth, and `CopyReversesInOrder` proves the reversed in-order walk |
| Avl.SearchHelper | AVL_Tree/AVL_Tree/AVL_Tree/include/Tree.h:483-505 | a hit reports an element equal to the key that the tree holds |
| AvlProperties.InOrderVisitsEachOnce | AVL_Tree/AVL_Tree/AVL_Tree/include/Tree.h:417-426 | the in-order walk hands over exactly the tree's elements, each once (multiset and length) |
| AvlProperties.PreOrderVisitsEachOnce | AVL_Tree/AVL_Tree/AVL_Tree/include/Tree.h:438-447 | the pre-order walk hands over exactly the tree's elements, each once |
| AvlProperties.PostOrderVisitsEachOnce | AVL_Tree/AVL_Tree/AVL_Tree/include/Tree.h:459-468 | the post-order walk hands over exactly the tree's elements, each once |
| AvlProperties.CachedHeightIsDepth | AVL_Tree/AVL_Tree/AVL_Tree/include/Tree.h:386-390 | when every cached height is correct, the cached height is the length of the longest path |
| AvlProperties.FixHeightRestoresHeights | AVL_Tree/AVL_Tree/AVL_Tree/include/Tree.h:400-406 | over children with correct heights, the node's height becomes correct and equals its depth |
| AvlProperties.BalanceKeepsElems | AVL_Tree/AVL_Tree/AVL_Tree/include/Tree.h:337-357 | rebalancing neither adds nor loses an element |
| AvlProperties.InsertAddsOneOccurrence | AVL_Tree/AVL_Tree/AVL_Tree/include/Tree.h:319-331 | the elements after insertion are the elements before plus one occurrence of the new one; duplicates are kept |
| AvlProperties.RotateRightKeepsBst | AVL_Tree/AVL_Tree/AVL_Tree/include/Tree.h:359-370 | a right rotation of an ordered tree is ordered |
| AvlProperties.RotateLeftKeepsBst | AVL_Tree/AVL_Tree/AVL_Tree/include/Tree.h:372-383 | a left rotation of an ordered tree is ordered |
| AvlProperties.BalanceKeepsBst | AVL_Tree/AVL_Tree/AVL_Tree/include/Tree.h:337-357 | rebalancing an ordered tree keeps it ordered |
| AvlProperties.InsertKeepsBst | AVL_Tree/AVL_Tree/AVL_Tree/include/Tree.h:319-331 | insertion into an ordered tree yields an ordered tree |
| AvlProperties.BalanceRestoresShape | AVL_Tree/AVL_Tree/AVL_Tree/include/Tree.h:337-357 | over balanced children with correct heights and a balance factor in -2..2, the result is balanced with correct heights, and its height grows by at most one |
| AvlProperties.RightHeavyRepaired | AVL_Tree/AVL_Tree/AVL_Tree/include/Tree.h:342-347 | at balance factor +2, the single or double rotation yields a balanced tree with correct heights |
| AvlProperties.LeftHeavyRepaired | AVL_Tree/AVL_Tree/AVL_Tree/include/Tree.h:349-354 | at balance factor -2, the single or double rotation yields a balanced tree with correct heights |
| AvlProperties.InsertKeepsAvl | AVL_Tree/AVL_Tree/AVL_Tree/include/Tree.h:319-331 | insertion into an AVL tree yields an AVL tree whose height grew by at most one |
| AvlProperties.InsertPlacesAfterEqual | AVL_Tree/AVL_Tree/AVL_Tree/include/Tree.h:325-328 | in an ordered tree, the new element's in-order position is after every element not greater than it (ties go right) |
| AvlProperties.InOrderOfBstIsSorted | AVL_Tree/AVL_Tree/AVL_Tree/include/Tree.h:417-426 | the in-order walk of an ordered tree is non-decreasing |
| AvlProperties.BuiltTreeIsSortedAvl | AVL_Tree/AVL_Tree/AVL_Tree/include/Tree.h:313-317 | a tree built by insertions from empty is an AVL tree holding exactly the inserted elements, and its in-order walk is sorted |
| AvlProperties.SearchFindsExactlyTheElements | AVL_Tree/AVL_Tree/AVL_Tree/include/Tree.h:483-505 | in an ordered tree, the search hits exactly when the key is stored |
| AvlProperties.CopyKeepsContents | AVL_Tree/AVL_Tree/AVL_Tree/include/Tree.h:283-300 | the copy holds the same elements, the same number of nodes and the same longest path |
| AvlProperties.CopyReversesInOrder | AVL_Tree/AVL_Tree/AVL_Tree/include/Tree.h:294-297 | the copy's in-order walk is the source's in reverse (mirror image) |
| AvlProperties.CopyPreOrderIsReversedPostOrder | AVL_Tree/AVL_Tree/AVL_Tree/include/Tree.h:294-297 | the copy's pre-order walk is the source's post-order walk reversed |
| AvlProperties.CopyPostOrderIsReversedPreOrder | AVL_Tree/AVL_Tree/AVL_Tree/include/Tree.h:294-297 | the copy's post-order walk is the source's pre-order walk reversed |
| AvlProperties.CopyOfOrderedTreeIsUnordered | AVL_Tree/AVL_Tree/AVL_Tree/include/Tree.h:283-300 | the copy of an ordered tree holding two different elements is not ordered |
| AvlProperties.DistinctOrderedTreeIsStrict | AVL_Tree/AVL_Tree/AVL_Tree/include/Tree.h:325-328 | without duplicates, an ordered tree has everything on the left strictly smaller and nothing on the right smaller |
| AvlProperties.DuplicatesBreakStrictOrder | AVL_Tree/AVL_Tree/AVL_Tree/include/Tree.h:372-383 | inserting 5 twice keeps the strict order, but a third 5 rotates an equal element into a left subtree |
| AvlProperties.AvlHasAtLeastMinSize | AVL_Tree/AVL_Tree/AVL_Tree/include/Tree.h:337-357 | a balanced tree with correct heights of height h has at least the minimal AVL node count for h |
| AvlProperties.MinSizeIsExponential | AVL_Tree/AVL_Tree/AVL_Tree/include/Tree.h:337-357 | the minimal AVL node count for height h is at least 2^(h/2) - 1 |
| AvlProperties.AvlHeightIsLogarithmic | AVL_Tree/AVL_Tree/AVL_Tree/include/Tree.h:337-357 | a balanced tree with correct heights satisfies 2^(height/2) <= size + 1 |
| AvlProperties.ElevenElementsFitInHeightFour | AVL_Tree/AVL_Tree/AVL_Tree/include/Tree.h:337-357 | a balanced tree with correct heights of at most 11 nodes has height at most 4 |
| AvlHeap.Node.constructor | AVL_Tree/AVL_Tree/AVL_Tree/include/Tree.h:143-149 | a fresh leaf holding the element, with no children and height 1 |
| AvlHeap.Height | AVL_Tree/AVL_Tree/AVL_Tree/include/Tree.h:386-390 | the cached height of a node, 0 for null, is the height of its value |
| AvlHeap.BalanceFactor | AVL_Tree/AVL_Tree/AVL_Tree/include/Tree.h:393-397 | right height minus left height, as in the value model |
| AvlHeap.FixHeight | AVL_Tree/AVL_Tree/AVL_Tree/include/Tree.h:400-406 | overwrites only the height field; afterwards the node is well formed and its value is `Avl.FixHeight` of the relinked node |
| AvlHeap.RotateRight | AVL_Tree/AVL_Tree/AVL_Tree/include/Tree.h:359-370 | relinks two nodes in place and returns the new root of the same node set, whose value is `Avl.RotateRight` of the old value |
| AvlHeap.RotateLeft | AVL_Tree/AVL_Tree/AVL_Tree/include/Tree.h:372-383 | relinks two nodes in place and returns the new root of the same node set, whose value is `Avl.RotateLeft` of the old value |
| AvlHeap.Balance | AVL_Tree/AVL_Tree/AVL_Tree/include/Tree.h:337-357 | on a node whose child was just replaced, returns the root of the same node set, whose value is `Avl.Balance` of the relinked node |
| AvlHeap.RepairRightHeavy | AVL_Tree/AVL_Tree/AVL_Tree/include/Tree.h:342-347 | the +2 branch, in place; the result's value is `Avl.RepairRightHeavy` of the old value |
| AvlHeap.RepairLeftHeavy | AVL_Tree/AVL_Tree/AVL_Tree/include/Tree.h:349-354 | the -2 branch, in place; the result's value is `Avl.RepairLeftHeavy` of the old value |
| AvlHeap.InsertAt | AVL_Tree/AVL_Tree/AVL_Tree/include/Tree.h:319-331 | returns a well-formed root whose value is `Avl.Insert` of the old value; no node is lost and only fresh nodes are added, while the value gains exactly one element |
| AvlHeap.InsertLeft | AVL_Tree/AVL_Tree/AVL_Tree/include/Tree.h:325-326 | the `newData < parent->data` branch: relink the left child, then rebalance, with the same result as `Avl.Insert` |
| AvlHeap.InsertRight | AVL_Tree/AVL_Tree/AVL_Tree/include/Tree.h:327-328 | the other branch (equal elements go right), with the same result as `Avl.Insert` |
| AvlHeap.InOrderHelper | AVL_Tree/AVL_Tree/AVL_Tree/include/Tree.h:417-426 | the callback receives the in-order walk of the subtree |
| AvlHeap.PreOrderHelper | AVL_Tree/AVL_Tree/AVL_Tree/include/Tree.h:438-447 | the callback receives the pre-order walk of the subtree |
| AvlHeap.PostOrderHelper | AVL_Tree/AVL_Tree/AVL_Tree/include/Tree.h:459-468 | the callback receives the post-order walk of the subtree |
| AvlHeap.SearchHelper | AVL_Tree/AVL_Tree/AVL_Tree/include/Tree.h:483-505 | returns true exactly when the walk of `Avl.SearchHelper` hits, and hands over the key on a hit and nothing on a miss |
| AvlHeap.Copy | AVL_Tree/AVL_Tree/AVL_Tree/include/Tree.h:283-300 | returns a well-formed subtree made only of fresh nodes, whose value is the mirror copy `Avl.Copy` of the source |
| AvlHeap.Clear | AVL_Tree/AVL_Tree/AVL_Tree/include/Tree.h:261-271 | releases the subtree's nodes in post-order: one node of the subtree per element, none twice, carrying the post-order walk's elements |
| AvlHeap.PostOrderNodesFollowWalk | AVL_Tree/AVL_Tree/AVL_Tree/include/Tree.h:261-271 | the released nodes belong to the subtree, one per element, and carry the post-order walk's elements |
| AvlHeap.PostOrderNodesDistinct | AVL_Tree/AVL_Tree/AVL_Tree/include/Tree.h:261-271 | no node is released twice |
| AvlHeap.Tree.constructor | AVL_Tree/AVL_Tree/AVL_Tree/include/Tree.h:245-249 | a new tree is empty |
| AvlHeap.Tree.CopyOf | AVL_Tree/AVL_Tree/AVL_Tree/include/Tree.h:277-281 | the copy constructor builds a tree of fresh nodes whose value is the mirror copy of the source's |
| AvlHeap.Tree.Destroy | AVL_Tree/AVL_Tree/AVL_Tree/include/Tree.h:255-259 | the destructor releases every node of the tree exactly once, in post-order |
| AvlHeap.Tree.Assign | AVL_Tree/AVL_Tree/AVL_Tree/include/Tree.h:302-307 | returns a fresh tree holding the mirror copy of the right-hand side; the receiver's value is unchanged |
| AvlHeap.Tree.Insert | AVL_Tree/AVL_Tree/AVL_Tree/include/Tree.h:313-317 | the tree's new value is `Avl.Insert` of the old value; an AVL tree stays an AVL tree; in an ordered tree the in-order walk gains the element after every element not greater than it |
| AvlHeap.Tree.InOrder | AVL_Tree/AVL_Tree/AVL_Tree/include/Tree.h:411-415 | the callback receives every element once, in ascending order when the tree is ordered |
| AvlHeap.Tree.PreOrder | AVL_Tree/AVL_Tree/AVL_Tree/include/Tree.h:432-436 | the callback receives every element once, in pre-order |
| AvlHeap.Tree.PostOrder | AVL_Tree/AVL_Tree/AVL_Tree/include/Tree.h:453-457 | the callback receives every element once, in post-order |
| AvlHeap.Tree.Search | AVL_Tree/AVL_Tree/AVL_Tree/include/Tree.h:474-481 | on an ordered tree, reports true exactly when the key is stored, and hands over the key on a hit and nothing on a miss |

## Left out

- The element type `T` is modelled as `int`. A user type's `<` and `==` are not modelled. The demo record `Unit` orders ids in descending order; it is demo code and not part of the tree.
- Neither `main.cpp` is modelled: both do only console output and CSV reading.
- `height` is an `unsigned char` in the source; it is modelled as `nat`. Overflow would need a tree of height 256, which a balanced tree of any storable size never reaches.
- The callbacks `travFunc` and `searchFunc` are modelled as the sequence of elements they receive. Their effects, which are console output in the demos, are left out.
- `delete` has no counterpart. `Clear` and `Tree.Destroy` return the released nodes instead of freeing them. The assignment `parent = NULL` in `Clear` changes only the callee's copy of the pointer, so it has no effect.
- `AvlHeap.Balance`: the two rebalancing branches are the separate methods `RepairRightHeavy` and `RepairLeftHeavy`. Likewise, the two recursive branches of `Insert(T, node*)` are `InsertLeft` and `InsertRight`. The statements and their order are as in the source.
- `AvlHeap.Tree.Assign`: whether returning `newBT` by value copies it a second time depends on the compiler's copy elision. The model takes the built copy as the returned object. A second copy would mirror the tree back.
- `AvlHeap.Node.Valid` allows `Repr` to contain more nodes than are reachable. The contracts therefore state that no node is lost and that only fresh nodes are added, not an exact node set.
- Allocation failure: `new node(...)` (Tree.h:291 and 323) can throw when memory runs out, which the program treats as fatal. Dafny's `new` cannot fail, so the model has no out-of-memory path.
- `AvlProperties.AvlHeightIsLogarithmic`: the bound proved is height <= 2·log2(size + 1) + 1. This is weaker than the classical bound of about 1.44·log2(size + 2).
