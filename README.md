# Data structures of `data-structure-algorithm`, modelled and verified in Dafny

This project models the core of a small Java library of textbook data
structures:

- the AVL tree (insert with rebalancing, the successor-copy delete, the
  min/max walks, and the recursive, stack and queue traversals);
- the red-black tree (bottom-up insert with the five-case fix-up, the
  rotations, the traversals, and the pointer-based delete);
- the 2-3 tree (insertion by leaf split and merge into the parent, and the
  stack-driven in-order walk);
- the growable array and the stack and queue built on it;
- the sparse-array codec for a gomoku board;
- the bracket validator.

Keys are `int` instead of a generic `Comparable`. A Java `null` is `None` of
`Outcomes.Option`. An exception is `Err`/`Failed` with the kind of fault
(`Outcomes.Fault`).

The form of each part follows the source:

- Code that rebuilds a tree and returns the new subtree root is a set of
  datatype functions:
  - AVL insert, balance, rotations and delete;
  - red-black insert, rotation and colour flip;
  - 2-3 add, split and merges.
- Code that changes objects in place is a class with `modifies` clauses:
  - the growable array, stack and queue;
  - the board codec;
  - the red-black delete, over a store of numbered node objects;
  - the tree objects holding their root.
- Loops are methods proved against the recursive definitions:
  - the iterative traversals;
  - the min/max walks;
  - the validator's scan;
  - the codec's loops.

Files:

- `outcomes.dfy`: `Option`, `Result`, `Status` and `Fault`.
- `binary_tree.dfy` (`BinaryTrees`): the node type shared by the AVL and red-black trees, the recursive orders, and sorted insertion into a sequence.
- `tree_walks.dfy` (`TreeWalks`): the stack and queue traversals.
- `avl_tree.dfy` (`AvlTrees`): the AVL tree.
- `rb_tree.dfy` (`RedBlackTrees`): red-black insertion.
- `rb_delete.dfy` (`RedBlackDelete`): red-black deletion.
- `two_three_tree.dfy` (`TwoThreeTrees`): the 2-3 tree.
- `growable_array.dfy` (`GrowableArray`), `stack_array.dfy` (`Stacks`), `queue_array.dfy` (`Queues`): the array and its adapters.
- `chess.dfy` (`SparseBoard`): the board codec.
- `brackets.dfy` (`Brackets`): the validator.

## Model

| member | source | states |
|---|---|---|
| AvlTrees.Height | src/main/java/person/companion/tree/AVLTree.java:90-96 | an absent node has height 0; with exact stored heights the result is the true depth |
| AvlTrees.CalcHeight | src/main/java/person/companion/tree/AVLTree.java:104-110 | 0 for an absent node; over exact children, one more than the larger child height, which is the node's true depth |
| AvlTrees.RightRotation | src/main/java/person/companion/tree/AVLTree.java:255-264 | the in-order key sequence is kept; the old root moves to the right and both moved nodes get exact heights, the lower one recomputed first |
| AvlTrees.LeftRotation | src/main/java/person/companion/tree/AVLTree.java:272-281 | the mirror image: in-order kept, old root moves left, both moved nodes get exact heights |
| AvlTrees.Balance | src/main/java/person/companion/tree/AVLTree.java:214-247 | the rebalanced subtree keeps the in-order sequence and has positive stored heights |
| AvlTrees.BalanceSelf | src/main/java/person/companion/tree/AVLTree.java:214-247 | the node object `balance` was called on keeps its key after the rotations moved it |
| AvlTrees.BalanceKeepsAvl | src/main/java/person/companion/tree/AVLTree.java:214-247 | a node that is already an AVL node with exact heights is returned unchanged |
| AvlTrees.BalanceLeftSingle | src/main/java/person/companion/tree/AVLTree.java:218-225 | bf = 2 with h(LL) >= h(LR): one right rotation yields an AVL subtree, as high as the left child or one more |
| AvlTrees.BalanceLeftDouble | src/main/java/person/companion/tree/AVLTree.java:218-229 | bf = 2 with h(LL) < h(LR): a left rotation of the left child, then a right rotation, yields an AVL subtree as high as the left child |
| AvlTrees.BalanceRightSingle | src/main/java/person/companion/tree/AVLTree.java:231-238 | the mirror case bf = -2 with h(RR) >= h(RL): one left rotation yields an AVL subtree |
| AvlTrees.BalanceRightDouble | src/main/java/person/companion/tree/AVLTree.java:231-242 | bf = -2 with h(RR) < h(RL): right-then-left rotation yields an AVL subtree as high as the right child |
| AvlTrees.BalanceAvl | src/main/java/person/companion/tree/AVLTree.java:214-247 | over two AVL subtrees whose heights differ by at most two, the result is AVL; with a balance factor of at most one only the height is reset; the height grows by at most one |
| AvlTrees.InsertNode | src/main/java/person/companion/tree/AVLTree.java:182-206 | the returned root is a node with positive stored heights |
| AvlTrees.InsertInorder | src/main/java/person/companion/tree/AVLTree.java:182-206 | in-order after insert is the old in-order with the key placed after every key it is not smaller than: ties go right |
| AvlTrees.InsertAvl | src/main/java/person/companion/tree/AVLTree.java:182-247 | insert keeps an AVL tree an AVL tree with exact heights, and grows it by at most one level |
| AvlTrees.InsertKeepsAvlSearchTree | src/main/java/person/companion/tree/AVLTree.java:171-206 | insert on an AVL search tree gives an AVL search tree with the key added to its multiset of keys |
| AvlTrees.Build | src/main/java/person/companion/tree/AVLTree.java:171-173 | the tree after a sequence of inserts from empty has positive stored heights |
| AvlTrees.BuildIsAvlSearchTree | src/main/java/person/companion/tree/AVLTree.java:171-247 | after any sequence of inserts from empty: exact heights, every balance factor within one, ascending in-order, and exactly the inserted keys |
| AvlTrees.InorderOfBuiltIsSorted | src/main/java/person/companion/tree/AVLTree.java:400-419 | the in-order traversal of a built tree is the sorted multiset of the inserted keys |
| AvlTrees.Leftmost | src/main/java/person/companion/tree/AVLTree.java:154-164 | the leftmost node has no left child and holds the first in-order key |
| AvlTrees.Rightmost | src/main/java/person/companion/tree/AVLTree.java:126-137 | the rightmost node has no right child and holds the last in-order key |
| AvlTrees.ExtremesAreMinMax | src/main/java/person/companion/tree/AVLTree.java:126-164 | in a search tree the leftmost key is the minimum and the rightmost the maximum of the keys |
| AvlTrees.MinNodeUnder | src/main/java/person/companion/tree/AVLTree.java:154-164 | the loop returns null on an empty tree, otherwise the leftmost node |
| AvlTrees.MaxNodeUnder | src/main/java/person/companion/tree/AVLTree.java:126-137 | the loop returns null on an empty tree, otherwise the rightmost node |
| AvlTrees.DeleteNode | src/main/java/person/companion/tree/AVLTree.java:300-367 | delete as written keeps stored heights positive in the subtree it returns and in the node it was called on, which is absent exactly when the tree was empty |
| AvlTrees.DeleteAbsent | src/main/java/person/companion/tree/AVLTree.java:300-332 | deleting a key the AVL tree does not hold leaves it unchanged |
| AvlTrees.DeleteMatched | src/main/java/person/companion/tree/AVLTree.java:309-363 | a matched leaf is removed, a node with one child is replaced by that child, a node with two children takes the key of its right subtree's leftmost node |
| AvlTrees.DeleteKeepsSuccessorLeaf | src/main/java/person/companion/tree/AVLTree.java:358-363 | when the right child is a leaf, the successor's key ends up in the tree twice, because the subtree returned by the inner delete is dropped |
| AvlTrees.DeleteDuplicatesKey | src/main/java/person/companion/tree/AVLTree.java:358-363 | a three-key AVL search tree whose root is deleted keeps the successor twice and loses no other key |
| AvlTrees.DeleteFixed | src/main/java/person/companion/tree/AVLTree.java:300-367 | the corrected delete returns a tree with positive heights |
| AvlTrees.DeleteFixedSearch | src/main/java/person/companion/tree/AVLTree.java:300-367 | the corrected delete keeps a search tree ordered and removes exactly one copy of the key |
| AvlTrees.DeleteFixedAvl | src/main/java/person/companion/tree/AVLTree.java:300-367 | the corrected delete keeps an AVL tree an AVL tree, at most one level lower |
| AvlTrees.PreorderTraversal | src/main/java/person/companion/tree/AVLTree.java:374-393 | null for an empty tree, otherwise the node-left-right order holding every key once |
| AvlTrees.InorderTraversal | src/main/java/person/companion/tree/AVLTree.java:400-419 | null for an empty tree, otherwise the left-node-right order holding every key once |
| AvlTrees.PostorderTraversal | src/main/java/person/companion/tree/AVLTree.java:426-445 | null for an empty tree, otherwise the left-right-node order holding every key once |
| AvlTrees.AVLTree.constructor | src/main/java/person/companion/tree/AVLTree.java:56 | a new tree is empty |
| AvlTrees.AVLTree.Insert | src/main/java/person/companion/tree/AVLTree.java:171-173 | accepts any tree with positive heights, including one a delete left; the root becomes the root insert returns, with one more copy of the key; an AVL search tree stays one |
| AvlTrees.InsertKeys | src/main/java/person/companion/tree/AVLTree.java:182-206 | insert adds exactly one copy of the key to any tree with positive heights, ordered or not |
| AvlTrees.AVLTree.Delete | src/main/java/person/companion/tree/AVLTree.java:288-291 | the root becomes the root delete returns; deleting an absent key from an AVL tree changes nothing |
| AvlTrees.AVLTree.MinNode | src/main/java/person/companion/tree/AVLTree.java:144-146 | null for an empty tree, otherwise the leftmost node |
| AvlTrees.AVLTree.MaxNode | src/main/java/person/companion/tree/AVLTree.java:117-119 | null for an empty tree, otherwise the rightmost node |
| BinaryTrees.OrdersHaveSameKeys | src/main/java/person/companion/tree/AVLTree.java:383-445 | pre-order and post-order visit the same keys as the tree holds |
| BinaryTrees.PreorderInto | src/main/java/person/companion/tree/AVLTree.java:383-393 | the recursive pre-order appends the subtree's pre-order to the list it is given |
| BinaryTrees.InorderInto | src/main/java/person/companion/tree/AVLTree.java:409-419 | the recursive in-order appends the subtree's in-order to the list it is given |
| BinaryTrees.PostorderInto | src/main/java/person/companion/tree/AVLTree.java:435-445 | the recursive post-order appends the subtree's post-order to the list it is given |
| BinaryTrees.InsertRightSorted | src/main/java/person/companion/tree/AVLTree.java:182-206 | inserting after all keys not larger than `e` keeps a sorted sequence sorted; it adds exactly `e` |
| BinaryTrees.InsertLeftSorted | src/main/java/person/companion/tree/RBTree.java:104-121 | inserting before the first key at least `e` keeps a sorted sequence sorted; it adds exactly `e` |
| TreeWalks.StackInorder | src/main/java/person/companion/tree/AVLTree.java:462-487 | the stack walk with null sentinels returns exactly the recursive in-order, and an empty list on an empty tree |
| TreeWalks.StackPreorder | src/main/java/person/companion/tree/AVLTree.java:504-528 | the stack walk returns exactly the recursive pre-order |
| TreeWalks.StackPostorder | src/main/java/person/companion/tree/AVLTree.java:547-578 | the variant that remembers the last emitted node returns exactly the recursive post-order |
| TreeWalks.PushLeftSpine | src/main/java/person/companion/tree/AVLTree.java:553-557 | the inner loop pushes left children down to a null and leaves what remains to emit unchanged |
| TreeWalks.PostSettle | src/main/java/person/companion/tree/AVLTree.java:558-575 | one round after the spine is pushed keeps the stack's shape and the keys still to emit; it either emits one key or moves on to a right subtree, lowering the work left |
| TreeWalks.StackPostorderTwoStacks | src/main/java/person/companion/tree/AVLTree.java:588-620 | the two-stack variant returns exactly the recursive post-order |
| TreeWalks.SaveMirrored | src/main/java/person/companion/tree/AVLTree.java:596-614 | the first loop saves the nodes in node-right-left order |
| TreeWalks.PopKeys | src/main/java/person/companion/tree/AVLTree.java:615-618 | the last loop emits the saved keys in reverse |
| TreeWalks.ReversedMirrorIsPostorder | src/main/java/person/companion/tree/AVLTree.java:588-620 | read backwards, the node-right-left order is the post-order |
| TreeWalks.LevelOrderOfTree | src/main/java/person/companion/tree/AVLTree.java:637-655 | level order starts at the root and visits every key of the tree once |
| TreeWalks.LevelOrderKeys | src/main/java/person/companion/tree/AVLTree.java:640-652 | the queue walk emits exactly the keys of the subtrees waiting in the queue |
| TreeWalks.QueueTraversal | src/main/java/person/companion/tree/AVLTree.java:627-655 | on an empty tree the walk dereferences null; otherwise it returns the FIFO level order |
| RedBlackTrees.IsRed | src/main/java/person/companion/tree/RBTree.java:158-160 | a null node is not red |
| RedBlackTrees.ColorFlip | src/main/java/person/companion/tree/RBTree.java:207-213 | the node turns red and both children black; keys and grandchildren are unchanged |
| RedBlackTrees.LeftRotation | src/main/java/person/companion/tree/RBTree.java:221-236 | in-order kept; the rising node takes the old root's colour and the old root the rising node's; the moved subtrees land as the source relinks them |
| RedBlackTrees.RightRotation | src/main/java/person/companion/tree/RBTree.java:244-261 | the mirror image of the left rotation |
| RedBlackTrees.Rotation | src/main/java/person/companion/tree/RBTree.java:169-199 | the fix-up keeps the in-order sequence |
| RedBlackTrees.RotationAfterLeft | src/main/java/person/companion/tree/RBTree.java:169-199 | after an add in the left subtree the five cases restore black balance at the same black height; a red node is left untouched |
| RedBlackTrees.RotationAfterRight | src/main/java/person/companion/tree/RBTree.java:169-199 | the mirror image, for an add in the right subtree |
| RedBlackTrees.AddNode | src/main/java/person/companion/tree/RBTree.java:104-125 | the recursive add returns a node |
| RedBlackTrees.AddNodeInvariant | src/main/java/person/companion/tree/RBTree.java:104-125 | add keeps the black height and black balance; under a black node no red node has a red child |
| RedBlackTrees.AddNodeInorder | src/main/java/person/companion/tree/RBTree.java:104-121 | in-order after add is the old in-order with the key before the first larger-or-equal key: ties go left |
| RedBlackTrees.AddKey | src/main/java/person/companion/tree/RBTree.java:89-92 | after add the root is black |
| RedBlackTrees.AddKeepsRedBlack | src/main/java/person/companion/tree/RBTree.java:89-125 | add keeps a red-black search tree one, with one more key |
| RedBlackTrees.Build | src/main/java/person/companion/tree/RBTree.java:89-92 | after a non-empty sequence of adds the root is a black node |
| RedBlackTrees.BuildIsRedBlackSearchTree | src/main/java/person/companion/tree/RBTree.java:89-199 | after any sequence of adds from empty: no red-red edge, equal black counts on every path, ascending in-order, exactly the added keys |
| RedBlackTrees.InorderTraversal | src/main/java/person/companion/tree/RBTree.java:268-289 | the recursive in-order, empty for an empty tree |
| RedBlackTrees.StackInorderTraversal | src/main/java/person/companion/tree/RBTree.java:296-331 | the stack walk returns the same list as the recursive in-order, empty for an empty tree |
| RedBlackTrees.RBTree.constructor | src/main/java/person/companion/tree/RBTree.java:51 | a new tree is empty |
| RedBlackTrees.RBTree.Add | src/main/java/person/companion/tree/RBTree.java:89-92 | the root is replaced by the black root add returns; one more key; still a red-black search tree |
| RedBlackDelete.LeftRotate | src/main/java/person/companion/tree/RBTree.java:221-236 | the rotation keeps the store well formed and changes no key and not the root field |
| RedBlackDelete.RightRotate | src/main/java/person/companion/tree/RBTree.java:244-261 | the mirror image |
| RedBlackDelete.LeftRotateLinks | src/main/java/person/companion/tree/RBTree.java:221-236 | parent links: the moved grandchild's parent is the old root, the risen node's parent is the old root's former parent, the old root's parent is the risen node; colours swapped |
| RedBlackDelete.RightRotateLinks | src/main/java/person/companion/tree/RBTree.java:244-261 | the mirror image of the link facts |
| RedBlackDelete.Relate | src/main/java/person/companion/tree/RBTree.java:496-510 | re-attaching the risen node keeps the store well formed and leaves keys and root alone |
| RedBlackDelete.RelateLinks | src/main/java/person/companion/tree/RBTree.java:496-510 | without a parent nothing changes; otherwise the grandparent's slot that held one of the risen node's children now holds it |
| RedBlackDelete.LeftmostFrom | src/main/java/person/companion/tree/RBTree.java:396-402 | the node reached by left links has no left child |
| RedBlackDelete.DeleteBalanceAt | src/main/java/person/companion/tree/RBTree.java:409-488 | deleteBalance keeps keys and root; it returns at once when the node is the root or red |
| RedBlackDelete.Again | src/main/java/person/companion/tree/RBTree.java:450-455 | the recursive call of deleteBalance; with no stack left it overflows |
| RedBlackDelete.LeftFix | src/main/java/person/companion/tree/RBTree.java:418-456 | the cases for a left child keep the store well formed with the same root |
| RedBlackDelete.RightFix | src/main/java/person/companion/tree/RBTree.java:457-487 | the cases for a right child keep the store well formed with the same root |
| RedBlackDelete.BlackSiblingOnRight | src/main/java/person/companion/tree/RBTree.java:450-455 | a black left child with a black sibling whose children are black: the sibling turns red and the walk continues at the parent |
| RedBlackDelete.BlackSiblingOnLeft | src/main/java/person/companion/tree/RBTree.java:482-486 | the mirror case for a right child |
| RedBlackDelete.Replacement | src/main/java/person/companion/tree/RBTree.java:362-376 | the replacement is the leftmost node of the right subtree, else the left child, else the node itself |
| RedBlackDelete.DeleteAt | src/main/java/person/companion/tree/RBTree.java:350-388 | delete keeps the store well formed with the same root and number of nodes |
| RedBlackDelete.DeleteMatched | src/main/java/person/companion/tree/RBTree.java:358-387 | the matched node takes the replacement's key, and nothing else changes key |
| RedBlackDelete.Unlink | src/main/java/person/companion/tree/RBTree.java:382-386 | the replacement's parent drops its link to it; without a parent the call throws |
| RedBlackDelete.DeleteAbsentKey | src/main/java/person/companion/tree/RBTree.java:350-357 | deleting a key that no node of the subtree below the start node holds changes nothing, whatever nodes detached by an earlier delete still hold |
| RedBlackDelete.DeleteRedLeftLeaf | src/main/java/person/companion/tree/RBTree.java:350-388 | deleting a red leaf that is a left child only clears its parent's left link |
| RedBlackDelete.DeleteLoneRoot | src/main/java/person/companion/tree/RBTree.java:350-386 | deleting the only node of a one-node tree throws a null dereference and changes nothing |
| RedBlackDelete.LeftRotateAtRootKeepsStaleRoot | src/main/java/person/companion/tree/RBTree.java:498-500 | a rotation at the root leaves the root field naming a node that now has a parent |
| RedBlackDelete.RelateCorrected | src/main/java/person/companion/tree/RBTree.java:496-510 | the corrected step makes a parentless risen node the root and otherwise acts as written |
| RedBlackDelete.LeftRotateAtRootCorrected | src/main/java/person/companion/tree/RBTree.java:496-510 | with the corrected step a rotation at the root leaves the risen node as a parentless root above the old root |
| RedBlackDelete.LinkedRBTree.Snapshot | src/main/java/person/companion/tree/RBTree.java:54-82 | the value of all node fields and the root at one moment |
| RedBlackDelete.LinkedRBTree.LeftRotation | src/main/java/person/companion/tree/RBTree.java:221-236 | the in-place rotation leaves exactly the fields `LeftRotate` describes and returns the risen node |
| RedBlackDelete.LinkedRBTree.RightRotation | src/main/java/person/companion/tree/RBTree.java:244-261 | the in-place rotation leaves exactly the fields `RightRotate` describes |
| RedBlackDelete.LinkedRBTree.RelateRotationNode | src/main/java/person/companion/tree/RBTree.java:496-510 | the in-place step leaves exactly the fields `Relate` describes |
| RedBlackDelete.LinkedRBTree.MinNode | src/main/java/person/companion/tree/RBTree.java:396-402 | the loop returns the node reached by left links |
| RedBlackDelete.LinkedRBTree.DeleteBalance | src/main/java/person/companion/tree/RBTree.java:409-488 | the in-place walk leaves exactly the fields and status `DeleteBalanceAt` describes |
| RedBlackDelete.LinkedRBTree.Retry | src/main/java/person/companion/tree/RBTree.java:450-455 | the in-place recursive call leaves exactly what `Again` describes |
| RedBlackDelete.LinkedRBTree.BalanceLeftChild | src/main/java/person/companion/tree/RBTree.java:418-456 | the in-place left-child cases leave exactly what `LeftFix` describes |
| RedBlackDelete.LinkedRBTree.BalanceRightChild | src/main/java/person/companion/tree/RBTree.java:457-487 | the in-place right-child cases leave exactly what `RightFix` describes |
| RedBlackDelete.LinkedRBTree.DeleteFrom | src/main/java/person/companion/tree/RBTree.java:350-388 | the in-place delete leaves exactly the fields and status `DeleteAt` describes |
| RedBlackDelete.LinkedRBTree.DeleteHere | src/main/java/person/companion/tree/RBTree.java:358-387 | the in-place handling of a matched node leaves exactly what `DeleteMatched` describes |
| RedBlackDelete.LinkedRBTree.UnlinkNode | src/main/java/person/companion/tree/RBTree.java:382-386 | the in-place detach leaves exactly what `Unlink` describes |
| RedBlackDelete.LinkedRBTree.Delete | src/main/java/person/companion/tree/RBTree.java:338-340 | delete from the root, as `DeleteAt` describes |
| TwoThreeTrees.NewNode | src/main/java/person/companion/tree/TwoThreeTree.java:74-77 | a new node holds exactly the one key, with size 1, no children and neither flag set |
| TwoThreeTrees.Get | src/main/java/person/companion/tree/TwoThreeTree.java:107-109 | the key at `index` exactly when the node holds more than `index` keys, otherwise null |
| TwoThreeTrees.GetMin | src/main/java/person/companion/tree/TwoThreeTree.java:117-119 | present iff the node holds a key; on sorted keys it is the smallest |
| TwoThreeTrees.GetMid | src/main/java/person/companion/tree/TwoThreeTree.java:127-129 | present iff the node holds two keys, and then it is the second |
| TwoThreeTrees.GetMax | src/main/java/person/companion/tree/TwoThreeTree.java:131-133 | one of the node's keys; on sorted keys it is the largest |
| TwoThreeTrees.Split | src/main/java/person/companion/tree/TwoThreeTree.java:311-347 | below 3 keys the node is returned unchanged; with 3 it keeps the middle key, gets a min child with the smallest and a max child with the largest, and is flagged for merging |
| TwoThreeTrees.TwoNodeMerge | src/main/java/person/companion/tree/TwoThreeTree.java:282-304 | a 1-key parent absorbs the child's key in sorted position; from the min side it takes the child's subtrees as min/mid, from the max side as mid/max |
| TwoThreeTrees.ThreeNodeMerge | src/main/java/person/companion/tree/TwoThreeTree.java:222-271 | a new 1-key parent flagged for merging holds the middle of the three keys; its two fresh 1-key children share the four subtrees by the child's position |
| TwoThreeTrees.Merge | src/main/java/person/companion/tree/TwoThreeTree.java:200-212 | a no-op unless the child is flagged for merging |
| TwoThreeTrees.TwoMergeWellFormed | src/main/java/person/companion/tree/TwoThreeTree.java:282-304 | a 1-key parent absorbing a split child becomes a well-formed 2-key node |
| TwoThreeTrees.ThreeMergeWellFormed | src/main/java/person/companion/tree/TwoThreeTree.java:222-271 | a 2-key parent absorbing a split child becomes a well-formed 1-key node over two well-formed 1-key nodes |
| TwoThreeTrees.AddNode | src/main/java/person/companion/tree/TwoThreeTree.java:151-190 | add returns a node whose size is its number of keys |
| TwoThreeTrees.MergeWellFormed | src/main/java/person/companion/tree/TwoThreeTree.java:200-304 | merging a grown child keeps every node at 1 or 2 ascending keys with children matching its size |
| TwoThreeTrees.LeafAddWellFormed | src/main/java/person/companion/tree/TwoThreeTree.java:181-187 | adding to a leaf and splitting a full one keeps the node shape |
| TwoThreeTrees.AddWellFormed | src/main/java/person/companion/tree/TwoThreeTree.java:151-190 | add keeps every node at 1 or 2 ascending keys, a 1-key internal node with min and max children, a 2-key one with all three |
| TwoThreeTrees.MergeBalanced | src/main/java/person/companion/tree/TwoThreeTree.java:200-304 | merging a child that grew one level keeps all leaves at one depth; the parent grows only when it held two keys |
| TwoThreeTrees.AddBalanced | src/main/java/person/companion/tree/TwoThreeTree.java:151-190 | add keeps all leaves at one depth, and the tree grows only at the root by a flagged 1-key node |
| TwoThreeTrees.AddChildBalanced | src/main/java/person/companion/tree/TwoThreeTree.java:159-175 | adding into a child and merging it back keeps all leaves at one depth |
| TwoThreeTrees.AddTwoThree | src/main/java/person/companion/tree/TwoThreeTree.java:151-190 | add keeps a 2-3 tree a 2-3 tree |
| TwoThreeTrees.MergeInorder | src/main/java/person/companion/tree/TwoThreeTree.java:200-304 | merging keeps the in-order key sequence |
| TwoThreeTrees.LeafAddInorder | src/main/java/person/companion/tree/TwoThreeTree.java:181-187 | at a leaf the key goes into sorted position, split or not |
| TwoThreeTrees.DescentBounds | src/main/java/person/companion/tree/TwoThreeTree.java:159-175 | the descent rule sends `e` to a child whose keys lie between the keys around it |
| TwoThreeTrees.DescentCovers | src/main/java/person/companion/tree/TwoThreeTree.java:159-175 | a key that goes neither to the min nor to the mid child is at least the node's largest key |
| TwoThreeTrees.AddChildInorder | src/main/java/person/companion/tree/TwoThreeTree.java:159-175 | adding into the chosen child and merging it back puts `e` in sorted position in the parent's in-order, or leaves the parent unchanged as written |
| TwoThreeTrees.AddInorder | src/main/java/person/companion/tree/TwoThreeTree.java:151-190 | the in-order after add is the old one with `e` in sorted position, or, as written, the tree is unchanged |
| TwoThreeTrees.AddOrdered | src/main/java/person/companion/tree/TwoThreeTree.java:151-190 | add keeps the keys in ascending order |
| TwoThreeTrees.AddStoresKey | src/main/java/person/companion/tree/TwoThreeTree.java:151-190 | with the corrected comparison add stores exactly one more `e` |
| TwoThreeTrees.AddStoresOrDrops | src/main/java/person/companion/tree/TwoThreeTree.java:151-190 | as written add stores `e` once more or leaves the tree as it was |
| TwoThreeTrees.AddDropsLargerKey | src/main/java/person/companion/tree/TwoThreeTree.java:159-175 | a key equal to an internal 2-key node's larger key is dropped |
| TwoThreeTrees.InorderAsWrittenKeys | src/main/java/person/companion/tree/TwoThreeTree.java:417-443 | the recursive walk as written emits the same keys as the in-order |
| TwoThreeTrees.RecursiveInorderMisorders | src/main/java/person/companion/tree/TwoThreeTree.java:438-440 | on the ordered 2-3 tree with root b, d over leaves a, c, e, all keys different, the recursive walk emits d before c |
| TwoThreeTrees.StackWalk | src/main/java/person/companion/tree/TwoThreeTree.java:367-410 | the stack walk emits the min subtree, the first key, the mid subtree, the last key and the max subtree: exactly the in-order |
| TwoThreeTrees.TwoThreeTree.constructor | src/main/java/person/companion/tree/TwoThreeTree.java:44 | a new tree is empty |
| TwoThreeTrees.TwoThreeTree.Add | src/main/java/person/companion/tree/TwoThreeTree.java:140-142 | the root becomes the root add returns; it stays an ordered 2-3 tree holding `e` in sorted position or unchanged |
| TwoThreeTrees.TwoThreeTree.StackInorderTraversal | src/main/java/person/companion/tree/TwoThreeTree.java:356-358 | on a tree not yet traversed, returns the in-order of the tree, which is ascending; the root is unchanged and the tree is marked traversed |
| GrowableArray.Resized | src/main/java/person/companion/array/Array.java:92-101 | a buffer of the new capacity holding the first `size` cells, the rest null |
| GrowableArray.Grown | src/main/java/person/companion/array/Array.java:57-60 | a full buffer doubles; the elements stay in place |
| GrowableArray.RemovedAt | src/main/java/person/companion/array/Array.java:110-114 | the elements after `index` move left by one and the vacated cell is null |
| GrowableArray.AddAtEndAppends | src/main/java/person/companion/array/Array.java:67-72 | adding at `size` keeps the old elements and puts `e` last |
| GrowableArray.AddBeforeEndLosesElement | src/main/java/person/companion/array/Array.java:67-69 | adding before the end overwrites the tail with copies of the cell at `index` |
| GrowableArray.AddShiftedInserts | src/main/java/person/companion/array/Array.java:55-73 | the corrected shift keeps the old elements in order with `e` at `index` |
| GrowableArray.Array.Elements | src/main/java/person/companion/array/Array.java:166-168 | the stored elements are the first `size` cells |
| GrowableArray.Array.constructor | src/main/java/person/companion/array/Array.java:25-28 | an empty array of the given capacity |
| GrowableArray.Array.Resize | src/main/java/person/companion/array/Array.java:92-101 | a fresh buffer of the new capacity with the first `size` cells copied |
| GrowableArray.Array.Add | src/main/java/person/companion/array/Array.java:55-73 | a full buffer doubles first; an index outside the capacity throws; otherwise the cells are copied forward and `e` stored, with one more element |
| GrowableArray.Array.CopyAndStore | src/main/java/person/companion/array/Array.java:67-72 | the forward copy writes the old cell at `index` into every cell after it up to the old size, then `e` goes to `index`; every other cell keeps its value |
| GrowableArray.Array.AddLast | src/main/java/person/companion/array/Array.java:76-78 | appends `e`, keeping the earlier elements; throws only at capacity 0 |
| GrowableArray.Array.Replace | src/main/java/person/companion/array/Array.java:81-87 | throws past the last element, otherwise changes only that cell |
| GrowableArray.Array.CloseGap | src/main/java/person/companion/array/Array.java:110-114 | shifts the tail left and nulls the vacated cell |
| GrowableArray.Array.Delete | src/main/java/person/companion/array/Array.java:104-122 | throws past the last element; otherwise returns the old cell, removes it keeping the order, and halves the capacity when `size < capacity/3` |
| GrowableArray.Array.Get | src/main/java/person/companion/array/Array.java:125-129 | the raw cell within the capacity, the element within the size |
| GrowableArray.Array.IndexOf | src/main/java/person/companion/array/Array.java:131-139 | the first position holding `e`, or -1; a null cell reached first throws |
| GrowableArray.Array.Contains | src/main/java/person/companion/array/Array.java:141-143 | true iff `e` is among the elements, when no null cell throws first |
| GrowableArray.Array.DeleteLast | src/main/java/person/companion/array/Array.java:162-164 | removes and returns the last element; on an empty array the index -1 throws |
| GrowableArray.Array.Size | src/main/java/person/companion/array/Array.java:166-168 | the number of elements |
| GrowableArray.Array.GetLast | src/main/java/person/companion/array/Array.java:170-172 | the last element; on an empty array the index -1 throws |
| Stacks.StackArray.constructor | src/main/java/person/companion/stack/StackArray.java:14-16 | an empty stack over an array of capacity 10 |
| Stacks.StackArray.WithCapacity | src/main/java/person/companion/stack/StackArray.java:18-20 | an empty stack of the given capacity |
| Stacks.StackArray.Push | src/main/java/person/companion/stack/StackArray.java:28-30 | `e` goes on top of the old contents |
| Stacks.StackArray.Pop | src/main/java/person/companion/stack/StackArray.java:38-40 | returns the top and restores the contents before it was pushed; an empty stack throws |
| Stacks.StackArray.Peek | src/main/java/person/companion/stack/StackArray.java:48-50 | the top, without change; an empty stack throws |
| Stacks.StackArray.Size | src/main/java/person/companion/stack/StackArray.java:58-60 | the number of elements |
| Stacks.StackArray.IsEmpty | src/main/java/person/companion/stack/StackArray.java:68-70 | true iff the size is 0 |
| Stacks.StackArray.IsNotEmpty | src/main/java/person/companion/stack/StackArray.java:73-75 | the negation of `isEmpty` |
| Stacks.StackArray.PopPeek | src/main/java/person/companion/stack/StackArray.java:83-89 | null on an empty stack; otherwise pops one and returns the new top, or null when nothing is left |
| Stacks.PushThreeThenPop | src/main/java/person/companion/stack/Main.java:14-26 | pushing 1, 2, 5 gives size 3 and top 5; popping returns 5 and leaves size 2 and top 2 |
| Queues.QueueArray.constructor | src/main/java/person/companion/queue/QueueArray.java:14-16 | an empty queue over an array of capacity 10 |
| Queues.QueueArray.WithCapacity | src/main/java/person/companion/queue/QueueArray.java:18-20 | an empty queue of the given capacity |
| Queues.QueueArray.EnQueue | src/main/java/person/companion/queue/QueueArray.java:28-30 | `e` joins the back |
| Queues.QueueArray.DeQueue | src/main/java/person/companion/queue/QueueArray.java:38-40 | returns the front; the rest keep their order; an empty queue throws "index out of bound" |
| Queues.QueueArray.GetFront | src/main/java/person/companion/queue/QueueArray.java:48-50 | the front element without change; on an empty queue the null cell at index 0, or an exception at capacity 0 |
| Queues.QueueArray.Size | src/main/java/person/companion/queue/QueueArray.java:58-60 | the number of elements |
| Queues.QueueArray.IsEmpty | src/main/java/person/companion/queue/QueueArray.java:68-70 | true iff the size is 0 |
| Queues.QueueArray.IsNotEmpty | src/main/java/person/companion/queue/QueueArray.java:78-80 | the negation of `isEmpty` |
| SparseBoard.Compress | src/main/java/person/companion/array/Chess.java:120-145 | header `[arr[0].length, arr[1].length, count]` and one row per non-zero cell, `count + 1` rows in all |
| SparseBoard.TriplesRows | src/main/java/person/companion/array/Chess.java:137-144 | one triple `(i, j, arr[i][j])` per non-zero cell, in row-major order |
| SparseBoard.Recover | src/main/java/person/companion/array/Chess.java:98-113 | a board of the header's size that is zero except at the listed triples |
| SparseBoard.Place | src/main/java/person/companion/array/Chess.java:108-110 | writes one cell, or throws outside the board |
| SparseBoard.Apply | src/main/java/person/companion/array/Chess.java:106-111 | writes every triple in turn; throws iff one is outside the board |
| SparseBoard.RecoverIsApply | src/main/java/person/companion/array/Chess.java:98-113 | recovering is writing the listed triples onto a zero board of the header's size |
| SparseBoard.TriplesRebuild | src/main/java/person/companion/array/Chess.java:98-145 | writing a board's own triples onto a zero board of its size gives the board back |
| SparseBoard.RoundTripSquare | src/main/java/person/companion/array/Chess.java:15-36 | a square board of side at least 2 comes back unchanged |
| SparseBoard.NonSquareDoesNotRoundTrip | src/main/java/person/companion/array/Chess.java:134 | a 2 x 3 board comes back as 3 x 3 |
| SparseBoard.CompressCorrected | src/main/java/person/companion/array/Chess.java:134 | the header with the number of rows first and the width of row 0 second, so a one-row board is accepted too |
| SparseBoard.RoundTripCorrected | src/main/java/person/companion/array/Chess.java:98-145 | with the corrected header every rectangular board comes back unchanged |
| SparseBoard.Chess.constructor | src/main/java/person/companion/array/Chess.java:17 | no board has been compressed yet |
| SparseBoard.Chess.CompressArr | src/main/java/person/companion/array/Chess.java:120-145 | fewer than 2 rows throws; otherwise the field holds the sparse array and nothing else changes |
| SparseBoard.Chess.CountNonZero | src/main/java/person/companion/array/Chess.java:122-130 | the first double loop counts the non-zero cells |
| SparseBoard.Chess.FillTriples | src/main/java/person/companion/array/Chess.java:136-144 | the second double loop fills the rows after the header with the triples |
| SparseBoard.Chess.FillRow | src/main/java/person/companion/array/Chess.java:138-143 | the inner loop writes row `i`'s triples in order |
| SparseBoard.Chess.RecoverArr | src/main/java/person/companion/array/Chess.java:98-113 | a fresh array holding what `Recover` describes, or the same exception |
| SparseBoard.Chess.WriteTriples | src/main/java/person/companion/array/Chess.java:106-111 | the loop writes every triple after the header, or stops at the first out of bounds |
| SparseBoard.WriteCell | src/main/java/person/companion/array/Chess.java:108-110 | the in-place write leaves exactly the board `Place` describes |
| Brackets.CloserOf | src/main/java/person/companion/stack/Solution.java:64-66 | the closer matching each opener |
| Brackets.IsValid | src/main/java/person/companion/stack/Solution.java:57-71 | the scan agrees with the stack semantics; on bracket strings it accepts exactly the well-nested ones |
| Brackets.IsMatch | src/main/java/person/companion/stack/Solution.java:74-85 | true and popped exactly when the stack is non-empty and its top is `s`; otherwise unchanged |
| Brackets.CloserIsAccepted | src/main/java/person/companion/stack/Solution.java:62-67 | a closer matching the top opener pops it and the scan goes on |
| Brackets.WellNestedIsTransparent | src/main/java/person/companion/stack/Solution.java:57-69 | a well-nested prefix leaves the stack as it found it |
| Brackets.OpenerIsClosed | src/main/java/person/companion/stack/Solution.java:57-71 | an opener on an accepted run is closed later by its matching closer |
| Brackets.NestedOpenerIsClosed | src/main/java/person/companion/stack/Solution.java:57-71 | the same when the string itself starts with an opener |
| Brackets.WellNestedIsAccepted | src/main/java/person/companion/stack/Solution.java:57-71 | every well-nested string is accepted |
| Brackets.AcceptedIsWellNested | src/main/java/person/companion/stack/Solution.java:57-71 | every accepted bracket string is well nested |
| Brackets.ValidIffWellNested | src/main/java/person/companion/stack/Solution.java:5-10 | both directions of validity as well-nestedness |
| Brackets.LeadingCloserRejected | src/main/java/person/companion/stack/Solution.java:60-63 | a string starting with a closer is rejected on the empty stack; `"]"` is invalid and `""` is valid |

## Left out

- Generic element types of the trees become `int` keys, and Java's `Comparable.compareTo` becomes integer comparison. The array, stack and queue stay generic over a type with equality. `Array.indexOf` and `Array.contains` compare with `equals` in Java; the model uses Dafny's `==`, so a user-defined `equals` is not modelled.
- Printing, `toString`, the iterator, the `main` methods and the test classes are left out. The stack test is modelled as one method. The gomoku file I/O (`readChess`, `saveChess`, `printArr`) is left out.
- Node identity in the AVL and red-black insert paths is not modelled: they are values. The one place the source relies on identity (the post-order variant that compares the last emitted node by reference) identifies nodes by their path from the root.
- AvlTrees.DeleteNode: no AVL or search-tree invariant is claimed for the deletion as written. Its two-children case loses the rebalanced subtree (see Findings).
- AvlTrees.Delete on the class states the absent-key case only. The corrected deletion carries the invariants.
- AvlTrees.DeleteFixed: besides storing the subtree returned by the successor's deletion, the corrected deletion differs from the source in two more ways. It balances the node whose key was replaced; the source returns that node unbalanced, with its old height. And a node with one child is replaced by that child directly; the source tests the right child it moved to once more, for a lone left child. On an AVL tree that second test never holds, since the lone child of a node is a leaf. `DeleteFixedSearch` and `DeleteFixedAvl` are properties of this corrected deletion, not of the one-line fix alone.
- RedBlackTrees.AddNode: the `parent` link that `add` sets on a new node (RBTree.java:110) and that the rotations keep up (RBTree.java:221-261) is not modelled, because the insert path works on value trees without parent links. So the node store that the deletion works on is never shown to be a tree that `add` built; the deletion lemmas assume only a well-formed store whose child links form a forest.
- RedBlackDelete: no red-black invariant is proved for deletion as written.
  - Deleting the only node of a one-node tree dereferences the replacement's null parent (RBTree.java:382-386) and throws; `DeleteLoneRoot` proves this. No corrected version is modelled.
  - The root field is not updated after a rotation at the root (see Findings).
  - Detaching the replacement only clears its parent's link to it, so whatever hangs below it goes too. When the replacement is the leftmost node of the right subtree, that is its right child. When the matched node has only a left child, the replacement is that child and its whole subtree is dropped.
  - `rank` is a ghost termination measure.
  - `fuel` bounds the depth of `deleteBalance`'s recursion and stands for the Java call stack. Running out of it is the model's stack overflow.
- TreeWalks.QueueTraversal: the null dereference on an empty tree is reported as an exception rather than modelled as a crash partway through.
- TwoThreeTrees: nodes are values, so a node reached from two places is not modelled. The source never shares nodes.
- TwoThreeTrees.StackWalk: the `isVisited` flag is set on the stack's copy of the node and not written back into the tree. Java sets it on the tree's own 2-key internal nodes and never resets it, so a second traversal of the same tree skips keys. Only the first traversal is specified.
- TwoThreeTrees.TwoThreeTree.StackInorderTraversal: the flags Java leaves in the tree are not modelled. A ghost field `traversed` records instead that the walk has run, and the method requires a tree not yet traversed. What Java returns on a later call is not modelled. On the root b, d over leaves a, c, e, a second call takes the `else` branch at the root and returns a, d, e.
- TwoThreeTrees.AddNode: its own contract states only the shape of the result. The lemmas `AddWellFormed`, `AddBalanced` and `AddInorder` carry its properties.
- The `SortArray` the 2-3 node stores its keys in is not part of this model. Its insertion is modelled as sorted insertion into a sequence with ties after equal keys. This matches its use as an ascending buffer.
- SparseBoard.Chess.CompressArr: on a board with fewer than two rows, Java assigns the field to a half-built array before it throws. The model leaves the field unchanged.
- GrowableArray.Array.Add: the contents after an insertion before the end are stated as the forward copy writes them, not as an insertion (see Findings).
- GrowableArray.Array.Add: the doubling `capacity << 1` is on a 32-bit `int`. A full buffer of capacity 2^30 or more wraps to a negative capacity, which Java stores in the field before `resize` throws `NegativeArraySizeException`. The model doubles on unbounded integers and keeps the capacity a `nat`, so it never takes that path. `GrowableArray.Grown` doubles the same way.
- Brackets.IsValid: a character that is neither an opener nor a closer pops the stack like a matching closer, as the source does. Well-nestedness is claimed only for strings made of the six bracket characters. The scan runs over Unicode characters, while Java's `charAt` reads UTF-16 units. A character outside the Basic Multilingual Plane is one step here and two in Java. So on "(" followed by an emoji, Java pops on the first half and returns false on the second, while the model pops once and returns true.
- GrowableArray.Array.constructor: the capacity is a `nat`, so Java's `NegativeArraySizeException` for a negative capacity is not modelled. A constructor cannot report an error outcome.
- Stacks.StackArray.WithCapacity: the capacity is a `nat`, so Java's `NegativeArraySizeException` for a negative capacity is not modelled.
- Queues.QueueArray.WithCapacity: the capacity is a `nat`, so Java's `NegativeArraySizeException` for a negative capacity is not modelled.

## Findings

| source | as written | input that shows it | evidently intended | confidence | as-written member | corrected member |
|---|---|---|---|---|---|---|
| src/main/java/person/companion/array/Chess.java:134 | the header is `[arr[0].length, arr[1].length, count]`, and `recoverArr` reads its first slot as the row count: the width of row 0 becomes the number of rows and the width of row 1 the number of columns | a 2 x 3 board of zeros comes back as 3 x 3 | the header holds `arr.length` rows first and the width of row 0 second | not executed | SparseBoard.NonSquareDoesNotRoundTrip | SparseBoard.RoundTripCorrected |
| src/main/java/person/companion/tree/AVLTree.java:358-363 | the subtree returned by `delete(node.right, min)` is discarded | deleting the root of the search tree a < v < b (three nodes) keeps b twice | `node.right = delete(node.right, min)`; the corrected member also balances the matched node and returns a one-child node's child directly (see Left out) | not executed | AvlTrees.DeleteDuplicatesKey | AvlTrees.DeleteFixedSearch |
| src/main/java/person/companion/tree/RBTree.java:498-500 | a rotation at the root returns without updating `root` | a left rotation at a root with a right child | the risen node becomes `root` | not executed | RedBlackDelete.LeftRotateAtRootKeepsStaleRoot | RedBlackDelete.LeftRotateAtRootCorrected |
| src/main/java/person/companion/tree/TwoThreeTree.java:438-440 | the recursive walk emits both keys of a node before its `mid` subtree | the 2-key root b, d over leaves a, c, e with a < b < c < d < e: the walk emits a, b, d, c, e | min subtree, first key, mid subtree, second key, max subtree | not executed | TwoThreeTrees.RecursiveInorderMisorders | TwoThreeTrees.StackWalk |
| src/main/java/person/companion/tree/TwoThreeTree.java:159-189 | a key equal to an internal 2-key node's larger key matches no branch and is dropped | adding v1 to an internal node holding v0 < v1 | `e >= max` goes to the max child | not executed | TwoThreeTrees.AddDropsLargerKey | TwoThreeTrees.AddStoresKey |
| src/main/java/person/companion/array/Array.java:67-69 | the shift loop copies forward, repeating `data[index]` over the tail | `add(0, e)` on two different elements | copy from the end down to `index` | not executed | GrowableArray.AddBeforeEndLosesElement | GrowableArray.AddShiftedInserts |
