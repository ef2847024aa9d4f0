# Left-leaning red-black tree (insert only)

This project models the `RedBlackBST` class of `RedBlackBST.cpp`. The class is
Sedgewick's left-leaning red-black (LLRB) binary search tree over `int` keys.
It supports insertion and an invariant check. The model proves that every
public insert keeps the tree a valid LLRB tree and that `check()` passes.

- `nodes.dfy` (module `Nodes`): the node model of `TreeNode`
  (RedBlackBST.cpp:5-16). `Tree` is either `Nil` (the null pointer) or
  `Node(val, color, left, right)`. The colour `Red`/`Black`
  stands for the source's `bool` constants `RED == true` and
  `BLACK == false`. `IsRed` treats a null link as black. The module also
  defines the key set, the in-order sequence and search-tree order. It proves
  that search-tree order holds exactly when the in-order sequence is strictly
  increasing.
- `rebalancing.dfy` (module `Rebalancing`): `rotateLeft`, `rotateRight`,
  `flipColors` and `balance`, each as a function from the old subtree root to
  the new one.
- `checker.dfy` (module `Checker`): the recursive checks `is23`,
  `isBalanced(root, black)` and `isBST(root, prev)`. Each is tied to an
  independent description of what it accepts. `is23` accepts when every node
  obeys the local rule. `isBalanced` accepts when every root-to-null path has
  the leftmost path's black count. `isBST` accepts when the in-order sequence
  never decreases.
- `insertion.dfy` (module `Insertion`): the private recursive `insert` and
  the public one, with the proofs of key-set preservation, order, 2-3 shape,
  black balance and the no-op on a present key.
- `red_black_bst.dfy` (module `RedBlack`): the class `RedBlackBST`. Its field
  `root` is `m_root`. It has the public `insert` and `check` and the
  whole-tree checks `isBST()`, `is23()` and `isBalanced()`. The loop of
  `isBalanced()` is a `while` loop. The module also holds the driver's
  scenario: insert 1..100, then check.

The nodes are modelled as values. Each child pointer is owned by exactly one
parent, and no node is ever reachable twice, so rewriting a child pointer in
place cannot be observed anywhere else. The `root` field of the class takes
the recursive insert's result where the source reassigns `m_root`. The
source then repaints the root node's colour in place; the model does this by
assigning `root` a copy with the colour changed.

The source's `isBST` rejects only when `prev->val > root->val`, so equal
neighbours pass. The model follows the code: `IsBSTFrom` accepts a
non-decreasing in-order sequence, not only a strictly increasing one. The
invariant the inserts keep (`Ordered`) is the strict one. It implies the
check's condition, so `Check` passes on every tree the public inserts build.

## Model

| member | source | states |
|---|---|---|
| Nodes.Flip | RedBlackBST.cpp:76-78 | the `!color` toggle always yields the other colour |
| Nodes.IsRed | RedBlackBST.cpp:55 | only a real node can be red; a null link counts as black |
| Nodes.OrderedIffSorted | RedBlackBST.cpp:87-93 | a tree is in search-tree order exactly when its in-order key sequence is strictly increasing |
| Rebalancing.RotateLeft | RedBlackBST.cpp:57-64 | needs a non-null right child; keeps the in-order sequence and key set; the promoted right child takes the old root's colour and the old root becomes its red left child; the old left child, the right child's left subtree and its right subtree move over unchanged |
| Rebalancing.RotateRight | RedBlackBST.cpp:66-73 | needs a non-null left child; keeps the in-order sequence and key set; the promoted left child takes the old root's colour and the old root becomes its red right child; the left child's two subtrees and the old right child move over unchanged |
| Rebalancing.FlipColors | RedBlackBST.cpp:75-79 | needs both children non-null; toggles the colour of the node and of both children; keys and grandchildren are unchanged, so the in-order sequence is too |
| Rebalancing.FlipColorsTwice | RedBlackBST.cpp:75-79 | flipping twice gives back the original subtree |
| Rebalancing.Balance | RedBlackBST.cpp:45-53 | the three fix-ups in order, each on the subtree the previous one left; the result keeps the in-order sequence and key set |
| Rebalancing.BalanceKeepsOrdered | RedBlackBST.cpp:45-53 | `balance` keeps search-tree order |
| Checker.Is23 | RedBlackBST.cpp:97-102 | `is23` holds exactly when no node of the tree has a red right child and no red node has a red left child |
| Checker.IsBalancedFrom | RedBlackBST.cpp:114-118 | `isBalanced(t, black)` holds exactly when every node's children have equal black height and the tree's black height is `black` |
| Checker.LeftSpineIsAPath | RedBlackBST.cpp:104-110 | the count taken down the leftmost path is the black count of one root-to-null path |
| Checker.BalancedIffOnePathCount | RedBlackBST.cpp:104-118 | equal black heights at every node hold exactly when every root-to-null path has the black count of the leftmost path |
| Checker.IsBSTFrom | RedBlackBST.cpp:87-93 | the walk with `prev` succeeds exactly when `prev`'s key followed by the in-order keys never decreases; on success `prev` ends at the last key visited |
| Insertion.Ins | RedBlackBST.cpp:32-43 | always returns a node; the key set becomes the old one plus `v`; on an empty subtree the result is a single red node holding `v` with no children |
| Insertion.Insert | RedBlackBST.cpp:23-27 | the new root is a non-null black node and the key set becomes the old one plus `v` |
| Insertion.InsKeepsOrdered | RedBlackBST.cpp:32-43 | insertion keeps search-tree order, so no duplicate key is created |
| Insertion.BalanceOfShapedNode | RedBlackBST.cpp:45-53 | `balance` changes nothing on a node that already has 2-3 shape |
| Insertion.InsPresentKeyIsNoOp | RedBlackBST.cpp:35-42 | inserting a key already in an ordered 2-3 shaped subtree returns that subtree unchanged |
| Insertion.BalanceAfterLeftInsert | RedBlackBST.cpp:35-36 | after the left child is replaced by an insert result, `balance` restores black balance, keeps black height, and yields 2-3 shape (below a black node) or a red node leaning left (below a red node) |
| Insertion.BalanceAfterRightInsert | RedBlackBST.cpp:37-38 | the same for the right child |
| Insertion.InsKeepsShape | RedBlackBST.cpp:32-43 | insertion keeps black balance and black height; into an empty or black subtree it yields 2-3 shape, into a red one a red node whose left child alone may also be red |
| Insertion.InsertKeepsInvariants | RedBlackBST.cpp:23-27 | the public insert keeps search-tree order, 2-3 shape, black balance and a black root |
| Insertion.InsertPresentKeyIsNoOp | RedBlackBST.cpp:23-27 | the public insert of a key already present leaves a valid tree unchanged |
| RedBlack.RedBlackBST.constructor | RedBlackBST.cpp:21 | a tree starts empty and valid |
| RedBlack.RedBlackBST.Insert | RedBlackBST.cpp:23-27 | the root becomes the recursive insert's result painted black; the key set gains `v`; a present key leaves the tree unchanged; the invariants are kept |
| RedBlack.RedBlackBST.IsBST | RedBlackBST.cpp:82-85 | succeeds exactly when the tree's in-order key sequence never decreases |
| RedBlack.RedBlackBST.Is23 | RedBlackBST.cpp:95 | succeeds exactly when every node obeys the local 2-3 rule |
| RedBlack.RedBlackBST.IsBalanced | RedBlackBST.cpp:104-112 | the loop counts the leftmost path's black nodes; the result holds exactly when every root-to-null path has that count |
| RedBlack.RedBlackBST.Check | RedBlackBST.cpp:29 | passes exactly when all three checks pass, and always passes on a valid tree |
| RedBlack.InsertAscendingThenCheck | RedBlackBST.cpp:121-127 | inserting 1..100 into an empty tree gives a tree holding exactly 1..100 that passes `check()` |

## Left out

- Memory management: nodes are allocated with `new` and never freed. The model has no heap nodes, so allocation and leaks are not modelled.
- In-place pointer rewriting: `insert`, `rotateLeft`, `rotateRight` and `flipColors` rewrite the fields of existing nodes. The model builds new tree values. Exclusive ownership makes the two indistinguishable, but node identity is not modelled.
- Root repaint: the public `insert` sets `m_root->color` in place (RedBlackBST.cpp:26). The model assigns `root` a copy of the node with the colour changed, so it does not capture that the root node object stays the same.
- RedBlack.RedBlackBST.Check: the source aborts through `assert` when a check fails. The model returns the verdict as a boolean instead.
- `main` (RedBlackBST.cpp:121-127) is kept only as the scenario method `InsertAscendingThenCheck`; the process exit status is not modelled.
- Integer width: keys and the black counter of `isBalanced` are unbounded integers. Key comparisons do not overflow, and black heights are logarithmic in the tree size, so 32-bit `int` never wraps here.
- Deletion (`deleteMin`, `deleteMax`, `erase`, `moveRedLeft`, `moveRedRight`), `contains`, `min`, `max` and `empty` are not in `RedBlackBST.cpp`. They are not part of this model.
