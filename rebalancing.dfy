/** The local rebalancing primitives of the left-leaning red-black tree.  Each
    takes a subtree root and gives back the (possibly different) new root. */
module Rebalancing {
  import opened Nodes

  /** `rotateLeft`: the right child is promoted into the root's place, takes the
      root's colour, and the old root becomes its red left child. */
  function RotateLeft(h: Tree): (r: Tree)
    requires h.Node? && h.right.Node?
    ensures r.Node? && r.left.Node?
    ensures InOrder(r) == InOrder(h) && Keys(r) == Keys(h)
    ensures r.val == h.right.val && r.color == h.color
    ensures r.left.val == h.val && r.left.color == Red
    ensures r.left.left == h.left && r.left.right == h.right.left && r.right == h.right.right
  {
    var node := h.right;
    Node(node.val, h.color, Node(h.val, Red, h.left, node.left), node.right)
  }

  /** `rotateRight`: the mirror image, promoting the left child. */
  function RotateRight(h: Tree): (r: Tree)
    requires h.Node? && h.left.Node?
    ensures r.Node? && r.right.Node?
    ensures InOrder(r) == InOrder(h) && Keys(r) == Keys(h)
    ensures r.val == h.left.val && r.color == h.color
    ensures r.right.val == h.val && r.right.color == Red
    ensures r.left == h.left.left && r.right.left == h.left.right && r.right.right == h.right
  {
    var node := h.left;
    Node(node.val, h.color, node.left, Node(h.val, Red, node.right, h.right))
  }

  /** `flipColors`: toggles the colour of the node and of both children and
      leaves every key and every grandchild where it was. */
  function FlipColors(h: Tree): (r: Tree)
    requires h.Node? && h.left.Node? && h.right.Node?
    ensures r.Node? && r.left.Node? && r.right.Node?
    ensures r.color == Flip(h.color)
    ensures r.left.color == Flip(h.left.color) && r.right.color == Flip(h.right.color)
    ensures r.val == h.val && r.left.val == h.left.val && r.right.val == h.right.val
    ensures r.left.left == h.left.left && r.left.right == h.left.right
    ensures r.right.left == h.right.left && r.right.right == h.right.right
    ensures InOrder(r) == InOrder(h) && Keys(r) == Keys(h)
  {
    Node(h.val, Flip(h.color),
         h.left.(color := Flip(h.left.color)),
         h.right.(color := Flip(h.right.color)))
  }

  /** Flipping twice gives back the original subtree. */
  lemma FlipColorsTwice(h: Tree)
    requires h.Node? && h.left.Node? && h.right.Node?
    ensures FlipColors(FlipColors(h)) == h
  {
  }

  /** `balance`: the three fix-ups, in this order, each one looking at the
      children of the subtree as the previous step left it. */
  function Balance(h: Tree): (r: Tree)
    requires h.Node?
    ensures r.Node?
    ensures InOrder(r) == InOrder(h) && Keys(r) == Keys(h)
  {
    var h1 := if !IsRed(h.left) && IsRed(h.right) then RotateLeft(h) else h;
    var h2 := if IsRed(h1.left) && IsRed(h1.left.left) then RotateRight(h1) else h1;
    if IsRed(h2.left) && IsRed(h2.right) then FlipColors(h2) else h2
  }

  /** Since it keeps the in-order sequence, `balance` keeps search-tree order. */
  lemma BalanceKeepsOrdered(h: Tree)
    requires h.Node? && Ordered(h)
    ensures Ordered(Balance(h))
  {
    OrderedIffSorted(h);
    OrderedIffSorted(Balance(h));
  }
}
