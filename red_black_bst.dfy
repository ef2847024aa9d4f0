/** The tree object: the root link `m_root`, the public `insert` and `check`,
    and the three whole-tree checks they are built from. */
module RedBlack {
  import opened Nodes
  import C = Checker
  import Insertion

  class RedBlackBST {
    var root: Tree

    /** The invariants that hold between any two public operations. */
    ghost predicate Valid()
      reads this
    {
      Ordered(root) && C.Is23(root) && C.Balanced(root) && !IsRed(root)
    }

    /** A tree starts empty. */
    constructor ()
      ensures Valid() && root == Nil
    {
      root := Nil;
    }

    /** `insert(v)`: the recursive insert from the root, then the root is
        painted black. */
    method Insert(v: int)
      requires Valid()
      modifies this
      ensures Valid()
      ensures root == Insertion.Insert(old(root), v)
      ensures root.Node? && root.color == Black
      ensures Keys(root) == old(Keys(root)) + {v}
      ensures v in old(Keys(root)) ==> root == old(root)
    {
      Insertion.InsertKeepsInvariants(root, v);
      if v in Keys(root) {
        Insertion.InsertPresentKeyIsNoOp(root, v);
      }
      root := Insertion.Ins(root, v);
      root := root.(color := Black);
    }

    /** `isBST()`: the in-order walk from the root with no previous node. */
    method IsBST() returns (ok: bool)
      ensures ok <==> C.NonDecreasing(InOrder(root))
    {
      var prev := Nil;
      ok, prev := C.IsBSTFrom(root, prev);
      assert C.Vals(Nil) + InOrder(root) == InOrder(root);
    }

    /** `is23()`: every node of the tree obeys the local 2-3 rule. */
    method Is23() returns (ok: bool)
      ensures ok <==> forall s :: s in C.Subtrees(root) ==> C.LeansLeft(s)
      ensures ok <==> C.Is23(root)
    {
      ok := C.Is23(root);
    }

    /** `isBalanced()`: count the black nodes down the leftmost path, then ask
        that every path from the root to a null link has that many. */
    method IsBalanced() returns (ok: bool)
      ensures ok <==> C.PathBlackCounts(root) == {C.BlackHeight(root)}
      ensures ok <==> C.Balanced(root)
    {
      var black := 0;
      var node := root;
      while node.Node?
        invariant black + C.BlackHeight(node) == C.BlackHeight(root)
        decreases node
      {
        if !IsRed(node) {
          black := black + 1;
        }
        node := node.left;
      }
      ok := C.IsBalancedFrom(root, black);
      C.BalancedIffOnePathCount(root);
    }

    /** `check()`: the three checks together; a tree built by public inserts
        always passes. */
    method Check() returns (ok: bool)
      ensures ok <==> C.NonDecreasing(InOrder(root)) && C.Is23(root) && C.Balanced(root)
      ensures Valid() ==> ok
    {
      ok := IsBST();
      if ok {
        ok := Is23();
      }
      if ok {
        ok := IsBalanced();
      }
      if Valid() {
        OrderedIffSorted(root);
        C.SortedIsNonDecreasing(InOrder(root));
      }
    }
  }

  /** The driver's scenario: inserting 1, 2, ..., 100 into an empty tree gives a
      tree holding exactly those keys that passes `check()`. */
  method InsertAscendingThenCheck() returns (ok: bool, keys: set<int>)
    ensures ok
    ensures forall k :: k in keys <==> 1 <= k <= 100
  {
    var tree := new RedBlackBST();
    for i := 1 to 101
      invariant tree.Valid()
      invariant forall k :: k in Keys(tree.root) <==> 1 <= k < i
    {
      tree.Insert(i);
    }
    ok := tree.Check();
    keys := Keys(tree.root);
  }
}
