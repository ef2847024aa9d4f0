/** The invariant checker: the three recursive predicates `isBST`, `is23` and
    `isBalanced`, together with independent descriptions of what each accepts. */
module Checker {
  import opened Nodes

  // ---------------------------------------------------------------------------
  // is23: the 2-3 shape of the tree.

  /** Every subtree rooted at a node of `t`, `t` itself included. */
  function Subtrees(t: Tree): set<Tree> {
    match t
    case Nil => {}
    case Node(_, _, l, r) => {t} + Subtrees(l) + Subtrees(r)
  }

  /** The local 2-3 rule at one node. */
  predicate LeansLeft(s: Tree) {
    s.Node? ==> !IsRed(s.right) && !(IsRed(s) && IsRed(s.left))
  }

  /** `is23`: no node has a red right child, and no red node has a red left
      child; that is, every node of the tree obeys the local rule. */
  predicate Is23(t: Tree)
    ensures Is23(t) <==> forall s :: s in Subtrees(t) ==> LeansLeft(s)
  {
    match t
    case Nil => true
    case Node(_, _, l, r) =>
      assert Subtrees(t) == {t} + Subtrees(l) + Subtrees(r);
      !IsRed(r) && !(IsRed(t) && IsRed(l)) && Is23(l) && Is23(r)
  }

  // ---------------------------------------------------------------------------
  // isBalanced: equal black count on every path.

  /** The number of black nodes on the leftmost path, which the loop of
      `isBalanced()` counts. */
  function BlackHeight(t: Tree): nat {
    match t
    case Nil => 0
    case Node(_, _, l, _) => BlackHeight(l) + (if IsRed(t) then 0 else 1)
  }

  /** At every node, both children have the same black height. */
  predicate Balanced(t: Tree) {
    match t
    case Nil => true
    case Node(_, _, l, r) => Balanced(l) && Balanced(r) && BlackHeight(l) == BlackHeight(r)
  }

  /** `isBalanced(root, black)`: each black node uses up one unit of `black`,
      and every null link must be reached with nothing left over.  This holds
      exactly when the tree is balanced and its black height is `black`. */
  predicate IsBalancedFrom(t: Tree, black: int)
    ensures IsBalancedFrom(t, black) <==> Balanced(t) && BlackHeight(t) == black
  {
    match t
    case Nil => black == 0
    case Node(_, _, l, r) =>
      var b := if IsRed(t) then black else black - 1;
      IsBalancedFrom(l, b) && IsBalancedFrom(r, b)
  }

  /** The black counts of all paths from the root to a null link. */
  function PathBlackCounts(t: Tree): set<int> {
    match t
    case Nil => {0}
    case Node(_, _, l, r) =>
      var w := if IsRed(t) then 0 else 1;
      set n | n in PathBlackCounts(l) + PathBlackCounts(r) :: n + w
  }

  /** The leftmost path is one of the paths. */
  lemma {:induction false} LeftSpineIsAPath(t: Tree)
    ensures BlackHeight(t) in PathBlackCounts(t)
  {
    match t
    case Nil =>
    case Node(_, _, l, r) =>
      LeftSpineIsAPath(l);
      assert BlackHeight(l) in PathBlackCounts(l) + PathBlackCounts(r);
  }

  /** A tree is balanced exactly when every root-to-null path has the black
      count of the leftmost path. */
  lemma {:induction false} BalancedIffOnePathCount(t: Tree)
    ensures Balanced(t) <==> PathBlackCounts(t) == {BlackHeight(t)}
  {
    match t
    case Nil =>
    case Node(_, _, l, r) =>
      BalancedIffOnePathCount(l);
      BalancedIffOnePathCount(r);
      LeftSpineIsAPath(l);
      LeftSpineIsAPath(r);
      var w := if IsRed(t) then 0 else 1;
      if Balanced(t) {
        assert PathBlackCounts(l) + PathBlackCounts(r) == {BlackHeight(l)};
      }
      if PathBlackCounts(t) == {BlackHeight(t)} {
        forall n | n in PathBlackCounts(l) ensures n == BlackHeight(l) {
          assert n + w in PathBlackCounts(t);
        }
        forall n | n in PathBlackCounts(r) ensures n == BlackHeight(l) {
          assert n + w in PathBlackCounts(t);
        }
        assert PathBlackCounts(l) == {BlackHeight(l)};
        assert PathBlackCounts(r) == {BlackHeight(r)};
      }
  }

  // ---------------------------------------------------------------------------
  // isBST: the in-order walk never steps down.

  predicate NonDecreasing(s: seq<int>) {
    forall i :: 0 < i < |s| ==> s[i - 1] <= s[i]
  }

  /** The key of the node `prev` points at, if any. */
  function Vals(prev: Tree): seq<int> {
    if prev.Nil? then [] else [prev.val]
  }

  /** The last element of a sequence, if any. */
  function LastOf(s: seq<int>): seq<int> {
    if s == [] then [] else [s[|s| - 1]]
  }

  lemma NonDecreasingPrefix(a: seq<int>, b: seq<int>)
    ensures NonDecreasing(a + b) ==> NonDecreasing(a)
  {
    if NonDecreasing(a + b) {
      forall i | 0 < i < |a| ensures a[i - 1] <= a[i] {
        assert a[i - 1] == (a + b)[i - 1] && a[i] == (a + b)[i];
      }
    }
  }

  lemma NonDecreasingSnoc(a: seq<int>, x: int)
    ensures NonDecreasing(a + [x]) <==> NonDecreasing(a) && (a != [] ==> a[|a| - 1] <= x)
  {
    if NonDecreasing(a + [x]) {
      NonDecreasingPrefix(a, [x]);
      if a != [] {
        assert (a + [x])[|a|] == x && (a + [x])[|a| - 1] == a[|a| - 1];
      }
    }
    if NonDecreasing(a) && (a != [] ==> a[|a| - 1] <= x) {
      forall i | 0 < i < |a| + 1 ensures (a + [x])[i - 1] <= (a + [x])[i] {
        if i < |a| {
          assert (a + [x])[i - 1] == a[i - 1] && (a + [x])[i] == a[i];
        }
      }
    }
  }

  /** Non-decreasing around a shared middle element splits into its two halves. */
  lemma NonDecreasingAround(a: seq<int>, x: int, b: seq<int>)
    ensures NonDecreasing(a + [x] + b) <==> NonDecreasing(a + [x]) && NonDecreasing([x] + b)
  {
    var s := a + [x] + b;
    if NonDecreasing(s) {
      assert s == (a + [x]) + b;
      NonDecreasingPrefix(a + [x], b);
      forall i | 0 < i < |b| + 1 ensures ([x] + b)[i - 1] <= ([x] + b)[i] {
        assert ([x] + b)[i - 1] == s[|a| + i - 1] && ([x] + b)[i] == s[|a| + i];
      }
    }
    if NonDecreasing(a + [x]) && NonDecreasing([x] + b) {
      forall i | 0 < i < |s| ensures s[i - 1] <= s[i] {
        if i <= |a| {
          assert s[i - 1] == (a + [x])[i - 1] && s[i] == (a + [x])[i];
        } else {
          assert s[i - 1] == ([x] + b)[i - 1 - |a|] && s[i] == ([x] + b)[i - |a|];
        }
      }
    }
  }

  /** `isBST(root, prev)`: an in-order walk that carries the last visited node in
      `prev` (an in-out reference in the source, here a parameter and a result)
      and fails as soon as a key is smaller than the one before it.  Equal
      neighbours are accepted. */
  method IsBSTFrom(t: Tree, prev: Tree) returns (ok: bool, last: Tree)
    ensures ok <==> NonDecreasing(Vals(prev) + InOrder(t))
    ensures ok ==> Vals(last) == LastOf(Vals(prev) + InOrder(t))
    decreases t
  {
    if t == Nil {
      assert Vals(prev) + InOrder(t) == Vals(prev);
      return true, prev;
    }
    var a := Vals(prev) + InOrder(t.left);
    assert Vals(prev) + InOrder(t) == a + [t.val] + InOrder(t.right);
    var p;
    ok, p := IsBSTFrom(t.left, prev);
    if !ok {
      assert a + [t.val] + InOrder(t.right) == a + ([t.val] + InOrder(t.right));
      NonDecreasingPrefix(a, [t.val] + InOrder(t.right));
      return false, p;
    }
    NonDecreasingSnoc(a, t.val);
    NonDecreasingAround(a, t.val, InOrder(t.right));
    if p.Node? && p.val > t.val {
      return false, p;
    }
    ok, last := IsBSTFrom(t.right, t);
    var s := a + [t.val] + InOrder(t.right);
    assert ok ==> LastOf(s) == LastOf([t.val] + InOrder(t.right));
  }

  /** A strictly increasing sequence passes the non-decreasing test. */
  lemma SortedIsNonDecreasing(s: seq<int>)
    requires StrictlyIncreasing(s)
    ensures NonDecreasing(s)
  {
  }
}
