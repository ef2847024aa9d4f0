/** The node model of the left-leaning red-black tree.  A node holds a key, a
    colour and two child links it owns exclusively; a null child link is `Nil`.
    Because no node is ever shared between two parents, a tree of nodes is
    modelled as an algebraic value. */
module Nodes {

  /** The colour of the link from a node to its parent. */
  datatype Color = Red | Black

  /** The colour toggle used by `flipColors`. */
  function Flip(c: Color): (r: Color)
    ensures r != c
  {
    if c == Red then Black else Red
  }

  /** `Nil` is the null pointer; `Node` is a heap node with its key `val`. */
  datatype Tree = Nil | Node(val: int, color: Color, left: Tree, right: Tree)

  /** `isRed`: a null link counts as black. */
  predicate IsRed(t: Tree)
    ensures IsRed(t) ==> t.Node?
  {
    t.Node? && t.color == Red
  }

  /** The set of keys stored in a tree. */
  function Keys(t: Tree): set<int> {
    match t
    case Nil => {}
    case Node(x, _, l, r) => Keys(l) + {x} + Keys(r)
  }

  /** The keys in the order an in-order walk visits them. */
  function InOrder(t: Tree): seq<int> {
    match t
    case Nil => []
    case Node(x, _, l, r) => InOrder(l) + [x] + InOrder(r)
  }

  /** Binary-search-tree order: every key on the left of a node is smaller than
      the node's key, every key on its right is larger. */
  predicate Ordered(t: Tree) {
    match t
    case Nil => true
    case Node(x, _, l, r) =>
      && Ordered(l) && Ordered(r)
      && (forall k :: k in Keys(l) ==> k < x)
      && (forall k :: k in Keys(r) ==> x < k)
  }

  predicate StrictlyIncreasing(s: seq<int>) {
    forall i, j :: 0 <= i < j < |s| ==> s[i] < s[j]
  }

  /** The in-order walk visits exactly the keys of the tree. */
  lemma {:induction false} InOrderHoldsKeys(t: Tree)
    ensures forall k :: k in InOrder(t) <==> k in Keys(t)
  {
    match t
    case Nil =>
    case Node(_, _, l, r) =>
      InOrderHoldsKeys(l);
      InOrderHoldsKeys(r);
  }

  /** A sequence split around a middle element is strictly increasing exactly
      when both sides are and the middle element separates them. */
  lemma SortedAround(a: seq<int>, x: int, b: seq<int>)
    ensures StrictlyIncreasing(a + [x] + b) <==>
              && StrictlyIncreasing(a) && StrictlyIncreasing(b)
              && (forall k :: k in a ==> k < x)
              && (forall k :: k in b ==> x < k)
  {
    var s := a + [x] + b;
    if StrictlyIncreasing(s) {
      forall i, j | 0 <= i < j < |a| ensures a[i] < a[j] {
        assert a[i] == s[i] && a[j] == s[j];
      }
      forall i, j | 0 <= i < j < |b| ensures b[i] < b[j] {
        assert b[i] == s[|a| + 1 + i] && b[j] == s[|a| + 1 + j];
      }
      forall k | k in a ensures k < x {
        var i :| 0 <= i < |a| && a[i] == k;
        assert s[i] == k && s[|a|] == x;
      }
      forall k | k in b ensures x < k {
        var i :| 0 <= i < |b| && b[i] == k;
        assert s[|a| + 1 + i] == k && s[|a|] == x;
      }
    }
    if && StrictlyIncreasing(a) && StrictlyIncreasing(b)
       && (forall k :: k in a ==> k < x)
       && (forall k :: k in b ==> x < k)
    {
      forall i, j | 0 <= i < j < |s| ensures s[i] < s[j] {
        if j < |a| {
          assert s[i] == a[i] && s[j] == a[j];
        } else if i > |a| {
          assert s[i] == b[i - |a| - 1] && s[j] == b[j - |a| - 1];
        } else if j == |a| {
          assert s[i] == a[i] && a[i] in a;
        } else if i == |a| {
          assert s[j] == b[j - |a| - 1] && b[j - |a| - 1] in b;
        } else {
          assert s[i] == a[i] && a[i] in a;
          assert s[j] == b[j - |a| - 1] && b[j - |a| - 1] in b;
        }
      }
    }
  }

  /** Search-tree order is the same thing as a strictly increasing in-order walk. */
  lemma {:induction false} OrderedIffSorted(t: Tree)
    ensures Ordered(t) <==> StrictlyIncreasing(InOrder(t))
  {
    match t
    case Nil =>
    case Node(x, _, l, r) =>
      OrderedIffSorted(l);
      OrderedIffSorted(r);
      InOrderHoldsKeys(l);
      InOrderHoldsKeys(r);
      SortedAround(InOrder(l), x, InOrder(r));
  }
}
