/** Recursive insertion into a left-leaning red-black tree, and the proof that
    the public insert keeps every invariant the checker tests. */
module Insertion {
  import opened Nodes
  import opened Rebalancing
  import opened Checker

  /** The private `insert(root, v)`: a new red leaf where the search falls off
      the tree, nothing at all when `v` is already at this node, and `balance`
      on the way back up otherwise. */
  function Ins(t: Tree, v: int): (r: Tree)
    ensures r.Node?
    ensures Keys(r) == Keys(t) + {v}
    ensures t == Nil ==> IsRed(r) && r.val == v && r.left == Nil && r.right == Nil
    decreases t
  {
    if t == Nil then Node(v, Red, Nil, Nil)
    else if v < t.val then Balance(t.(left := Ins(t.left, v)))
    else if v > t.val then Balance(t.(right := Ins(t.right, v)))
    else t
  }

  /** The whole state of the tree after the public `insert(v)`: the recursive
      insert followed by blackening the root. */
  function Insert(root: Tree, v: int): (r: Tree)
    ensures r.Node? && !IsRed(r)
    ensures Keys(r) == Keys(root) + {v}
  {
    var r := Ins(root, v);
    r.(color := Black)
  }

  /** Insertion keeps search-tree order. */
  lemma {:induction false} InsKeepsOrdered(t: Tree, v: int)
    requires Ordered(t)
    ensures Ordered(Ins(t, v))
  {
    match t
    case Nil =>
    case Node(x, _, l, r) =>
      if v < x {
        InsKeepsOrdered(l, v);
        BalanceKeepsOrdered(t.(left := Ins(l, v)));
      } else if v > x {
        InsKeepsOrdered(r, v);
        BalanceKeepsOrdered(t.(right := Ins(r, v)));
      }
  }

  /** On a node that already has 2-3 shape, `balance` changes nothing. */
  lemma BalanceOfShapedNode(h: Tree)
    requires h.Node? && Is23(h)
    ensures Balance(h) == h
  {
  }

  /** Inserting a key that is already present leaves the subtree as it was:
      the search stops at the node holding it, and every `balance` on the way
      back up meets a node that already has 2-3 shape. */
  lemma {:induction false} InsPresentKeyIsNoOp(t: Tree, v: int)
    requires Ordered(t) && Is23(t) && v in Keys(t)
    ensures Ins(t, v) == t
  {
    match t
    case Nil =>
    case Node(x, _, l, r) =>
      if v < x {
        assert v !in Keys(r);
        InsPresentKeyIsNoOp(l, v);
        assert t.(left := Ins(l, v)) == t;
        BalanceOfShapedNode(t);
      } else if v > x {
        assert v !in Keys(l);
        InsPresentKeyIsNoOp(r, v);
        assert t.(right := Ins(r, v)) == t;
        BalanceOfShapedNode(t);
      }
  }

  /** What insertion below a red node may leave behind: a red node whose right
      child is not red and whose children have 2-3 shape, but whose left child
      may be red too (a 4-node that the parent's `balance` splits). */
  predicate RedLeaning(t: Tree) {
    IsRed(t) && !IsRed(t.right) && Is23(t.left) && Is23(t.right)
  }

  /** `balance` after the left child of a 2-3 shaped node was replaced by the
      result of inserting into it. */
  lemma BalanceAfterLeftInsert(x: int, c: Color, l: Tree, l': Tree, r: Tree)
    requires Is23(Node(x, c, l, r)) && Balanced(Node(x, c, l, r))
    requires Balanced(l') && BlackHeight(l') == BlackHeight(l)
    requires if IsRed(l) then RedLeaning(l') else Is23(l')
    ensures Balanced(Balance(Node(x, c, l', r)))
    ensures BlackHeight(Balance(Node(x, c, l', r))) == BlackHeight(Node(x, c, l, r))
    ensures if c == Red then RedLeaning(Balance(Node(x, c, l', r)))
            else Is23(Balance(Node(x, c, l', r)))
  {
  }

  /** `balance` after the right child of a 2-3 shaped node was replaced by the
      result of inserting into it. */
  lemma BalanceAfterRightInsert(x: int, c: Color, l: Tree, r: Tree, r': Tree)
    requires Is23(Node(x, c, l, r)) && Balanced(Node(x, c, l, r))
    requires Balanced(r') && BlackHeight(r') == BlackHeight(r) && Is23(r')
    ensures Balanced(Balance(Node(x, c, l, r')))
    ensures BlackHeight(Balance(Node(x, c, l, r'))) == BlackHeight(Node(x, c, l, r))
    ensures if c == Red then RedLeaning(Balance(Node(x, c, l, r')))
            else Is23(Balance(Node(x, c, l, r')))
  {
  }

  /** Insertion keeps black balance and black height; below a black node (or
      into an empty tree) the result has 2-3 shape, below a red node it is
      `RedLeaning`. */
  lemma {:induction false} InsKeepsShape(t: Tree, v: int)
    requires Is23(t) && Balanced(t)
    ensures Balanced(Ins(t, v)) && BlackHeight(Ins(t, v)) == BlackHeight(t)
    ensures if IsRed(t) then RedLeaning(Ins(t, v)) else Is23(Ins(t, v))
  {
    match t
    case Nil =>
    case Node(x, c, l, r) =>
      if v < x {
        InsKeepsShape(l, v);
        BalanceAfterLeftInsert(x, c, l, Ins(l, v), r);
      } else if v > x {
        InsKeepsShape(r, v);
        BalanceAfterRightInsert(x, c, l, r, Ins(r, v));
      }
  }

  /** The public insert keeps the four properties `check()` and `Valid()` rely
      on: search-tree order, 2-3 shape, black balance and a black root. */
  lemma InsertKeepsInvariants(root: Tree, v: int)
    requires Ordered(root) && Is23(root) && Balanced(root) && !IsRed(root)
    ensures var r := Insert(root, v); Ordered(r) && Is23(r) && Balanced(r) && !IsRed(r)
  {
    InsKeepsOrdered(root, v);
    InsKeepsShape(root, v);
  }

  /** The public insert of a key already present leaves a valid tree unchanged. */
  lemma InsertPresentKeyIsNoOp(root: Tree, v: int)
    requires Ordered(root) && Is23(root) && !IsRed(root) && v in Keys(root)
    ensures Insert(root, v) == root
  {
    InsPresentKeyIsNoOp(root, v);
  }
}
