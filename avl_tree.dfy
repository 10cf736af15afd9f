/** The AVL tree: a search tree over `int` keys whose nodes carry their
    stored height in the node attribute. Insertion sends keys smaller than a
    node's key left and all others (ties too) right, then rebalances every
    node on the way back up. */
module AvlTrees {
  import opened Outcomes
  import opened BinaryTrees

  /** `Math.max`. */
  function Max(a: int, b: int): (m: int)
    ensures m >= a && m >= b && (m == a || m == b)
  {
    if a >= b then a else b
  }

  /** The true height of a tree: the number of nodes on its longest path. */
  function Depth(t: Tree<int>): nat {
    match t
    case Nil => 0
    case Node(_, l, _, r) => 1 + Max(Depth(l), Depth(r))
  }

  /** Every stored height is the true height. */
  ghost predicate Exact(t: Tree<int>) {
    match t
    case Nil => true
    case Node(h, l, _, r) => h == Depth(t) && Exact(l) && Exact(r)
  }

  /** The heights of the two subtrees of every node differ by at most one. */
  ghost predicate Balanced(t: Tree<int>) {
    match t
    case Nil => true
    case Node(_, l, _, r) => -1 <= Depth(l) - Depth(r) <= 1 && Balanced(l) && Balanced(r)
  }

  /** The AVL invariant: exact stored heights and balance. */
  ghost predicate Avl(t: Tree<int>) {
    Exact(t) && Balanced(t)
  }

  /** Every stored height is at least 1, as every height the tree computes
      is; this is what keeps `balance` from reaching a null child. */
  predicate Positive(t: Tree<int>) {
    match t
    case Nil => true
    case Node(h, l, _, r) => h >= 1 && Positive(l) && Positive(r)
  }

  lemma {:induction false} ExactIsPositive(t: Tree<int>)
    requires Exact(t)
    ensures Positive(t)
  {
    match t
    case Nil =>
    case Node(_, l, _, r) =>
      ExactIsPositive(l);
      ExactIsPositive(r);
  }

  /** `height`: the stored height, 0 for an absent node. */
  function Height(t: Tree<int>): (h: int)
    ensures t == Nil ==> h == 0
    ensures Exact(t) ==> h == Depth(t)
    ensures Positive(t) ==> h >= 0 && (h == 0 <==> t == Nil)
  {
    match t
    case Nil => 0
    case Node(h, _, _, _) => h
  }

  /** `calcHeight`: one more than the larger stored height of the children;
      over exact children this is the node's true height. */
  function CalcHeight(t: Tree<int>): (h: int)
    ensures t == Nil ==> h == 0
    ensures t.Node? && Exact(t.left) && Exact(t.right) ==> h == Depth(t)
    ensures t.Node? && Positive(t.left) && Positive(t.right) ==> h >= 1
  {
    match t
    case Nil => 0
    case Node(_, l, _, r) => Max(Height(l), Height(r)) + 1
  }

  /** `t` with its stored height recomputed. */
  function Refresh(t: Tree<int>): (r: Tree<int>)
    requires t.Node?
    ensures r.Node? && r.left == t.left && r.value == t.value && r.right == t.right
    ensures r.attr == CalcHeight(t)
  {
    Node(CalcHeight(t), t.left, t.value, t.right)
  }

  /** `rightRotation`: the left child becomes the root and the old root its
      right child, taking over the left child's right subtree; the lowered
      node's height is recomputed first, then the new root's. */
  function RightRotation(p: Tree<int>): (r: Tree<int>)
    requires p.Node? && p.left.Node?
    ensures r.Node? && r.right.Node?
    ensures Inorder(r) == Inorder(p)
    ensures r.right.value == p.value
    ensures r.right.attr == CalcHeight(r.right) && r.attr == CalcHeight(r)
    ensures Positive(p) ==> Positive(r)
    ensures Exact(p.left.left) && Exact(p.left.right) && Exact(p.right) ==> Exact(r)
  {
    var l := p.left;
    var lowered := Refresh(Node(p.attr, l.right, p.value, p.right));
    assert Positive(p) ==> Positive(l) && Positive(l.right);
    assert Positive(p) ==> Positive(lowered);
    assert Exact(l.right) && Exact(p.right) ==> Exact(lowered);
    Refresh(Node(l.attr, l.left, l.value, lowered))
  }

  /** `leftRotation`: the mirror image of `rightRotation`. */
  function LeftRotation(p: Tree<int>): (r: Tree<int>)
    requires p.Node? && p.right.Node?
    ensures r.Node? && r.left.Node?
    ensures Inorder(r) == Inorder(p)
    ensures r.left.value == p.value
    ensures r.left.attr == CalcHeight(r.left) && r.attr == CalcHeight(r)
    ensures Positive(p) ==> Positive(r)
    ensures Exact(p.right.right) && Exact(p.right.left) && Exact(p.left) ==> Exact(r)
  {
    var rt := p.right;
    var lowered := Refresh(Node(p.attr, p.left, p.value, rt.left));
    assert Positive(p) ==> Positive(rt) && Positive(rt.left);
    assert Positive(p) ==> Positive(lowered);
    assert Exact(rt.left) && Exact(p.left) ==> Exact(lowered);
    Refresh(Node(rt.attr, lowered, rt.value, rt.right))
  }

  /** The node is two higher on the left. */
  predicate LeftHeavy(t: Tree<int>)
    requires t.Node?
  {
    Height(t.left) - Height(t.right) == 2
  }

  /** The node is two higher on the right. */
  predicate RightHeavy(t: Tree<int>)
    requires t.Node?
  {
    Height(t.right) - Height(t.left) == 2
  }

  /** `balance`: recompute the node's height; if it is two higher on the
      left, rotate right once when the left child's left subtree is at least
      as high as its right one, and otherwise rotate the left child left
      first; the mirror image when it is two higher on the right; otherwise
      keep the node. */
  function Balance(t: Tree<int>): (r: Tree<int>)
    requires t.Node? && Positive(t.left) && Positive(t.right)
    ensures r.Node? && Inorder(r) == Inorder(t) && Positive(r)
  {
    var n := Refresh(t);
    if LeftHeavy(t) then
      var l := t.left;
      if Height(l.left) >= Height(l.right) then RightRotation(n)
      else RightRotation(Node(n.attr, LeftRotation(l), n.value, n.right))
    else if RightHeavy(t) then
      var rt := t.right;
      if Height(rt.right) >= Height(rt.left) then LeftRotation(n)
      else LeftRotation(Node(n.attr, n.left, n.value, RightRotation(rt)))
    else n
  }

  /** The node object `balance` was called on, as it is afterwards: lowered
      into the new root's right (left) subtree by a right (left) rotation, or
      still the root. It keeps its key. */
  function BalanceSelf(t: Tree<int>): (s: Tree<int>)
    requires t.Node? && Positive(t.left) && Positive(t.right)
    ensures s.Node? && s.value == t.value && Positive(s)
  {
    var r := Balance(t);
    if LeftHeavy(t) then r.right else if RightHeavy(t) then r.left else r
  }

  /** `insert`: a new leaf of height 1 in the empty slot; smaller keys go
      left, the rest right, and every node on the way back is balanced. */
  function InsertNode(t: Tree<int>, e: int): (r: Tree<int>)
    requires Positive(t)
    ensures r.Node? && Positive(r)
  {
    match t
    case Nil => Node(1, Nil, e, Nil)
    case Node(h, l, v, rt) =>
      if e < v then Balance(Node(h, InsertNode(l, e), v, rt))
      else Balance(Node(h, l, v, InsertNode(rt, e)))
  }

  /** An AVL node with exact heights is left as it is by `balance`. */
  lemma BalanceKeepsAvl(t: Tree<int>)
    requires t.Node? && Avl(t)
    ensures Positive(t.left) && Positive(t.right)
    ensures Balance(t) == t && BalanceSelf(t) == t
  {
    ExactIsPositive(t);
  }

  lemma BalanceLeftSingle(t: Tree<int>)
    requires t.Node? && t.left.Node? && Avl(t.left) && Avl(t.right)
    requires Depth(t.left) == Depth(t.right) + 2
    requires Depth(t.left.left) >= Depth(t.left.right)
    ensures Avl(RightRotation(Refresh(t)))
    ensures Depth(t.left) <= Depth(RightRotation(Refresh(t))) <= Depth(t.left) + 1
  {
    var l := t.left;
    var r := RightRotation(Refresh(t));
    assert r.left == l.left && r.right.left == l.right && r.right.right == t.right;
  }

  lemma BalanceLeftDouble(t: Tree<int>)
    requires t.Node? && t.left.Node? && t.left.right.Node? && Avl(t.left) && Avl(t.right)
    requires Depth(t.left) == Depth(t.right) + 2
    requires Depth(t.left.left) < Depth(t.left.right)
    ensures var n := Refresh(t); Avl(RightRotation(Node(n.attr, LeftRotation(t.left), n.value, n.right)))
    ensures var n := Refresh(t); Depth(RightRotation(Node(n.attr, LeftRotation(t.left), n.value, n.right))) == Depth(t.left)
  {
    var n := Refresh(t);
    var l := t.left;
    var lr := l.right;
    assert Exact(l.left) && Exact(lr) && Exact(lr.left) && Exact(lr.right);
    var m := LeftRotation(l);
    assert m.left.left == l.left && m.left.right == lr.left && m.right == lr.right;
    assert Exact(m.left) && Exact(m.right);
    var d := Depth(t.right);
    assert Balanced(l) && Balanced(lr);
    assert Depth(l.left) == d && Depth(lr) == d + 1;
    assert d - 1 <= Depth(lr.left) <= d && d - 1 <= Depth(lr.right) <= d;
    assert Depth(m.left) == d + 1 && Balanced(m.left);
    var r := RightRotation(Node(n.attr, m, n.value, n.right));
    assert r.left == m.left && r.right.left == lr.right && r.right.right == t.right;
    assert Depth(r.right) == d + 1 && Balanced(r.right);
  }

  lemma BalanceRightSingle(t: Tree<int>)
    requires t.Node? && t.right.Node? && Avl(t.left) && Avl(t.right)
    requires Depth(t.right) == Depth(t.left) + 2
    requires Depth(t.right.right) >= Depth(t.right.left)
    ensures Avl(LeftRotation(Refresh(t)))
    ensures Depth(t.right) <= Depth(LeftRotation(Refresh(t))) <= Depth(t.right) + 1
  {
    var rt := t.right;
    var r := LeftRotation(Refresh(t));
    assert r.right == rt.right && r.left.right == rt.left && r.left.left == t.left;
  }

  lemma BalanceRightDouble(t: Tree<int>)
    requires t.Node? && t.right.Node? && t.right.left.Node? && Avl(t.left) && Avl(t.right)
    requires Depth(t.right) == Depth(t.left) + 2
    requires Depth(t.right.right) < Depth(t.right.left)
    ensures var n := Refresh(t); Avl(LeftRotation(Node(n.attr, n.left, n.value, RightRotation(t.right))))
    ensures var n := Refresh(t); Depth(LeftRotation(Node(n.attr, n.left, n.value, RightRotation(t.right)))) == Depth(t.right)
  {
    var n := Refresh(t);
    var rt := t.right;
    var rl := rt.left;
    assert Exact(rt.right) && Exact(rl) && Exact(rl.left) && Exact(rl.right);
    var m := RightRotation(rt);
    assert m.right.right == rt.right && m.right.left == rl.right && m.left == rl.left;
    assert Exact(m.left) && Exact(m.right);
    var d := Depth(t.left);
    assert Balanced(rt) && Balanced(rl);
    assert Depth(rt.right) == d && Depth(rl) == d + 1;
    assert d - 1 <= Depth(rl.left) <= d && d - 1 <= Depth(rl.right) <= d;
    assert Depth(m.right) == d + 1 && Balanced(m.right);
    var r := LeftRotation(Node(n.attr, n.left, n.value, m));
    assert r.right == m.right && r.left.right == rl.left && r.left.left == t.left;
    assert Depth(r.left) == d + 1 && Balanced(r.left);
  }

  /** `balance` over two AVL subtrees whose heights differ by at most two
      yields an AVL tree: unchanged in shape, with its exact height, when
      they differ by at most one, and otherwise rotated to a height between
      that of the higher subtree and one more. */
  lemma BalanceAvl(t: Tree<int>)
    requires t.Node? && Avl(t.left) && Avl(t.right)
    requires -2 <= Depth(t.left) - Depth(t.right) <= 2
    ensures Positive(t.left) && Positive(t.right)
    ensures Avl(Balance(t))
    ensures -1 <= Depth(t.left) - Depth(t.right) <= 1 ==> Balance(t) == Refresh(t) && Depth(Balance(t)) == Depth(t)
    ensures Max(Depth(t.left), Depth(t.right)) <= Depth(Balance(t)) <= Max(Depth(t.left), Depth(t.right)) + 1
  {
    ExactIsPositive(t.left);
    ExactIsPositive(t.right);
    if LeftHeavy(t) {
      BalanceLeftHeavy(t);
    } else if RightHeavy(t) {
      BalanceRightHeavy(t);
    } else {
      assert Balance(t) == Refresh(t);
      BalanceKept(t);
    }
  }

  /** `balance` on a node two higher on the left: one of the two rotations. */
  lemma BalanceLeftHeavy(t: Tree<int>)
    requires t.Node? && Avl(t.left) && Avl(t.right) && Positive(t.left) && Positive(t.right)
    requires LeftHeavy(t)
    ensures Avl(Balance(t))
    ensures Depth(t.left) <= Depth(Balance(t)) <= Depth(t.left) + 1
  {
    var n := Refresh(t);
    if Height(t.left.left) >= Height(t.left.right) {
      BalanceLeftSingle(t);
      assert Balance(t) == RightRotation(n);
    } else {
      BalanceLeftDouble(t);
      assert Balance(t) == RightRotation(Node(n.attr, LeftRotation(t.left), n.value, n.right));
    }
  }

  /** `balance` on a node two higher on the right: one of the two rotations. */
  lemma BalanceRightHeavy(t: Tree<int>)
    requires t.Node? && Avl(t.left) && Avl(t.right) && Positive(t.left) && Positive(t.right)
    requires RightHeavy(t)
    ensures Avl(Balance(t))
    ensures Depth(t.right) <= Depth(Balance(t)) <= Depth(t.right) + 1
  {
    var n := Refresh(t);
    if Height(t.right.right) >= Height(t.right.left) {
      BalanceRightSingle(t);
      assert Balance(t) == LeftRotation(n);
    } else {
      BalanceRightDouble(t);
      assert Balance(t) == LeftRotation(Node(n.attr, n.left, n.value, RightRotation(t.right)));
    }
  }

  /** Without a rotation, `balance` only refreshes the node's height. */
  lemma BalanceKept(t: Tree<int>)
    requires t.Node? && Avl(t.left) && Avl(t.right)
    requires -1 <= Depth(t.left) - Depth(t.right) <= 1
    ensures Avl(Refresh(t)) && Depth(Refresh(t)) == Depth(t)
  {
  }

  lemma InsertRightBeforeKey(a: seq<int>, v: int, c: seq<int>, e: int)
    requires e < v
    ensures InsertRight(a + [v] + c, e) == InsertRight(a, e) + [v] + c
  {
    var c' := [v] + c;
    assert a + [v] + c == a + c';
    InsertRightBefore(a, c', e);
    var x := InsertRight(a, e);
    assert x + [v] + c == x + c';
  }

  lemma InsertRightAfterKey(a: seq<int>, v: int, c: seq<int>, e: int)
    requires forall k :: 0 <= k < |a| ==> a[k] <= v
    requires v <= e
    ensures InsertRight(a + [v] + c, e) == a + [v] + InsertRight(c, e)
  {
    var a' := a + [v];
    InsertRightAfter(a', c, e);
  }

  /** In-order of the tree after `insert`: the key goes before the first
      larger key, after all keys equal to it. */
  lemma {:induction false} InsertInorder(t: Tree<int>, e: int)
    requires Positive(t) && Ordered(t)
    ensures Inorder(InsertNode(t, e)) == InsertRight(Inorder(t), e)
  {
    match t
    case Nil =>
    case Node(h, l, v, rt) =>
      OrderedSplit(t);
      if e < v {
        var l' := InsertNode(l, e);
        InsertInorder(l, e);
        assert Inorder(InsertNode(t, e)) == Inorder(l') + [v] + Inorder(rt);
        InsertRightBeforeKey(Inorder(l), v, Inorder(rt), e);
      } else {
        var rt' := InsertNode(rt, e);
        InsertInorder(rt, e);
        assert Inorder(InsertNode(t, e)) == Inorder(l) + [v] + Inorder(rt');
        InsertRightAfterKey(Inorder(l), v, Inorder(rt), e);
      }
  }

  /** `insert` adds exactly one copy of the key to any tree with positive
      heights, ordered or not. */
  lemma {:induction false} InsertKeys(t: Tree<int>, e: int)
    requires Positive(t)
    ensures Keys(InsertNode(t, e)) == Keys(t) + multiset{e}
  {
    match t
    case Nil =>
    case Node(h, l, v, rt) =>
      if e < v {
        InsertKeys(l, e);
        assert Inorder(InsertNode(t, e)) == Inorder(InsertNode(l, e)) + [v] + Inorder(rt);
      } else {
        InsertKeys(rt, e);
        assert Inorder(InsertNode(t, e)) == Inorder(l) + [v] + Inorder(InsertNode(rt, e));
      }
  }

  /** `insert` keeps the tree an AVL tree, growing it by at most one level. */
  lemma {:induction false} InsertAvl(t: Tree<int>, e: int)
    requires Avl(t)
    ensures Positive(t)
    ensures Avl(InsertNode(t, e))
    ensures Depth(t) <= Depth(InsertNode(t, e)) <= Depth(t) + 1
  {
    ExactIsPositive(t);
    match t
    case Nil =>
    case Node(h, l, v, rt) =>
      if e < v {
        InsertAvl(l, e);
        BalanceAvl(Node(h, InsertNode(l, e), v, rt));
      } else {
        InsertAvl(rt, e);
        BalanceAvl(Node(h, l, v, InsertNode(rt, e)));
      }
  }

  /** The tree built by inserting `keys` one after another into an empty
      tree. */
  function Build(keys: seq<int>): (t: Tree<int>)
    ensures Positive(t)
  {
    if keys == [] then Nil else InsertNode(Build(keys[..|keys| - 1]), keys[|keys| - 1])
  }

  /** `insert` on an AVL search tree yields an AVL search tree holding one
      more copy of the key. */
  lemma InsertKeepsAvlSearchTree(t: Tree<int>, e: int)
    requires Avl(t) && Ordered(t)
    ensures Positive(t)
    ensures Avl(InsertNode(t, e)) && Ordered(InsertNode(t, e))
    ensures Keys(InsertNode(t, e)) == Keys(t) + multiset{e}
  {
    InsertAvl(t, e);
    InsertInorder(t, e);
    InsertRightSorted(Inorder(t), e);
  }

  /** Every tree built by inserts is an AVL search tree holding exactly the
      inserted keys. */
  lemma {:induction false} BuildIsAvlSearchTree(keys: seq<int>)
    ensures Avl(Build(keys)) && Ordered(Build(keys))
    ensures Keys(Build(keys)) == multiset(keys)
  {
    if keys != [] {
      var front, e := keys[..|keys| - 1], keys[|keys| - 1];
      assert keys == front + [e];
      var t := Build(front);
      BuildIsAvlSearchTree(front);
      InsertKeepsAvlSearchTree(t, e);
      assert Build(keys) == InsertNode(t, e);
      assert multiset(keys) == multiset(front) + multiset{e};
    }
  }

  /** The leftmost node under `t`: the node holding the first key of the
      in-order. */
  function Leftmost(t: Tree<int>): (m: Tree<int>)
    requires t.Node?
    ensures m.Node? && m.left == Nil && m.value == Inorder(t)[0]
  {
    if t.left == Nil then t else Leftmost(t.left)
  }

  /** The rightmost node under `t`: the node holding the last key of the
      in-order. */
  function Rightmost(t: Tree<int>): (m: Tree<int>)
    requires t.Node?
    ensures m.Node? && m.right == Nil && m.value == Inorder(t)[|Inorder(t)| - 1]
  {
    if t.right == Nil then t else Rightmost(t.right)
  }

  /** In a search tree the leftmost key is the smallest and the rightmost
      the largest. */
  lemma ExtremesAreMinMax(t: Tree<int>)
    requires t.Node? && Ordered(t)
    ensures Leftmost(t).value in Keys(t) && Rightmost(t).value in Keys(t)
    ensures forall x | x in Keys(t) :: Leftmost(t).value <= x <= Rightmost(t).value
  {
    var s := Inorder(t);
    forall x | x in Keys(t) ensures s[0] <= x <= s[|s| - 1] {
      var i :| 0 <= i < |s| && s[i] == x;
    }
  }

  /** `minNode(node)`: walks left from `node` to the leftmost node; null
      for an empty tree. */
  method MinNodeUnder(node: Tree<int>) returns (m: Tree<int>)
    ensures node == Nil ==> m == Nil
    ensures node.Node? ==> m == Leftmost(node)
  {
    if node == Nil {
      return Nil;
    }
    m := node;
    while m.left != Nil
      invariant m.Node? && Leftmost(m) == Leftmost(node)
      decreases Size(m)
    {
      m := m.left;
    }
  }

  /** `maxNode(node)`: walks right from `node` to the rightmost node; null
      for an empty tree. */
  method MaxNodeUnder(node: Tree<int>) returns (m: Tree<int>)
    ensures node == Nil ==> m == Nil
    ensures node.Node? ==> m == Rightmost(node)
  {
    if node == Nil {
      return Nil;
    }
    m := node;
    while m.right != Nil
      invariant m.Node? && Rightmost(m) == Rightmost(node)
      decreases Size(m)
    {
      m := m.right;
    }
  }

  /** What one call of the recursive `delete` leaves behind: the subtree it
      returns, and the subtree that the node object it was called on heads
      afterwards (the call rearranges nodes in place). */
  datatype Deleted = Deleted(returned: Tree<int>, self: Tree<int>)

  /** `t` with the node `delete` chose as its replacement (`t` itself, its
      right child, its left child, or its right child's left child) swapped
      for `n`: how the rewritten replacement looks from `t`'s object. */
  function Splice(t: Tree<int>, rightOnly: bool, leftOnly: bool, n: Tree<int>): (s: Tree<int>)
    requires t.Node? && n.Node? && (rightOnly ==> t.right.Node?)
    ensures s.Node?
  {
    if !rightOnly && !leftOnly then n
    else if rightOnly && !leftOnly then Node(t.attr, t.left, t.value, n)
    else if !rightOnly then Node(t.attr, n, t.value, t.right)
    else Node(t.attr, t.left, t.value, Node(t.right.attr, n, t.right.value, t.right.right))
  }

  /** `delete` as the source writes it. A key smaller (larger) than the
      node's goes left (right), the returned subtree replaces that child and
      the node is balanced. A matching leaf returns null. Otherwise the
      replacement is the right child when only that exists, then its left
      child when only that exists; a replacement with two children takes
      the smallest key of its right subtree, whose deletion there runs but
      whose returned subtree is discarded. */
  function DeleteNode(t: Tree<int>, e: int): (d: Deleted)
    requires Positive(t)
    ensures Positive(d.returned) && Positive(d.self)
    ensures t == Nil <==> d.self == Nil
    decreases Size(t)
  {
    match t
    case Nil => Deleted(Nil, Nil)
    case Node(h, l, v, r) =>
      if e < v then
        var n := Node(h, DeleteNode(l, e).returned, v, r);
        Deleted(Balance(n), BalanceSelf(n))
      else if e > v then
        var n := Node(h, l, v, DeleteNode(r, e).returned);
        Deleted(Balance(n), BalanceSelf(n))
      else if l == Nil && r == Nil then Deleted(Nil, t)
      else
        var rightOnly := l == Nil && r != Nil;
        var n1 := if rightOnly then r else t;
        var leftOnly := n1.left != Nil && n1.right == Nil;
        var n2 := if leftOnly then n1.left else n1;
        assert Positive(n1) && Size(n1) <= Size(t);
        assert Positive(n2) && Size(n2) <= Size(t);
        if n2.left != Nil && n2.right != Nil then
          assert Positive(n2.left) && Positive(n2.right) && Size(n2.right) < Size(t);
          var m := Leftmost(n2.right).value;
          var n2' := Node(n2.attr, n2.left, m, DeleteNode(n2.right, m).self);
          Deleted(n2', Splice(t, rightOnly, leftOnly, n2'))
        else Deleted(n2, t)
  }

  /** Deleting a key the AVL tree does not hold changes nothing: every
      `balance` on the way back finds its node already balanced. */
  lemma {:induction false} DeleteAbsent(t: Tree<int>, e: int)
    requires Avl(t) && e !in Keys(t)
    ensures Positive(t)
    ensures DeleteNode(t, e) == Deleted(t, t)
  {
    ExactIsPositive(t);
    match t
    case Nil =>
    case Node(h, l, v, r) =>
      assert Keys(t) == Keys(l) + multiset{v} + Keys(r);
      if e < v {
        DeleteAbsent(l, e);
        BalanceKeepsAvl(t);
      } else if e > v {
        DeleteAbsent(r, e);
        BalanceKeepsAvl(t);
      }
  }

  /** Deleting the key of an AVL node: a leaf disappears, a node with one
      child (a leaf, by balance) is replaced by it, and a node with two
      children takes the key of the leftmost node of its right subtree. */
  lemma DeleteMatched(t: Tree<int>)
    requires Avl(t) && t.Node?
    ensures Positive(t)
    ensures t.left == Nil && t.right == Nil ==> DeleteNode(t, t.value).returned == Nil
    ensures t.left == Nil && t.right.Node? ==> DeleteNode(t, t.value).returned == t.right
    ensures t.left.Node? && t.right == Nil ==> DeleteNode(t, t.value).returned == t.left
    ensures t.left.Node? && t.right.Node? ==>
      var m := Leftmost(t.right).value;
      DeleteNode(t, t.value).returned == Node(t.attr, t.left, m, DeleteNode(t.right, m).self)
  {
    ExactIsPositive(t);
    if t.left == Nil && t.right.Node? {
      assert Depth(t.right) == 1;
      assert t.right.left == Nil && t.right.right == Nil;
    }
    if t.left.Node? && t.right == Nil {
      assert Depth(t.left) == 1;
      assert t.left.left == Nil && t.left.right == Nil;
    }
  }

  /** The defect of the two-children case: when the right child is a leaf,
      its key is copied into the node but the leaf stays, because the
      subtree the inner deletion returns is dropped. */
  lemma DeleteKeepsSuccessorLeaf(t: Tree<int>)
    requires Positive(t) && t.Node? && t.left.Node?
    requires t.right.Node? && t.right.left == Nil && t.right.right == Nil
    ensures Inorder(DeleteNode(t, t.value).returned) == Inorder(t.left) + [t.right.value, t.right.value]
  {
    var m := t.right.value;
    assert Leftmost(t.right).value == m;
    assert DeleteNode(t.right, m).self == t.right;
  }

  /** An AVL search tree of three keys that the source's deletion turns into
      a tree holding its largest key twice: deleting 2 from 1, 2, 3 leaves
      1, 3, 3. */
  lemma DeleteDuplicatesKey(a: int, v: int, b: int)
    requires a < v < b
    ensures var t := Node(2, Node(1, Nil, a, Nil), v, Node(1, Nil, b, Nil));
      Avl(t) && Ordered(t) && Positive(t) && Inorder(DeleteNode(t, v).returned) == [a, b, b]
  {
    var la, lb := Node(1, Nil, a, Nil), Node(1, Nil, b, Nil);
    var t := Node(2, la, v, lb);
    assert Depth(Nil) == 0 && Max(0, 0) == 0 && Max(1, 1) == 1;
    assert Depth(la) == 1 && Depth(lb) == 1;
    assert Exact(la) && Exact(lb) && Balanced(la) && Balanced(lb);
    assert Depth(t) == 2;
    assert Exact(t) && Balanced(t);
    assert Inorder(t) == [a, v, b];
    DeleteKeepsSuccessorLeaf(t);
  }

  /** Deletion as evidently intended: the subtree returned by deleting the
      successor replaces the right child and the node is balanced. */
  function DeleteFixed(t: Tree<int>, e: int): (r: Tree<int>)
    requires Positive(t)
    ensures Positive(r)
  {
    match t
    case Nil => Nil
    case Node(h, l, v, rt) =>
      if e < v then Balance(Node(h, DeleteFixed(l, e), v, rt))
      else if e > v then Balance(Node(h, l, v, DeleteFixed(rt, e)))
      else if l == Nil then rt
      else if rt == Nil then l
      else
        var m := Leftmost(rt).value;
        Balance(Node(h, l, m, DeleteFixed(rt, m)))
  }

  /** The keys of a node: its subtrees' keys and its own. */
  lemma KeysOfNode(a: int, l: Tree<int>, v: int, r: Tree<int>)
    ensures Keys(Node(a, l, v, r)) == Keys(l) + multiset{v} + Keys(r)
  {
  }

  /** One copy of `e` removed from one part of a union that only that part
      can hold. */
  lemma RemoveFromPart(x: multiset<int>, x': multiset<int>, y: multiset<int>, z: multiset<int>, e: int)
    requires x' == x - multiset{e} && e !in y && e !in z
    ensures x' + y + z == (x + y + z) - multiset{e}
    ensures y + z + x' == (y + z + x) - multiset{e}
  {
    assert forall k :: (x' + y + z)[k] == ((x + y + z) - multiset{e})[k];
  }

  /** Removing one copy of `e` from the left child removes it from the
      node when neither its key nor its right subtree holds `e`. */
  lemma KeysRemovedLeft(a: int, l: Tree<int>, l': Tree<int>, v: int, r: Tree<int>, e: int)
    requires Keys(l') == Keys(l) - multiset{e} && e != v && e !in Keys(r)
    ensures Keys(Node(a, l', v, r)) == Keys(Node(a, l, v, r)) - multiset{e}
  {
    KeysOfNode(a, l', v, r);
    KeysOfNode(a, l, v, r);
    RemoveFromPart(Keys(l), Keys(l'), multiset{v}, Keys(r), e);
  }

  /** The mirror image of `KeysRemovedLeft`. */
  lemma KeysRemovedRight(a: int, l: Tree<int>, v: int, r: Tree<int>, r': Tree<int>, e: int)
    requires Keys(r') == Keys(r) - multiset{e} && e != v && e !in Keys(l)
    ensures Keys(Node(a, l, v, r')) == Keys(Node(a, l, v, r)) - multiset{e}
  {
    KeysOfNode(a, l, v, r');
    KeysOfNode(a, l, v, r);
    RemoveFromPart(Keys(r), Keys(r'), Keys(l), multiset{v}, e);
  }

  /** A search tree stays one when a subtree loses keys and stays ordered. */
  lemma OrderedShrink(t: Tree<int>, l': Tree<int>, r': Tree<int>)
    requires t.Node? && Ordered(t) && Ordered(l') && Ordered(r')
    requires Keys(l') <= Keys(t.left) && Keys(r') <= Keys(t.right)
    ensures Ordered(Node(t.attr, l', t.value, r'))
  {
    OrderedSides(t);
    OrderedJoin(t.attr, l', t.value, r');
  }

  /** A key of `y` moved out of it beside `x`, against the key `v`
      removed from the whole. */
  lemma ReplaceByMember(x: multiset<int>, y: multiset<int>, m: int, v: int)
    requires m in y
    ensures x + multiset{m} + (y - multiset{m}) == (x + multiset{v} + y) - multiset{v}
  {
    assert forall k :: (x + multiset{m} + (y - multiset{m}))[k] == ((x + multiset{v} + y) - multiset{v})[k];
  }

  /** The keys of a node with two children once the smallest key of its
      right subtree replaces its own and leaves that subtree. */
  lemma SuccessorKeys(t: Tree<int>, r': Tree<int>)
    requires t.Node? && t.right.Node?
    requires Keys(r') == Keys(t.right) - multiset{Leftmost(t.right).value}
    ensures Keys(Node(t.attr, t.left, Leftmost(t.right).value, r')) == Keys(t) - multiset{t.value}
  {
    var m := Leftmost(t.right).value;
    assert m == Inorder(t.right)[0];
    assert m in Keys(t.right);
    KeysOfNode(t.attr, t.left, m, r');
    KeysOfNode(t.attr, t.left, t.value, t.right);
    ReplaceByMember(Keys(t.left), Keys(t.right), m, t.value);
  }

  /** A search tree with two children stays one when the smallest key of its
      right subtree replaces its own and leaves that subtree. */
  lemma SuccessorOrdered(t: Tree<int>, r': Tree<int>)
    requires t.Node? && t.right.Node? && Ordered(t) && Ordered(r')
    requires Keys(r') <= Keys(t.right)
    ensures Ordered(Node(t.attr, t.left, Leftmost(t.right).value, r'))
  {
    var m := Leftmost(t.right).value;
    OrderedSides(t);
    ExtremesAreMinMax(t.right);
    OrderedJoin(t.attr, t.left, m, r');
  }

  lemma DeleteFixedLeft(t: Tree<int>, e: int)
    requires t.Node? && Positive(t) && Ordered(t) && e < t.value
    requires Ordered(DeleteFixed(t.left, e))
    requires Keys(DeleteFixed(t.left, e)) == Keys(t.left) - multiset{e}
    ensures Ordered(DeleteFixed(t, e)) && Keys(DeleteFixed(t, e)) == Keys(t) - multiset{e}
  {
    var l' := DeleteFixed(t.left, e);
    DeleteFixedLeftIs(t, e);
    SameInorder(DeleteFixed(t, e), Node(t.attr, l', t.value, t.right));
    OrderedSides(t);
    assert e !in Keys(t.right);
    KeysRemovedLeft(t.attr, t.left, l', t.value, t.right, e);
    OrderedShrink(t, l', t.right);
  }

  /** Deleting a key smaller than the node's rebalances the node over the
      new left subtree. */
  lemma DeleteFixedLeftIs(t: Tree<int>, e: int)
    requires t.Node? && Positive(t) && e < t.value
    ensures Inorder(DeleteFixed(t, e)) == Inorder(Node(t.attr, DeleteFixed(t.left, e), t.value, t.right))
  {
  }

  lemma DeleteFixedRight(t: Tree<int>, e: int)
    requires t.Node? && Positive(t) && Ordered(t) && e > t.value
    requires Ordered(DeleteFixed(t.right, e))
    requires Keys(DeleteFixed(t.right, e)) == Keys(t.right) - multiset{e}
    ensures Ordered(DeleteFixed(t, e)) && Keys(DeleteFixed(t, e)) == Keys(t) - multiset{e}
  {
    var r' := DeleteFixed(t.right, e);
    DeleteFixedRightIs(t, e);
    SameInorder(DeleteFixed(t, e), Node(t.attr, t.left, t.value, r'));
    OrderedSides(t);
    assert e !in Keys(t.left);
    KeysRemovedRight(t.attr, t.left, t.value, t.right, r', e);
    OrderedShrink(t, t.left, r');
  }

  /** Deleting a key larger than the node's rebalances the node over the
      new right subtree. */
  lemma DeleteFixedRightIs(t: Tree<int>, e: int)
    requires t.Node? && Positive(t) && e > t.value
    ensures Inorder(DeleteFixed(t, e)) == Inorder(Node(t.attr, t.left, t.value, DeleteFixed(t.right, e)))
  {
  }

  /** Trees with the same in-order have the same keys and are search trees
      together. */
  lemma SameInorder(a: Tree<int>, b: Tree<int>)
    requires Inorder(a) == Inorder(b)
    ensures Keys(a) == Keys(b) && (Ordered(a) <==> Ordered(b))
  {
  }

  /** The corrected deletion at a node with two children rebalances the
      node whose key the successor took. */
  lemma DeleteFixedSuccessorIs(t: Tree<int>)
    requires t.Node? && t.left.Node? && t.right.Node? && Positive(t)
    ensures var m := Leftmost(t.right).value;
      Inorder(DeleteFixed(t, t.value)) == Inorder(Node(t.attr, t.left, m, DeleteFixed(t.right, m)))
  {
  }

  lemma DeleteFixedSuccessor(t: Tree<int>)
    requires t.Node? && t.left.Node? && t.right.Node? && Positive(t) && Ordered(t)
    requires Ordered(DeleteFixed(t.right, Leftmost(t.right).value))
    requires Keys(DeleteFixed(t.right, Leftmost(t.right).value)) == Keys(t.right) - multiset{Leftmost(t.right).value}
    ensures Ordered(DeleteFixed(t, t.value)) && Keys(DeleteFixed(t, t.value)) == Keys(t) - multiset{t.value}
  {
    var m := Leftmost(t.right).value;
    var r' := DeleteFixed(t.right, m);
    DeleteFixedSuccessorIs(t);
    SameInorder(DeleteFixed(t, t.value), Node(t.attr, t.left, m, r'));
    SuccessorKeys(t, r');
    SuccessorOrdered(t, r');
  }

  lemma DeleteFixedOneChild(t: Tree<int>)
    requires t.Node? && (t.left == Nil || t.right == Nil) && Positive(t) && Ordered(t)
    ensures Ordered(DeleteFixed(t, t.value)) && Keys(DeleteFixed(t, t.value)) == Keys(t) - multiset{t.value}
  {
    OrderedSplit(t);
    KeysOfNode(t.attr, t.left, t.value, t.right);
    assert Keys(t) - multiset{t.value} == Keys(t.left) + Keys(t.right);
  }

  /** The corrected deletion keeps a search tree a search tree and removes
      exactly one copy of the key, if there is one. */
  lemma {:induction false} DeleteFixedSearch(t: Tree<int>, e: int)
    requires Positive(t) && Ordered(t)
    ensures Ordered(DeleteFixed(t, e))
    ensures Keys(DeleteFixed(t, e)) == Keys(t) - multiset{e}
  {
    match t
    case Nil =>
    case Node(_, l, v, rt) =>
      OrderedSplit(t);
      if e < v {
        DeleteFixedSearch(l, e);
        DeleteFixedLeft(t, e);
      } else if e > v {
        DeleteFixedSearch(rt, e);
        DeleteFixedRight(t, e);
      } else if l.Node? && rt.Node? {
        DeleteFixedSearch(rt, Leftmost(rt).value);
        DeleteFixedSuccessor(t);
      } else {
        DeleteFixedOneChild(t);
      }
  }

  /** Rebalancing a node after one of its AVL subtrees lost at most one
      level: an AVL tree at most one level lower than before. */
  lemma ShrunkChildBalance(t: Tree<int>, n: Tree<int>)
    requires t.Node? && Avl(t) && n.Node? && Avl(n.left) && Avl(n.right)
    requires n.left == t.left || n.right == t.right
    requires Depth(t.left) - 1 <= Depth(n.left) <= Depth(t.left)
    requires Depth(t.right) - 1 <= Depth(n.right) <= Depth(t.right)
    ensures Positive(n.left) && Positive(n.right)
    ensures Avl(Balance(n)) && Depth(t) - 1 <= Depth(Balance(n)) <= Depth(t)
  {
    BalanceAvl(n);
  }

  /** The corrected deletion keeps an AVL tree an AVL tree, at most one
      level lower. */
  lemma {:induction false} DeleteFixedAvl(t: Tree<int>, e: int)
    requires Avl(t)
    ensures Positive(t)
    ensures Avl(DeleteFixed(t, e))
    ensures Depth(t) - 1 <= Depth(DeleteFixed(t, e)) <= Depth(t)
  {
    ExactIsPositive(t);
    match t
    case Nil =>
    case Node(h, l, v, rt) =>
      if e < v {
        DeleteFixedAvl(l, e);
        ShrunkChildBalance(t, Node(h, DeleteFixed(l, e), v, rt));
      } else if e > v {
        DeleteFixedAvl(rt, e);
        ShrunkChildBalance(t, Node(h, l, v, DeleteFixed(rt, e)));
      } else if l.Node? && rt.Node? {
        var m := Leftmost(rt).value;
        DeleteFixedAvl(rt, m);
        ShrunkChildBalance(t, Node(h, l, m, DeleteFixed(rt, m)));
      } else {
        assert DeleteFixed(t, e) == if l == Nil then rt else l;
        OneChildAvl(t);
      }
  }

  /** A node with at most one child: that child is an AVL tree one level
      lower. */
  lemma OneChildAvl(t: Tree<int>)
    requires t.Node? && Avl(t) && (t.left == Nil || t.right == Nil)
    ensures var c := if t.left == Nil then t.right else t.left;
            Avl(c) && Depth(c) == Depth(t) - 1
  {
  }

  /** `preorderTraversal`: null for an empty tree, otherwise the keys in
      pre-order. */
  function PreorderTraversal(root: Tree<int>): (r: Option<seq<int>>)
    ensures r == None <==> root == Nil
    ensures r.Some? ==> r.value == Preorder(root) && |r.value| == Size(root)
  {
    if root == Nil then None else Some(PreorderInto(root, []))
  }

  /** `inorderTraversal`: null for an empty tree, otherwise the keys in
      in-order. */
  function InorderTraversal(root: Tree<int>): (r: Option<seq<int>>)
    ensures r == None <==> root == Nil
    ensures r.Some? ==> r.value == Inorder(root) && |r.value| == Size(root)
  {
    if root == Nil then None else Some(InorderInto(root, []))
  }

  /** `postorderTraversal`: null for an empty tree, otherwise the keys in
      post-order. */
  function PostorderTraversal(root: Tree<int>): (r: Option<seq<int>>)
    ensures r == None <==> root == Nil
    ensures r.Some? ==> r.value == Postorder(root) && |r.value| == Size(root)
  {
    if root == Nil then None else Some(PostorderInto(root, []))
  }

  /** The in-order of an AVL tree built by inserts is its keys in ascending
      order. */
  lemma InorderOfBuiltIsSorted(keys: seq<int>)
    requires keys != []
    ensures InorderTraversal(Build(keys)).Some?
    ensures Sorted(InorderTraversal(Build(keys)).value)
    ensures multiset(InorderTraversal(Build(keys)).value) == multiset(keys)
  {
    BuildIsAvlSearchTree(keys);
    assert keys[0] in multiset(keys);
  }

  /** The AVL tree object: its root, replaced by every insert and delete. */
  class AVLTree {
    var root: Tree<int>

    /** An AVL search tree (whose heights are therefore all positive). */
    ghost predicate Valid()
      reads this
    {
      Avl(root) && Ordered(root) && Positive(root)
    }

    constructor()
      ensures root == Nil && Valid()
    {
      root := Nil;
    }

    /** `insert(e)`: the root becomes the root `insert` returns. It accepts
        any tree with positive heights, such as the one `Delete` can leave,
        and keeps an AVL search tree one. */
    method Insert(e: int)
      requires Positive(root)
      modifies this
      ensures Positive(root) && root == InsertNode(old(root), e)
      ensures Keys(root) == old(Keys(root)) + multiset{e}
      ensures old(Valid()) ==> Valid()
    {
      InsertKeys(root, e);
      if Valid() {
        InsertKeepsAvlSearchTree(root, e);
        ExactIsPositive(InsertNode(root, e));
      }
      root := InsertNode(root, e);
    }

    /** `delete(e)`: the root becomes the root `delete` returns, which is
        also the result; a key not in the tree changes nothing. */
    method Delete(e: int) returns (r: Tree<int>)
      requires Positive(root)
      modifies this
      ensures root == DeleteNode(old(root), e).returned && r == root
      ensures old(Valid()) && e !in old(Keys(root)) ==> root == old(root)
    {
      if Valid() && e !in Keys(root) {
        DeleteAbsent(root, e);
      }
      root := DeleteNode(root, e).returned;
      r := root;
    }

    /** `minNode()`: the leftmost node, null for an empty tree. */
    method MinNode() returns (m: Tree<int>)
      ensures root == Nil ==> m == Nil
      ensures root.Node? ==> m == Leftmost(root)
    {
      m := MinNodeUnder(root);
    }

    /** `maxNode()`: the rightmost node, null for an empty tree. */
    method MaxNode() returns (m: Tree<int>)
      ensures root == Nil ==> m == Nil
      ensures root.Node? ==> m == Rightmost(root)
    {
      m := MaxNodeUnder(root);
    }
  }
}
