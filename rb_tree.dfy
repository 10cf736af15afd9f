/** The red-black tree's insertion: a search tree over `int` keys whose
    nodes carry a colour (`true` is red). A key goes left when it is at most
    the node's key, a new node is red, every node on the way back is passed
    through `rotation`, and the root is painted black at the end. The parent
    links the source also keeps are implied by the shape of the tree here. */
module RedBlackTrees {
  import opened BinaryTrees
  import TreeWalks

  const RED: bool := true
  const BLACK: bool := false

  type RBNode = Tree<bool>

  /** `isRed`: an absent node is black. */
  predicate IsRed(t: RBNode)
    ensures IsRed(t) ==> t.Node?
  {
    t.Node? && t.attr == RED
  }

  /** `colorFlip`: the node turns red and both children black; nothing else
      changes. */
  function ColorFlip(t: RBNode): (r: RBNode)
    requires t.Node? && t.left.Node? && t.right.Node?
    ensures IsRed(r) && r.left.Node? && r.right.Node? && !IsRed(r.left) && !IsRed(r.right)
    ensures r.value == t.value && Inorder(r) == Inorder(t)
    ensures r.left.left == t.left.left && r.left.right == t.left.right
    ensures r.right.left == t.right.left && r.right.right == t.right.right
  {
    Node(RED, Node(BLACK, t.left.left, t.left.value, t.left.right), t.value,
      Node(BLACK, t.right.left, t.right.value, t.right.right))
  }

  /** `leftRotation`: the right child rises over the node, which takes over
      the child's left subtree; the two swap colours. */
  function LeftRotation(p: RBNode): (r: RBNode)
    requires p.Node? && p.right.Node?
    ensures r.Node? && r.left.Node? && Inorder(r) == Inorder(p)
    ensures r.attr == p.attr && r.left.attr == p.right.attr
    ensures r.value == p.right.value && r.left.value == p.value
    ensures r.left.left == p.left && r.left.right == p.right.left && r.right == p.right.right
  {
    var c := p.right;
    Node(p.attr, Node(c.attr, p.left, p.value, c.left), c.value, c.right)
  }

  /** `rightRotation`: the mirror image of `leftRotation`. */
  function RightRotation(p: RBNode): (r: RBNode)
    requires p.Node? && p.left.Node?
    ensures r.Node? && r.right.Node? && Inorder(r) == Inorder(p)
    ensures r.attr == p.attr && r.right.attr == p.left.attr
    ensures r.value == p.left.value && r.right.value == p.value
    ensures r.right.right == p.right && r.right.left == p.left.right && r.left == p.left.left
  {
    var c := p.left;
    Node(p.attr, c.left, c.value, Node(c.attr, c.right, p.value, p.right))
  }

  /** `rotation`: the first of five cases that applies, in this order: both
      children red (flip); left child and its left child red (rotate right);
      left child and its right child red (rotate the child left, then the
      node right); right child and its right child red (rotate left); right
      child and its left child red (rotate the child right, then the node
      left). Otherwise the node is returned as it is. */
  function Rotation(n: RBNode): (r: RBNode)
    requires n.Node?
    ensures r.Node? && Inorder(r) == Inorder(n)
  {
    var l, rt := n.left, n.right;
    if IsRed(l) && IsRed(rt) then ColorFlip(n)
    else if IsRed(l) && IsRed(l.left) then RightRotation(n)
    else if IsRed(l) && IsRed(l.right) then RightRotation(Node(n.attr, LeftRotation(l), n.value, rt))
    else if IsRed(rt) && IsRed(rt.right) then LeftRotation(n)
    else if IsRed(rt) && IsRed(rt.left) then LeftRotation(Node(n.attr, l, n.value, RightRotation(rt)))
    else n
  }

  /** `add(node, parent, e)`: a red leaf in the empty slot; keys at most the
      node's key go left, larger ones right; `rotation` on the way back. */
  function AddNode(t: RBNode, e: int): (r: RBNode)
    ensures r.Node?
  {
    match t
    case Nil => Node(RED, Nil, e, Nil)
    case Node(c, l, v, rt) =>
      if e <= v then Rotation(Node(c, AddNode(l, e), v, rt))
      else Rotation(Node(c, l, v, AddNode(rt, e)))
  }

  /** `add(e)`: add below the root, then paint the root black. */
  function AddKey(root: RBNode, e: int): (r: RBNode)
    ensures r.Node? && !IsRed(r)
  {
    var n := AddNode(root, e);
    Node(BLACK, n.left, n.value, n.right)
  }

  /** The number of black nodes on every path from `t` down to a null,
      measured along the leftmost path. */
  function BlackHeight(t: RBNode): nat {
    match t
    case Nil => 0
    case Node(c, l, _, _) => BlackHeight(l) + (if c == RED then 0 else 1)
  }

  /** Every path from a node down to a null holds the same number of black
      nodes. */
  predicate BlackBalanced(t: RBNode) {
    match t
    case Nil => true
    case Node(_, l, _, r) => BlackHeight(l) == BlackHeight(r) && BlackBalanced(l) && BlackBalanced(r)
  }

  /** No red node has a red child. */
  predicate NoRedRed(t: RBNode) {
    match t
    case Nil => true
    case Node(c, l, _, r) =>
      (c == RED ==> !IsRed(l) && !IsRed(r)) && NoRedRed(l) && NoRedRed(r)
  }

  /** The red-black invariant. */
  predicate RedBlack(t: RBNode) {
    BlackBalanced(t) && NoRedRed(t)
  }

  /** What `add(node, …)` may leave for its caller to repair: a red-black
      subtree except that a red root may have one red child. */
  predicate Infrared(t: RBNode)
    requires t.Node?
  {
    NoRedRed(t.left) && NoRedRed(t.right) && (IsRed(t) ==> !(IsRed(t.left) && IsRed(t.right)))
  }

  /** `rotation` on a node whose left child came back from an `add`: over a
      black node it restores the red-black invariant; over a red node (whose
      left child the add found black) it changes nothing. */
  lemma RotationAfterLeft(n: RBNode)
    requires n.Node? && n.left.Node? && Infrared(n.left) && RedBlack(n.right)
    requires BlackBalanced(n.left) && BlackHeight(n.left) == BlackHeight(n.right)
    requires IsRed(n) ==> NoRedRed(n.left) && !IsRed(n.right)
    ensures BlackBalanced(Rotation(n)) && BlackHeight(Rotation(n)) == BlackHeight(n)
    ensures !IsRed(n) ==> NoRedRed(Rotation(n))
    ensures IsRed(n) ==> Rotation(n) == n
  {
    var l, rt := n.left, n.right;
    if IsRed(l) && IsRed(rt) {
    } else if IsRed(l) && IsRed(l.left) {
    } else if IsRed(l) && IsRed(l.right) {
      var m := LeftRotation(l);
      var r := RightRotation(Node(n.attr, m, n.value, rt));
      assert r.left.left == l.left && r.left.right == l.right.left;
      assert r.right.left == l.right.right && r.right.right == rt;
    }
  }

  /** The mirror image of `RotationAfterLeft`. */
  lemma RotationAfterRight(n: RBNode)
    requires n.Node? && n.right.Node? && Infrared(n.right) && RedBlack(n.left)
    requires BlackBalanced(n.right) && BlackHeight(n.right) == BlackHeight(n.left)
    requires IsRed(n) ==> NoRedRed(n.right) && !IsRed(n.left)
    ensures BlackBalanced(Rotation(n)) && BlackHeight(Rotation(n)) == BlackHeight(n)
    ensures !IsRed(n) ==> NoRedRed(Rotation(n))
    ensures IsRed(n) ==> Rotation(n) == n
  {
    var l, rt := n.left, n.right;
    if IsRed(l) && IsRed(rt) {
    } else if IsRed(rt) && IsRed(rt.right) {
    } else if IsRed(rt) && IsRed(rt.left) {
      var m := RightRotation(rt);
      var r := LeftRotation(Node(n.attr, l, n.value, m));
      assert r.left.left == l && r.left.right == rt.left.left;
      assert r.right.left == rt.left.right && r.right.right == rt.right;
    }
  }

  /** `add(node, …)` on a red-black subtree keeps its black height and
      leaves at most a red root with one red child; under a black root it
      leaves a red-black subtree. */
  lemma {:induction false} AddNodeInvariant(t: RBNode, e: int)
    requires RedBlack(t)
    ensures BlackBalanced(AddNode(t, e)) && BlackHeight(AddNode(t, e)) == BlackHeight(t)
    ensures Infrared(AddNode(t, e))
    ensures !IsRed(t) ==> NoRedRed(AddNode(t, e))
  {
    match t
    case Nil =>
    case Node(c, l, v, rt) =>
      if e <= v {
        AddNodeInvariant(l, e);
        RotationAfterLeft(Node(c, AddNode(l, e), v, rt));
      } else {
        AddNodeInvariant(rt, e);
        RotationAfterRight(Node(c, l, v, AddNode(rt, e)));
      }
  }

  lemma InsertLeftBeforeKey(a: seq<int>, v: int, c: seq<int>, e: int)
    requires e <= v
    ensures InsertLeft(a + [v] + c, e) == InsertLeft(a, e) + [v] + c
  {
    var c' := [v] + c;
    assert a + [v] + c == a + c';
    InsertLeftBefore(a, c', e);
    var x := InsertLeft(a, e);
    assert x + [v] + c == x + c';
  }

  lemma InsertLeftAfterKey(a: seq<int>, v: int, c: seq<int>, e: int)
    requires forall k :: 0 <= k < |a| ==> a[k] <= v
    requires v < e
    ensures InsertLeft(a + [v] + c, e) == a + [v] + InsertLeft(c, e)
  {
    var a' := a + [v];
    InsertLeftAfter(a', c, e);
  }

  /** In-order after `add(node, …)`: the key goes before the first key that
      is at least as large. */
  lemma {:induction false} AddNodeInorder(t: RBNode, e: int)
    requires Ordered(t)
    ensures Inorder(AddNode(t, e)) == InsertLeft(Inorder(t), e)
  {
    match t
    case Nil =>
    case Node(c, l, v, rt) =>
      OrderedSplit(t);
      if e <= v {
        AddNodeInorder(l, e);
        AddLeftInorder(t, e);
      } else {
        AddNodeInorder(rt, e);
        AddRightInorder(t, e);
      }
  }

  /** The step of `AddNodeInorder` that descends to the left. */
  lemma AddLeftInorder(t: RBNode, e: int)
    requires t.Node? && e <= t.value
    requires Inorder(AddNode(t.left, e)) == InsertLeft(Inorder(t.left), e)
    ensures Inorder(AddNode(t, e)) == InsertLeft(Inorder(t), e)
  {
    assert Inorder(AddNode(t, e)) == Inorder(AddNode(t.left, e)) + [t.value] + Inorder(t.right);
    InsertLeftBeforeKey(Inorder(t.left), t.value, Inorder(t.right), e);
  }

  /** The step of `AddNodeInorder` that descends to the right. */
  lemma AddRightInorder(t: RBNode, e: int)
    requires t.Node? && t.value < e
    requires forall k :: 0 <= k < |Inorder(t.left)| ==> Inorder(t.left)[k] <= t.value
    requires Inorder(AddNode(t.right, e)) == InsertLeft(Inorder(t.right), e)
    ensures Inorder(AddNode(t, e)) == InsertLeft(Inorder(t), e)
  {
    assert Inorder(AddNode(t, e)) == Inorder(t.left) + [t.value] + Inorder(AddNode(t.right, e));
    InsertLeftAfterKey(Inorder(t.left), t.value, Inorder(t.right), e);
  }

  /** `add(e)` keeps a red-black search tree one, with a black root and one
      more copy of the key. */
  lemma AddKeepsRedBlack(root: RBNode, e: int)
    requires RedBlack(root) && Ordered(root)
    ensures RedBlack(AddKey(root, e)) && Ordered(AddKey(root, e))
    ensures Keys(AddKey(root, e)) == Keys(root) + multiset{e}
  {
    AddNodeInvariant(root, e);
    AddNodeInorder(root, e);
    InsertLeftSorted(Inorder(root), e);
    var n := AddNode(root, e);
    assert Inorder(AddKey(root, e)) == Inorder(n);
  }

  /** The tree built by adding `keys` one after another to an empty tree. */
  function Build(keys: seq<int>): (t: RBNode)
    ensures keys != [] ==> t.Node? && !IsRed(t)
  {
    if keys == [] then Nil else AddKey(Build(keys[..|keys| - 1]), keys[|keys| - 1])
  }

  /** Every tree built by adds is a red-black search tree holding exactly
      the added keys. */
  lemma {:induction false} BuildIsRedBlackSearchTree(keys: seq<int>)
    ensures RedBlack(Build(keys)) && Ordered(Build(keys))
    ensures Keys(Build(keys)) == multiset(keys)
  {
    if keys != [] {
      var front, e := keys[..|keys| - 1], keys[|keys| - 1];
      assert keys == front + [e];
      var t := Build(front);
      BuildIsRedBlackSearchTree(front);
      AddKeepsRedBlack(t, e);
      assert Build(keys) == AddKey(t, e);
      assert multiset(keys) == multiset(front) + multiset{e};
    }
  }

  /** `inorderTraversal`: the keys in in-order, an empty list for an empty
      tree. */
  function InorderTraversal(root: RBNode): (list: seq<int>)
    ensures list == Inorder(root)
    ensures root == Nil ==> list == []
  {
    InorderInto(root, [])
  }

  /** `stackInorderTraversal`: the stack walk returns what the recursive
      traversal returns. */
  method StackInorderTraversal(root: RBNode) returns (list: seq<int>)
    ensures list == InorderTraversal(root)
    ensures root == Nil ==> list == []
  {
    list := TreeWalks.StackInorder(root);
  }

  /** The red-black tree object: its root, replaced by every add. */
  class RBTree {
    var root: RBNode

    /** A red-black search tree. */
    ghost predicate Valid()
      reads this
    {
      RedBlack(root) && Ordered(root)
    }

    constructor()
      ensures root == Nil && Valid()
    {
      root := Nil;
    }

    /** `add(e)`: the root becomes the black root of the tree `add` returns. */
    method Add(e: int)
      requires Valid()
      modifies this
      ensures Valid() && root == AddKey(old(root), e) && !IsRed(root)
      ensures Keys(root) == old(Keys(root)) + multiset{e}
    {
      AddKeepsRedBlack(root, e);
      root := AddKey(root, e);
    }
  }
}
