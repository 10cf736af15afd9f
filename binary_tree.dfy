/** The binary trees the AVL and red-black trees are built from: a node holds
    an integer key, two children and a per-tree attribute (the AVL tree's
    stored height, the red-black tree's colour). `Nil` is the null child. */
module BinaryTrees {

  datatype Tree<A> = Nil | Node(attr: A, left: Tree<A>, value: int, right: Tree<A>)

  /** The number of nodes. */
  function Size<A>(t: Tree<A>): nat {
    match t
    case Nil => 0
    case Node(_, l, _, r) => Size(l) + 1 + Size(r)
  }

  /** The recursive pre-order: node, left subtree, right subtree. */
  function Preorder<A>(t: Tree<A>): (s: seq<int>)
    ensures |s| == Size(t)
  {
    match t
    case Nil => []
    case Node(_, l, v, r) => [v] + Preorder(l) + Preorder(r)
  }

  /** The recursive in-order: left subtree, node, right subtree. */
  function Inorder<A>(t: Tree<A>): (s: seq<int>)
    ensures |s| == Size(t)
  {
    match t
    case Nil => []
    case Node(_, l, v, r) => Inorder(l) + [v] + Inorder(r)
  }

  /** The recursive post-order: left subtree, right subtree, node. */
  function Postorder<A>(t: Tree<A>): (s: seq<int>)
    ensures |s| == Size(t)
  {
    match t
    case Nil => []
    case Node(_, l, v, r) => Postorder(l) + Postorder(r) + [v]
  }

  /** The keys of a tree. */
  function Keys<A>(t: Tree<A>): multiset<int> {
    multiset(Inorder(t))
  }

  /** The three orders visit the same keys. */
  lemma OrdersHaveSameKeys<A>(t: Tree<A>)
    ensures multiset(Preorder(t)) == Keys(t) && multiset(Postorder(t)) == Keys(t)
  {
    PreorderKeys(t);
    PostorderKeys(t);
  }

  lemma {:induction false} PreorderKeys<A>(t: Tree<A>)
    ensures multiset(Preorder(t)) == Keys(t)
  {
    match t
    case Nil =>
    case Node(_, l, v, r) =>
      PreorderKeys(l);
      PreorderKeys(r);
      assert multiset(Preorder(t)) == multiset([v]) + multiset(Preorder(l)) + multiset(Preorder(r));
      assert Keys(t) == multiset(Inorder(l)) + multiset([v]) + multiset(Inorder(r));
  }

  lemma {:induction false} PostorderKeys<A>(t: Tree<A>)
    ensures multiset(Postorder(t)) == Keys(t)
  {
    match t
    case Nil =>
    case Node(_, l, v, r) =>
      PostorderKeys(l);
      PostorderKeys(r);
      assert multiset(Postorder(t)) == multiset(Postorder(l)) + multiset(Postorder(r)) + multiset([v]);
      assert Keys(t) == multiset(Inorder(l)) + multiset([v]) + multiset(Inorder(r));
  }

  predicate Sorted(s: seq<int>) {
    forall i, j :: 0 <= i < j < |s| ==> s[i] <= s[j]
  }

  /** The tree is a binary search tree: its in-order is ascending. */
  predicate Ordered<A>(t: Tree<A>) {
    Sorted(Inorder(t))
  }

  /** `s` with `e` inserted before its first element larger than `e`: where
      a search tree whose ties go right puts a new key. */
  function InsertRight(s: seq<int>, e: int): (r: seq<int>)
    ensures multiset(r) == multiset(s) + multiset{e} && |r| == |s| + 1
  {
    if s == [] then [e]
    else if s[0] > e then [e] + s
    else
      assert s == [s[0]] + s[1..];
      [s[0]] + InsertRight(s[1..], e)
  }

  /** A lower bound of `s` and of `e` bounds `s` with `e` added. */
  lemma BoundKept(s: seq<int>, r: seq<int>, e: int, lo: int)
    requires multiset(r) == multiset(s) + multiset{e}
    requires forall k :: 0 <= k < |s| ==> lo <= s[k]
    requires lo <= e
    ensures forall k :: 0 <= k < |r| ==> lo <= r[k]
  {
    forall k | 0 <= k < |r| ensures lo <= r[k] {
      assert r[k] in multiset(r);
      if r[k] != e {
        assert r[k] in multiset(s);
        var i :| 0 <= i < |s| && s[i] == r[k];
      }
    }
  }

  lemma {:induction false} InsertRightSorted(s: seq<int>, e: int)
    requires Sorted(s)
    ensures Sorted(InsertRight(s, e))
  {
    if s != [] && !(s[0] > e) {
      InsertRightSorted(s[1..], e);
      BoundKept(s[1..], InsertRight(s[1..], e), e, s[0]);
    }
  }

  /** `s` with `e` inserted before its first element at least `e`: where a
      search tree whose ties go left puts a new key. */
  function InsertLeft(s: seq<int>, e: int): (r: seq<int>)
    ensures multiset(r) == multiset(s) + multiset{e}
  {
    if s == [] then [e]
    else if s[0] >= e then [e] + s
    else
      assert s == [s[0]] + s[1..];
      [s[0]] + InsertLeft(s[1..], e)
  }

  lemma {:induction false} InsertLeftSorted(s: seq<int>, e: int)
    requires Sorted(s)
    ensures Sorted(InsertLeft(s, e))
  {
    if s != [] && !(s[0] >= e) {
      InsertLeftSorted(s[1..], e);
      BoundKept(s[1..], InsertLeft(s[1..], e), e, s[0]);
    }
  }

  /** Inserting into a prefix that ends before a larger element. */
  lemma {:induction false} InsertRightBefore(a: seq<int>, c: seq<int>, e: int)
    requires c != [] && c[0] > e
    ensures InsertRight(a + c, e) == InsertRight(a, e) + c
  {
    if a == [] {
      assert a + c == c;
    } else {
      assert (a + c)[1..] == a[1..] + c;
      if a[0] <= e {
        InsertRightBefore(a[1..], c, e);
      }
    }
  }

  /** Inserting past a prefix of elements no larger than `e`. */
  lemma {:induction false} InsertRightAfter(a: seq<int>, c: seq<int>, e: int)
    requires forall k :: 0 <= k < |a| ==> a[k] <= e
    ensures InsertRight(a + c, e) == a + InsertRight(c, e)
  {
    if a == [] {
      assert a + c == c;
    } else {
      assert (a + c)[1..] == a[1..] + c;
      InsertRightAfter(a[1..], c, e);
    }
  }

  /** Inserting in front of elements no smaller than `e` puts `e` first. */
  lemma {:induction false} InsertRightFront(c: seq<int>, e: int)
    requires forall k :: 0 <= k < |c| ==> e <= c[k]
    ensures InsertRight(c, e) == [e] + c
  {
    if c != [] && c[0] <= e {
      InsertRightFront(c[1..], e);
      assert c == [c[0]] + c[1..];
    }
  }

  /** Inserting into a prefix followed by elements no smaller than `e`. */
  lemma {:induction false} InsertRightPrefix(a: seq<int>, c: seq<int>, e: int)
    requires forall k :: 0 <= k < |c| ==> e <= c[k]
    ensures InsertRight(a + c, e) == InsertRight(a, e) + c
  {
    if a == [] {
      assert a + c == c;
      InsertRightFront(c, e);
    } else {
      assert (a + c)[1..] == a[1..] + c;
      if a[0] <= e {
        InsertRightPrefix(a[1..], c, e);
      }
    }
  }

  /** Inserting into the middle piece of a sequence whose first piece is no
      larger and whose last piece is no smaller than `e`. */
  lemma InsertRightMiddle(a: seq<int>, b: seq<int>, c: seq<int>, e: int)
    requires forall k :: 0 <= k < |a| ==> a[k] <= e
    requires forall k :: 0 <= k < |c| ==> e <= c[k]
    ensures InsertRight(a + b + c, e) == a + InsertRight(b, e) + c
  {
    var bc := b + c;
    assert a + b + c == a + bc;
    InsertRightAfter(a, bc, e);
    InsertRightPrefix(b, c, e);
    var x := InsertRight(b, e);
    assert a + (x + c) == a + x + c;
  }

  /** The pieces of a sorted sequence are sorted, and each element of an
      earlier piece is at most each element of a later one. */
  lemma SortedPieces(a: seq<int>, b: seq<int>, c: seq<int>)
    requires Sorted(a + b + c)
    ensures Sorted(a) && Sorted(b) && Sorted(c)
    ensures forall i, j :: 0 <= i < |a| && 0 <= j < |b| ==> a[i] <= b[j]
    ensures forall i, j :: 0 <= i < |b| && 0 <= j < |c| ==> b[i] <= c[j]
    ensures forall i, j :: 0 <= i < |a| && 0 <= j < |c| ==> a[i] <= c[j]
  {
    var s := a + b + c;
    forall i, j | 0 <= i < j < |a| ensures a[i] <= a[j] {
      assert a[i] == s[i] && a[j] == s[j];
    }
    forall i, j | 0 <= i < j < |b| ensures b[i] <= b[j] {
      assert b[i] == s[|a| + i] && b[j] == s[|a| + j];
    }
    forall i, j | 0 <= i < j < |c| ensures c[i] <= c[j] {
      assert c[i] == s[|a| + |b| + i] && c[j] == s[|a| + |b| + j];
    }
    forall i, j | 0 <= i < |a| && 0 <= j < |b| ensures a[i] <= b[j] {
      assert a[i] == s[i] && b[j] == s[|a| + j];
    }
    forall i, j | 0 <= i < |b| && 0 <= j < |c| ensures b[i] <= c[j] {
      assert b[i] == s[|a| + i] && c[j] == s[|a| + |b| + j];
    }
    forall i, j | 0 <= i < |a| && 0 <= j < |c| ensures a[i] <= c[j] {
      assert a[i] == s[i] && c[j] == s[|a| + |b| + j];
    }
  }

  /** Inserting into a prefix that ends before an element at least `e`. */
  lemma {:induction false} InsertLeftBefore(a: seq<int>, c: seq<int>, e: int)
    requires c != [] && c[0] >= e
    ensures InsertLeft(a + c, e) == InsertLeft(a, e) + c
  {
    if a == [] {
      assert a + c == c;
    } else {
      assert (a + c)[1..] == a[1..] + c;
      if a[0] < e {
        InsertLeftBefore(a[1..], c, e);
      }
    }
  }

  /** Inserting past a prefix of elements smaller than `e`. */
  lemma {:induction false} InsertLeftAfter(a: seq<int>, c: seq<int>, e: int)
    requires forall k :: 0 <= k < |a| ==> a[k] < e
    ensures InsertLeft(a + c, e) == a + InsertLeft(c, e)
  {
    if a == [] {
      assert a + c == c;
    } else {
      assert (a + c)[1..] == a[1..] + c;
      InsertLeftAfter(a[1..], c, e);
    }
  }

  /** In a search tree the left subtree's keys are at most the node's key and
      the right subtree's at least. */
  lemma OrderedSplit<A>(t: Tree<A>)
    requires t.Node? && Ordered(t)
    ensures Ordered(t.left) && Ordered(t.right)
    ensures forall k :: 0 <= k < |Inorder(t.left)| ==> Inorder(t.left)[k] <= t.value
    ensures forall k :: 0 <= k < |Inorder(t.right)| ==> t.value <= Inorder(t.right)[k]
  {
    var l, r := Inorder(t.left), Inorder(t.right);
    var s := Inorder(t);
    assert s == l + [t.value] + r;
    forall i, j | 0 <= i < j < |l| ensures l[i] <= l[j] {
      assert l[i] == s[i] && l[j] == s[j];
    }
    forall i, j | 0 <= i < j < |r| ensures r[i] <= r[j] {
      assert r[i] == s[|l| + 1 + i] && r[j] == s[|l| + 1 + j];
    }
    forall k | 0 <= k < |l| ensures l[k] <= t.value {
      assert l[k] == s[k] && t.value == s[|l|];
    }
    forall k | 0 <= k < |r| ensures t.value <= r[k] {
      assert r[k] == s[|l| + 1 + k] && t.value == s[|l|];
    }
  }

  /** A node over two search trees whose keys lie on the correct sides of
      its key is a search tree. */
  lemma OrderedJoin<A>(a: A, l: Tree<A>, v: int, r: Tree<A>)
    requires Ordered(l) && Ordered(r)
    requires forall x | x in Keys(l) :: x <= v
    requires forall x | x in Keys(r) :: v <= x
    ensures Ordered(Node(a, l, v, r))
  {
    var sl, sr := Inorder(l), Inorder(r);
    var s := Inorder(Node(a, l, v, r));
    assert s == sl + [v] + sr;
    forall i, j | 0 <= i < j < |s| ensures s[i] <= s[j] {
      if j < |sl| {
        assert s[i] == sl[i] && s[j] == sl[j];
      } else if i > |sl| {
        assert s[i] == sr[i - |sl| - 1] && s[j] == sr[j - |sl| - 1];
      } else {
        assert s[|sl|] == v;
        if i < |sl| {
          assert s[i] == sl[i] && sl[i] in multiset(sl) && sl[i] in Keys(l);
        }
        if j > |sl| {
          assert s[j] == sr[j - |sl| - 1] && sr[j - |sl| - 1] in multiset(sr) && s[j] in Keys(r);
        }
      }
    }
  }

  /** `OrderedSplit` stated over the subtrees' keys. */
  lemma OrderedSides<A>(t: Tree<A>)
    requires t.Node? && Ordered(t)
    ensures Ordered(t.left) && Ordered(t.right)
    ensures forall x | x in Keys(t.left) :: x <= t.value
    ensures forall x | x in Keys(t.right) :: t.value <= x
  {
    OrderedSplit(t);
    forall x | x in Keys(t.left) ensures x <= t.value {
      var i :| 0 <= i < |Inorder(t.left)| && Inorder(t.left)[i] == x;
    }
    forall x | x in Keys(t.right) ensures t.value <= x {
      var i :| 0 <= i < |Inorder(t.right)| && Inorder(t.right)[i] == x;
    }
  }

  /** The list after the recursive pre-order adds the keys under `t` to a
      list holding `acc`. */
  function PreorderInto<A>(t: Tree<A>, acc: seq<int>): (list: seq<int>)
    ensures list == acc + Preorder(t)
  {
    match t
    case Nil => acc
    case Node(_, l, v, r) => PreorderInto(r, PreorderInto(l, acc + [v]))
  }

  /** The list after the recursive in-order adds the keys under `t`. */
  function InorderInto<A>(t: Tree<A>, acc: seq<int>): (list: seq<int>)
    ensures list == acc + Inorder(t)
  {
    match t
    case Nil => acc
    case Node(_, l, v, r) => InorderInto(r, InorderInto(l, acc) + [v])
  }

  /** The list after the recursive post-order adds the keys under `t`. */
  function PostorderInto<A>(t: Tree<A>, acc: seq<int>): (list: seq<int>)
    ensures list == acc + Postorder(t)
  {
    match t
    case Nil => acc
    case Node(_, l, v, r) => PostorderInto(r, PostorderInto(l, acc)) + [v]
  }
}
