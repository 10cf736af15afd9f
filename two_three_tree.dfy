/** The 2-3 tree. A node holds one or two ascending keys (kept in a sorted
    buffer, with a separate `size` count) and up to three children `min`,
    `mid` and `max`; a 1-key internal node uses `min` and `max`, a 2-key one
    all three. A key is added at a leaf; a leaf that reaches three keys
    splits into a 1-key node over two 1-key leaves and is flagged `isMerge`,
    and on the way back each flagged child is merged into its parent, which
    may split in turn. */
module TwoThreeTrees {
  import opened Outcomes
  import BinaryTrees

  /** `NodeType`: which child of its parent a node is. */
  datatype Position = MIN | MID | MAX

  /** A node and the subtree under it; `Nil` is the null child. The
      `isVisited` flag is used only by the stack-driven in-order walk. */
  datatype Tree = Nil | Node(values: seq<int>, size: int, isMerge: bool, isVisited: bool,
                             min: Tree, mid: Tree, max: Tree)

  /** `new Node<>(e)` followed by `size++`, as every caller does: a node
      with the single key `e` and no children. */
  function NewNode(e: int): (n: Tree)
    ensures n.Node? && n.values == [e] && n.size == 1 && !n.isMerge && !n.isVisited
    ensures n.min == Nil && n.mid == Nil && n.max == Nil
  {
    Node([e], 1, false, false, Nil, Nil, Nil)
  }

  /** A child that is not waiting to be merged into its parent. */
  predicate Settled(c: Tree) {
    c == Nil || !c.isMerge
  }

  /** Every node holds one or two ascending keys and `size` counts them; a
      node without a `min` child has no children at all; a node with one
      has a `max` child, and a `mid` child exactly when it holds two keys;
      below the top no node is flagged for merging or marked visited. */
  predicate WellFormed(t: Tree) {
    t == Nil || (
      t.size == |t.values| && 1 <= t.size <= 2 && BinaryTrees.Sorted(t.values) && !t.isVisited
      && (t.min == Nil ==> t.mid == Nil && t.max == Nil)
      && (t.min != Nil ==> t.max != Nil && (t.mid != Nil <==> t.size == 2))
      && WellFormed(t.min) && Settled(t.min)
      && WellFormed(t.mid) && Settled(t.mid)
      && WellFormed(t.max) && Settled(t.max))
  }

  /** `get(node, index)`: the key at `index`, or null when the node holds no
      more than `index` keys. */
  function Get(t: Tree, index: nat): (r: Option<int>)
    requires t.Node? && t.size == |t.values|
    ensures r.Some? <==> index < t.size
    ensures r.Some? ==> r.value == t.values[index]
  {
    if t.size > index then Some(t.values[index]) else None
  }

  /** `getMin`: the first key, which in a sorted buffer is the smallest. */
  function GetMin(t: Tree): (r: Option<int>)
    requires t.Node? && t.size == |t.values|
    ensures r.Some? <==> t.size >= 1
    ensures r.Some? && BinaryTrees.Sorted(t.values) ==> forall k | 0 <= k < |t.values| :: r.value <= t.values[k]
  {
    Get(t, 0)
  }

  /** `getMid`: the second key, or null for a 1-key node. */
  function GetMid(t: Tree): (r: Option<int>)
    requires t.Node? && t.size == |t.values|
    ensures r.Some? <==> t.size >= 2
    ensures r.Some? ==> r.value == t.values[1]
  {
    Get(t, 1)
  }

  /** `getMax`: the last key, which in a sorted buffer is the largest. */
  function GetMax(t: Tree): (r: int)
    requires t.Node? && 1 <= t.size == |t.values|
    ensures r in t.values
    ensures BinaryTrees.Sorted(t.values) ==> forall k | 0 <= k < |t.values| :: t.values[k] <= r
  {
    t.values[t.size - 1]
  }

  /** `split`: a node with fewer than three keys is returned as it is. One
      with three keeps only the middle key and is flagged for merging; its
      new `min` child holds the smallest key over the old `min` and `mid`
      subtrees, and its new `max` child the largest key over the old `max`
      subtree. */
  function Split(t: Tree): (r: Tree)
    requires t.Node? && t.size == |t.values| && 1 <= t.size <= 3
    ensures t.size < 3 ==> r == t
    ensures t.size == 3 ==>
      r.Node? && r.values == [t.values[1]] && r.size == 1 && r.isMerge && r.mid == t.mid
      && r.min == Node([t.values[0]], 1, false, false, t.min, Nil, t.mid)
      && r.max == Node([t.values[2]], 1, false, false, Nil, Nil, t.max)
  {
    if t.size < 3 then t
    else
      var minNode := Node([GetMin(t).value], 1, false, false, t.min, Nil, t.mid);
      var maxNode := Node([GetMax(t)], 1, false, false, Nil, Nil, t.max);
      t.(min := minNode, max := maxNode, values := [GetMid(t).value], size := 1, isMerge := true)
  }

  /** `twoNodeMerge`: a 1-key parent takes the flagged child's key and, on
      the child's side, the child's two subtrees in place of the child. */
  function TwoNodeMerge(n: Tree, c: Tree, pos: Position): (r: Tree)
    requires n.Node? && n.size == |n.values| && c.Node? && 1 <= c.size == |c.values|
    ensures r.Node? && r.values == BinaryTrees.InsertRight(n.values, c.values[0]) && r.size == n.size + 1
    ensures r.isMerge == n.isMerge && r.isVisited == n.isVisited
    ensures pos == MIN ==> r.min == c.min && r.mid == c.max && r.max == n.max
    ensures pos == MAX ==> r.min == n.min && r.mid == c.min && r.max == c.max
  {
    var v := n.(values := BinaryTrees.InsertRight(n.values, GetMin(c).value), size := n.size + 1);
    match pos
    case MIN => v.(min := c.min, mid := c.max)
    case MAX => v.(mid := c.min, max := c.max)
    case MID => v
  }

  /** `threeNodeMerge`: a 2-key parent takes the flagged child's key, and
      the three keys are spread over a new parent holding the middle one,
      flagged for merging, and two new 1-key children holding the smallest
      and the largest; the four subtrees (the flagged child's two and the
      parent's two others) go under the new children in key order. */
  function ThreeNodeMerge(n: Tree, c: Tree, pos: Position): (r: Tree)
    requires n.Node? && n.size == |n.values| == 2 && c.Node? && 1 <= c.size == |c.values|
    ensures var s := BinaryTrees.InsertRight(n.values, c.values[0]);
      r.Node? && r.values == [s[1]] && r.size == 1 && r.isMerge && !r.isVisited && r.mid == Nil
      && r.min.Node? && r.min.values == [s[0]] && r.min.size == 1 && !r.min.isMerge && r.min.mid == Nil
      && r.max.Node? && r.max.values == [s[2]] && r.max.size == 1 && !r.max.isMerge && r.max.mid == Nil
    ensures pos == MIN ==> r.min.min == c.min && r.min.max == c.max && r.max.min == n.mid && r.max.max == n.max
    ensures pos == MID ==> r.min.min == n.min && r.min.max == c.min && r.max.min == c.max && r.max.max == n.max
    ensures pos == MAX ==> r.min.min == n.min && r.min.max == n.mid && r.max.min == c.min && r.max.max == c.max
  {
    var v := n.(values := BinaryTrees.InsertRight(n.values, GetMin(c).value), size := n.size + 1);
    var lo, mid, hi := GetMin(v).value, GetMid(v).value, GetMax(v);
    match pos
    case MIN =>
      Node([mid], 1, true, false, Node([lo], 1, false, false, c.min, Nil, c.max), Nil,
                                  Node([hi], 1, false, false, v.mid, Nil, v.max))
    case MID =>
      Node([mid], 1, true, false, Node([lo], 1, false, false, v.min, Nil, c.min), Nil,
                                  Node([hi], 1, false, false, c.max, Nil, v.max))
    case MAX =>
      Node([mid], 1, true, false, Node([lo], 1, false, false, v.min, Nil, v.mid), Nil,
                                  Node([hi], 1, false, false, c.min, Nil, c.max))
  }

  /** `merge`: nothing happens unless the child is flagged; a 1-key parent
      absorbs it with `twoNodeMerge`, any other with `threeNodeMerge`. */
  function Merge(n: Tree, c: Tree, pos: Position): (r: Tree)
    requires n.Node? && n.size == |n.values| && 1 <= n.size <= 2
    requires c.Node? && c.isMerge ==> 1 <= c.size == |c.values|
    ensures c == Nil || !c.isMerge ==> r == n
  {
    if c == Nil || !c.isMerge then n
    else if n.size == 1 then TwoNodeMerge(n, c, pos)
    else ThreeNodeMerge(n, c, pos)
  }

  /** `add(node, e)`. A null node becomes a new 1-key leaf. Otherwise `e`
      goes down to `min` when it is at most the smallest key, to `mid` when
      it lies strictly between the two keys, and to `max` when it exceeds the
      largest key (or, with `inclusiveMax`, equals it), and the returned child
      is merged. A node without a `min` child (a leaf) takes `e` in sorted
      position and is split. Any other key is dropped. The source is the
      case `inclusiveMax == false`. */
  function AddNode(t: Tree, e: int, inclusiveMax: bool): (r: Tree)
    requires WellFormed(t)
    ensures r.Node? && 1 <= r.size == |r.values|
  {
    if t == Nil then NewNode(e)
    else if t.min != Nil && e <= GetMin(t).value then
      var c := AddNode(t.min, e, inclusiveMax);
      Merge(t.(min := c), c, MIN)
    else if t.mid != Nil && e > GetMin(t).value && e < GetMid(t).value then
      var c := AddNode(t.mid, e, inclusiveMax);
      Merge(t.(mid := c), c, MID)
    else if t.max != Nil && (if inclusiveMax then e >= GetMax(t) else e > GetMax(t)) then
      var c := AddNode(t.max, e, inclusiveMax);
      Merge(t.(max := c), c, MAX)
    else if t.min == Nil then
      BinaryTrees.InsertRightSorted(t.values, e);
      Split(t.(values := BinaryTrees.InsertRight(t.values, e), size := t.size + 1))
    else t
  }

  /** The node `t` with its child at `pos` replaced by `c`. */
  function Put(t: Tree, pos: Position, c: Tree): (r: Tree)
    requires t.Node?
    ensures r.Node? && r.values == t.values && r.size == t.size && r.isMerge == t.isMerge
    ensures pos == MIN ==> r.min == c && r.mid == t.mid && r.max == t.max
    ensures pos == MID ==> r.min == t.min && r.mid == c && r.max == t.max
    ensures pos == MAX ==> r.min == t.min && r.mid == t.mid && r.max == c
  {
    match pos
    case MIN => t.(min := c)
    case MID => t.(mid := c)
    case MAX => t.(max := c)
  }

  /** A 1-key internal node absorbing a flagged 1-key child is a
      well-formed 2-key node. */
  lemma TwoMergeWellFormed(t: Tree, c: Tree, pos: Position)
    requires t.Node? && WellFormed(t) && t.min != Nil && t.size == 1 && pos != MID
    requires c.Node? && WellFormed(c) && c.size == 1 && c.min != Nil
    ensures var r := TwoNodeMerge(Put(t, pos, c), c, pos);
      WellFormed(r) && r.isMerge == t.isMerge
  {
    BinaryTrees.InsertRightSorted(t.values, c.values[0]);
  }

  /** A 2-key internal node absorbing a flagged 1-key child is a flagged
      1-key node over two well-formed 1-key nodes. */
  lemma ThreeMergeWellFormed(t: Tree, c: Tree, pos: Position)
    requires t.Node? && WellFormed(t) && t.min != Nil && t.size == 2
    requires c.Node? && WellFormed(c) && c.size == 1 && c.min != Nil
    ensures var r := ThreeNodeMerge(Put(t, pos, c), c, pos);
      WellFormed(r) && r.size == 1 && r.min != Nil
  {
    var r := ThreeNodeMerge(Put(t, pos, c), c, pos);
    assert WellFormed(r.min) && WellFormed(r.max);
  }

  /** Merging a well-formed child returned by an add into an internal node
      gives a well-formed node, flagged only when it holds one key over two
      children. */
  lemma MergeWellFormed(t: Tree, c: Tree, pos: Position)
    requires t.Node? && WellFormed(t) && t.min != Nil && c.Node? && WellFormed(c)
    requires c.isMerge ==> c.size == 1 && c.min != Nil
    requires pos == MID ==> t.mid != Nil
    ensures var r := Merge(Put(t, pos, c), c, pos);
      WellFormed(r) && (r.isMerge && Settled(t) ==> r.size == 1 && r.min != Nil)
  {
    if c.isMerge {
      if t.size == 1 {
        TwoMergeWellFormed(t, c, pos);
      } else {
        ThreeMergeWellFormed(t, c, pos);
      }
    }
  }

  /** A leaf that takes a key stays a well-formed leaf, or splits into a
      flagged 1-key node over two 1-key leaves. */
  lemma LeafAddWellFormed(t: Tree, e: int)
    requires WellFormed(t) && t.Node? && t.min == Nil
    ensures var r := Split(t.(values := BinaryTrees.InsertRight(t.values, e), size := t.size + 1));
      WellFormed(r) && (r.isMerge && Settled(t) ==> r.size == 1 && r.min != Nil)
  {
    BinaryTrees.InsertRightSorted(t.values, e);
    var v := t.(values := BinaryTrees.InsertRight(t.values, e), size := t.size + 1);
    if v.size == 3 {
      var r := Split(v);
      assert WellFormed(r.min) && WellFormed(r.max);
    }
  }

  /** After an add every node again holds one or two ascending keys with
      the children that go with them, and only the returned node can be
      flagged for merging; a flagged result under an unflagged node holds
      one key over two children, ready to be merged into its parent. */
  lemma {:induction false} AddWellFormed(t: Tree, e: int, inclusiveMax: bool)
    requires WellFormed(t)
    ensures var r := AddNode(t, e, inclusiveMax);
      WellFormed(r) && (r.isMerge && Settled(t) ==> r.size == 1 && r.min != Nil)
  {
    if t == Nil {
    } else if t.min != Nil && e <= GetMin(t).value {
      AddWellFormed(t.min, e, inclusiveMax);
      MergeWellFormed(t, AddNode(t.min, e, inclusiveMax), MIN);
    } else if t.mid != Nil && e > GetMin(t).value && e < GetMid(t).value {
      AddWellFormed(t.mid, e, inclusiveMax);
      MergeWellFormed(t, AddNode(t.mid, e, inclusiveMax), MID);
    } else if t.max != Nil && (if inclusiveMax then e >= GetMax(t) else e > GetMax(t)) {
      AddWellFormed(t.max, e, inclusiveMax);
      MergeWellFormed(t, AddNode(t.max, e, inclusiveMax), MAX);
    } else if t.min == Nil {
      LeafAddWellFormed(t, e);
    }
  }

  /** The child of `t` at `pos`. */
  function Child(t: Tree, pos: Position): (c: Tree)
    requires t.Node?
    ensures Put(t, pos, c) == t && c < t
  {
    match pos
    case MIN => t.min
    case MID => t.mid
    case MAX => t.max
  }

  /** The number of levels, counted down the `min` links. */
  function Depth(t: Tree): nat {
    if t == Nil then 0 else 1 + Depth(t.min)
  }

  /** Every leaf lies at the same depth: at each node the `mid` and `max`
      subtrees are as deep as the `min` subtree. */
  predicate Balanced(t: Tree) {
    t == Nil || (
      Balanced(t.min) && Balanced(t.mid) && Balanced(t.max)
      && (t.mid != Nil ==> Depth(t.mid) == Depth(t.min))
      && (t.max != Nil ==> Depth(t.max) == Depth(t.min)))
  }

  /** A 2-3 tree as adds build it: well formed with all leaves at one depth. */
  predicate TwoThree(t: Tree) {
    WellFormed(t) && Balanced(t)
  }

  /** Merging a child that has grown one level taller into its parent keeps
      every leaf at one depth; the result is as deep as the parent, or one
      level deeper and flagged when the parent held two keys. A child of
      unchanged depth leaves the parent as it is. */
  lemma MergeBalanced(t: Tree, c: Tree, pos: Position)
    requires t.Node? && TwoThree(t) && t.min != Nil && c.Node? && TwoThree(c)
    requires pos == MID ==> t.mid != Nil
    requires c.isMerge ==> c.size == 1 && c.min != Nil && Depth(c) == Depth(Child(t, pos)) + 1
    requires !c.isMerge ==> Depth(c) == Depth(Child(t, pos))
    ensures var r := Merge(Put(t, pos, c), c, pos);
      Balanced(r)
      && (Depth(r) == Depth(t) || (r.isMerge && r.size == 1 && Depth(r) == Depth(t) + 1))
      && (Settled(t) && r.isMerge ==> Depth(r) == Depth(t) + 1)
  {
    if c.isMerge {
      if t.size == 1 {
        TwoMergeWellFormed(t, c, pos);
      } else {
        ThreeMergeWellFormed(t, c, pos);
        var r := ThreeNodeMerge(Put(t, pos, c), c, pos);
        assert Balanced(r.min) && Balanced(r.max);
      }
    }
  }

  /** An add keeps every leaf at one depth. The tree grows by one level
      exactly when the returned node is newly flagged, that is when the
      split has travelled all the way up. */
  lemma {:induction false} AddBalanced(t: Tree, e: int, inclusiveMax: bool)
    requires TwoThree(t)
    decreases t, 1
    ensures var r := AddNode(t, e, inclusiveMax);
      Balanced(r)
      && (t == Nil ==> Depth(r) == 1)
      && (t != Nil ==> Depth(r) == Depth(t) || (r.isMerge && r.size == 1 && Depth(r) == Depth(t) + 1))
      && (t != Nil && Settled(t) && r.isMerge ==> Depth(r) == Depth(t) + 1)
  {
    if t == Nil {
    } else if t.min != Nil && e <= GetMin(t).value {
      AddChildBalanced(t, e, inclusiveMax, MIN);
    } else if t.mid != Nil && e > GetMin(t).value && e < GetMid(t).value {
      AddChildBalanced(t, e, inclusiveMax, MID);
    } else if t.max != Nil && (if inclusiveMax then e >= GetMax(t) else e > GetMax(t)) {
      AddChildBalanced(t, e, inclusiveMax, MAX);
    } else if t.min == Nil {
      var v := t.(values := BinaryTrees.InsertRight(t.values, e), size := t.size + 1);
      assert v.min == Nil && v.mid == Nil && v.max == Nil && Depth(t) == 1;
      if v.size == 3 {
        var r := Split(v);
        assert Depth(r.min) == 1 && Depth(r.max) == 1 && Balanced(r.min) && Balanced(r.max);
        assert Depth(r) == 2;
      } else {
        assert Split(v) == v && Depth(v) == 1 && Balanced(v);
      }
    }
  }

  /** The step of `AddBalanced` where `e` goes down to the child at `pos`. */
  lemma {:induction false} AddChildBalanced(t: Tree, e: int, inclusiveMax: bool, pos: Position)
    requires t.Node? && TwoThree(t) && t.min != Nil && Child(t, pos) != Nil
    decreases t, 0
    ensures var c := AddNode(Child(t, pos), e, inclusiveMax); var r := Merge(Put(t, pos, c), c, pos);
      Balanced(r)
      && (Depth(r) == Depth(t) || (r.isMerge && r.size == 1 && Depth(r) == Depth(t) + 1))
      && (Settled(t) && r.isMerge ==> Depth(r) == Depth(t) + 1)
  {
    AddBalanced(Child(t, pos), e, inclusiveMax);
    AddWellFormed(Child(t, pos), e, inclusiveMax);
    MergeBalanced(t, AddNode(Child(t, pos), e, inclusiveMax), pos);
  }

  /** Adds keep a tree a 2-3 tree. */
  lemma AddTwoThree(t: Tree, e: int, inclusiveMax: bool)
    requires TwoThree(t)
    ensures TwoThree(AddNode(t, e, inclusiveMax))
  {
    AddWellFormed(t, e, inclusiveMax);
    AddBalanced(t, e, inclusiveMax);
  }

  /** The in-order the stack-driven walk produces: the `min` subtree, the
      first key, the `mid` subtree, the remaining key, the `max` subtree. */
  function Inorder(t: Tree): (s: seq<int>) {
    if t == Nil then []
    else if t.values == [] then Inorder(t.min) + Inorder(t.mid) + Inorder(t.max)
    else Inorder(t.min) + [t.values[0]] + Inorder(t.mid) + t.values[1..] + Inorder(t.max)
  }

  /** The part of a node's in-order that comes before its child at `pos`. */
  function Before(t: Tree, pos: Position): seq<int>
    requires t.Node? && t.values != []
  {
    match pos
    case MIN => []
    case MID => Inorder(t.min) + [t.values[0]]
    case MAX => Inorder(t.min) + [t.values[0]] + Inorder(t.mid) + t.values[1..]
  }

  /** The part of a node's in-order that comes after its child at `pos`. */
  function After(t: Tree, pos: Position): seq<int>
    requires t.Node? && t.values != []
  {
    match pos
    case MIN => [t.values[0]] + Inorder(t.mid) + t.values[1..] + Inorder(t.max)
    case MID => t.values[1..] + Inorder(t.max)
    case MAX => []
  }

  /** A node's in-order around its child at `pos`, whatever that child is. */
  lemma InorderAround(t: Tree, pos: Position, c: Tree)
    requires t.Node? && t.values != []
    ensures Inorder(Put(t, pos, c)) == Before(t, pos) + Inorder(c) + After(t, pos)
  {
    var n := Put(t, pos, c);
    Regroup(Inorder(n.min), [t.values[0]], Inorder(n.mid), t.values[1..], Inorder(n.max));
  }

  /** The three ways of cutting a five-piece concatenation around one piece. */
  lemma Regroup(a: seq<int>, b: seq<int>, c: seq<int>, d: seq<int>, e: seq<int>)
    ensures a + b + c + d + e == [] + a + (b + c + d + e)
    ensures a + b + c + d + e == (a + b) + c + (d + e)
    ensures a + b + c + d + e == (a + b + c + d) + e + []
  {
  }

  /** Where a sorted 1-key buffer puts a new key. */
  lemma InsertIntoOne(v: int, w: int)
    ensures BinaryTrees.InsertRight([v], w) == if w <= v then [w, v] else [v, w]
  {
    assert [v][1..] == [];
  }

  /** A key at most both keys of a sorted 2-key buffer goes first. */
  lemma InsertBeforeTwo(v0: int, v1: int, w: int)
    requires w <= v0 <= v1
    ensures BinaryTrees.InsertRight([v0, v1], w) == [w, v0, v1]
  {
    var buffer := [v0, v1];
    assert buffer[0] == v0 && buffer[1..] == [v1];
    InsertIntoOne(v1, w);
    if v0 <= w {
      assert BinaryTrees.InsertRight(buffer, w) == [v0] + BinaryTrees.InsertRight([v1], w);
    }
  }

  /** A key between the keys of a sorted 2-key buffer goes in the middle. */
  lemma InsertBetweenTwo(v0: int, v1: int, w: int)
    requires v0 <= w <= v1
    ensures BinaryTrees.InsertRight([v0, v1], w) == [v0, w, v1]
  {
    var buffer := [v0, v1];
    assert buffer[0] == v0 && buffer[1..] == [v1];
    InsertIntoOne(v1, w);
    if v0 <= w {
      assert BinaryTrees.InsertRight(buffer, w) == [v0] + BinaryTrees.InsertRight([v1], w);
    }
  }

  /** A key at least both keys of a sorted 2-key buffer goes last. */
  lemma InsertAfterTwo(v0: int, v1: int, w: int)
    requires v0 <= v1 <= w
    ensures BinaryTrees.InsertRight([v0, v1], w) == [v0, v1, w]
  {
    var buffer := [v0, v1];
    assert buffer[0] == v0 && buffer[1..] == [v1];
    InsertIntoOne(v1, w);
    if v0 <= w {
      assert BinaryTrees.InsertRight(buffer, w) == [v0] + BinaryTrees.InsertRight([v1], w);
    }
  }

  /** The in-order of a flagged 1-key node. */
  lemma FlaggedInorder(c: Tree)
    requires c.Node? && WellFormed(c) && c.size == 1 && c.min != Nil
    ensures Inorder(c) == Inorder(c.min) + [c.values[0]] + Inorder(c.max)
  {
    assert c.values[1..] == [];
  }

  /** A position in an ordered in-order gives the order of two keys. */
  lemma SortedAt(s: seq<int>, i: nat, j: nat)
    requires BinaryTrees.Sorted(s) && i <= j < |s|
    ensures s[i] <= s[j]
  {
  }

  /** In an ordered node whose `min` child is a flagged 1-key node, the
      child's key is at most the parent's first key. */
  lemma FlaggedMinOrder(t: Tree, c: Tree)
    requires t.Node? && t.values != [] && c.Node? && c.size == |c.values| == 1 && c.mid == Nil
    requires BinaryTrees.Sorted(Inorder(Put(t, MIN, c)))
    ensures c.values[0] <= t.values[0]
  {
    var v0, w := t.values[0], c.values[0];
    assert c.values == [w];
    InorderAround(t, MIN, c);
    OneKeyInorder(c);
    var cm, cx, z := Inorder(c.min), Inorder(c.max), Inorder(t.mid) + t.values[1..] + Inorder(t.max);
    var s := Inorder(Put(t, MIN, c));
    assert After(t, MIN) == [v0] + z;
    assert s == (cm + [w] + cx) + ([v0] + z);
    assert s[|cm|] == w && s[|cm| + 1 + |cx|] == v0;
    SortedAt(s, |cm|, |cm| + 1 + |cx|);
  }

  /** In an ordered node whose `max` child is a flagged 1-key node, the
      child's key is at least the parent's last key. */
  lemma FlaggedMaxOrder(t: Tree, c: Tree)
    requires t.Node? && 1 <= |t.values| <= 2 && (|t.values| == 1 ==> t.mid == Nil)
    requires c.Node? && c.size == |c.values| == 1 && c.mid == Nil
    requires BinaryTrees.Sorted(Inorder(Put(t, MAX, c)))
    ensures t.values[|t.values| - 1] <= c.values[0]
  {
    var last, w := t.values[|t.values| - 1], c.values[0];
    assert c.values == [w];
    if |t.values| == 2 {
      assert t.values[1..] == [last];
    } else {
      assert t.values[1..] == [] && Inorder(t.mid) == [];
    }
    InorderAround(t, MAX, c);
    OneKeyInorder(c);
    var b, cm, cx := Before(t, MAX), Inorder(c.min), Inorder(c.max);
    assert b != [] && b[|b| - 1] == last;
    var s := Inorder(Put(t, MAX, c));
    assert s == b + (cm + [w] + cx) + [];
    assert s[|b| - 1] == last && s[|b| + |cm|] == w;
    SortedAt(s, |b| - 1, |b| + |cm|);
  }

  /** In an ordered node whose `mid` child is a flagged 1-key node, the
      child's key lies between the parent's two keys. */
  lemma FlaggedMidOrder(t: Tree, c: Tree)
    requires t.Node? && |t.values| == 2 && c.Node? && c.size == |c.values| == 1 && c.mid == Nil
    requires BinaryTrees.Sorted(Inorder(Put(t, MID, c)))
    ensures t.values[0] <= c.values[0] <= t.values[1]
  {
    var v0, v1, w := t.values[0], t.values[1], c.values[0];
    assert c.values == [w] && t.values[1..] == [v1];
    InorderAround(t, MID, c);
    OneKeyInorder(c);
    var a, cm, cx, z := Inorder(t.min) + [v0], Inorder(c.min), Inorder(c.max), [v1] + Inorder(t.max);
    var s := Inorder(Put(t, MID, c));
    assert Before(t, MID) == a && After(t, MID) == z;
    assert s == a + (cm + [w] + cx) + z;
    assert s[|a| - 1] == v0 && s[|a| + |cm|] == w && s[|a| + |cm| + 1 + |cx|] == v1;
    SortedAt(s, |a| - 1, |a| + |cm|);
    SortedAt(s, |a| + |cm|, |a| + |cm| + 1 + |cx|);
  }

  /** `twoNodeMerge` of a `min` child whose key is at most the parent's
      keeps the in-order. */
  lemma TwoMergeInorderMin(t: Tree, c: Tree)
    requires t.Node? && t.size == |t.values| == 1 && t.mid == Nil
    requires c.Node? && c.size == |c.values| == 1 && c.mid == Nil
    requires c.values[0] <= t.values[0]
    ensures Inorder(TwoNodeMerge(Put(t, MIN, c), c, MIN)) == Inorder(Put(t, MIN, c))
  {
    var v, w := t.values[0], c.values[0];
    assert t.values == [v] && c.values == [w];
    InsertIntoOne(v, w);
    var p := Put(t, MIN, c);
    var r := TwoNodeMerge(p, c, MIN);
    assert r.values == [w, v];
    TwoKeyInorder(r);
    OneKeyInorder(p);
    OneKeyInorder(c);
    var a, b, d := Inorder(c.min), Inorder(c.max), Inorder(t.max);
    assert Inorder(r) == a + [w] + b + [v] + d;
    assert Inorder(p) == (a + [w] + b) + [v] + d;
  }

  /** `twoNodeMerge` of a `max` child whose key is at least the parent's
      keeps the in-order. */
  lemma TwoMergeInorderMax(t: Tree, c: Tree)
    requires t.Node? && t.size == |t.values| == 1 && t.mid == Nil
    requires c.Node? && c.size == |c.values| == 1 && c.mid == Nil
    requires t.values[0] <= c.values[0]
    ensures Inorder(TwoNodeMerge(Put(t, MAX, c), c, MAX)) == Inorder(Put(t, MAX, c))
  {
    var v, w := t.values[0], c.values[0];
    assert t.values == [v] && c.values == [w];
    InsertIntoOne(v, w);
    var p := Put(t, MAX, c);
    var r := TwoNodeMerge(p, c, MAX);
    assert r.values == [v, w];
    TwoKeyInorder(r);
    OneKeyInorder(p);
    OneKeyInorder(c);
    var a, b, d := Inorder(t.min), Inorder(c.min), Inorder(c.max);
    assert Inorder(r) == a + [v] + b + [w] + d;
    assert Inorder(p) == a + [v] + (b + [w] + d);
    RegroupTail(a, [v], b, [w], d);
  }

  lemma RegroupTail(a: seq<int>, b: seq<int>, c: seq<int>, d: seq<int>, e: seq<int>)
    ensures a + b + (c + d + e) == a + b + c + d + e
  {
  }

  /** The in-order of a 2-key node. */
  lemma TwoKeyInorder(n: Tree)
    requires n.Node? && |n.values| == 2
    ensures Inorder(n) == Inorder(n.min) + [n.values[0]] + Inorder(n.mid) + [n.values[1]] + Inorder(n.max)
  {
    assert n.values[1..] == [n.values[1]];
  }

  /** The in-order of a 1-key node: its `min` subtree, its key, its `max`
      subtree. */
  lemma OneKeyInorder(n: Tree)
    requires n.Node? && |n.values| == 1 && n.mid == Nil
    ensures Inorder(n) == Inorder(n.min) + n.values + Inorder(n.max)
  {
    assert n.values == [n.values[0]] && n.values[1..] == [];
  }

  lemma RegroupMin(a: seq<int>, b: seq<int>, c: seq<int>, d: seq<int>, e: seq<int>)
    ensures a + b + (c + d + e) == [] + a + (b + c + d + e)
  {
  }

  lemma RegroupMid(a: seq<int>, b: seq<int>, c: seq<int>, d: seq<int>, e: seq<int>, f: seq<int>, g: seq<int>)
    ensures (a + b + c) + d + (e + f + g) == (a + b) + (c + d + e) + (f + g)
  {
  }

  lemma RegroupMax(a: seq<int>, b: seq<int>, c: seq<int>, d: seq<int>, e: seq<int>)
    ensures (a + b + c) + d + e == (a + b + c + d) + e + []
  {
  }

  /** `threeNodeMerge` of a `min` child whose key is at most the parent's
      keeps the in-order. */
  lemma ThreeMergeInorderMin(t: Tree, c: Tree)
    requires t.Node? && t.size == |t.values| == 2 && t.values[0] <= t.values[1]
    requires c.Node? && c.size == |c.values| == 1 && c.mid == Nil
    requires c.values[0] <= t.values[0]
    ensures Inorder(ThreeNodeMerge(Put(t, MIN, c), c, MIN)) == Inorder(Put(t, MIN, c))
  {
    var v0, v1, w := t.values[0], t.values[1], c.values[0];
    var r := ThreeNodeMerge(Put(t, MIN, c), c, MIN);
    assert r.values == [v0] && r.min.values == [w] && r.max.values == [v1] by {
      assert t.values == [v0, v1];
      InsertBeforeTwo(v0, v1, w);
    }
    assert After(t, MIN) == [v0] + Inorder(t.mid) + [v1] + Inorder(t.max) by {
      assert t.values[1..] == [v1];
    }
    InorderAround(t, MIN, c);
    OneKeyInorder(r);
    OneKeyInorder(r.min);
    OneKeyInorder(r.max);
    OneKeyInorder(c);
    RegroupMin(Inorder(c), [v0], Inorder(t.mid), [v1], Inorder(t.max));
  }

  /** `threeNodeMerge` of a `mid` child whose key lies between the parent's
      keeps the in-order. */
  lemma ThreeMergeInorderMid(t: Tree, c: Tree)
    requires t.Node? && t.size == |t.values| == 2
    requires c.Node? && c.size == |c.values| == 1 && c.mid == Nil
    requires t.values[0] <= c.values[0] <= t.values[1]
    ensures Inorder(ThreeNodeMerge(Put(t, MID, c), c, MID)) == Inorder(Put(t, MID, c))
  {
    var v0, v1, w := t.values[0], t.values[1], c.values[0];
    var r := ThreeNodeMerge(Put(t, MID, c), c, MID);
    assert r.values == [w] && r.min.values == [v0] && r.max.values == [v1] by {
      assert t.values == [v0, v1];
      InsertBetweenTwo(v0, v1, w);
    }
    assert After(t, MID) == [v1] + Inorder(t.max) by {
      assert t.values[1..] == [v1];
    }
    InorderAround(t, MID, c);
    OneKeyInorder(r);
    OneKeyInorder(r.min);
    OneKeyInorder(r.max);
    assert c.values == [w];
    OneKeyInorder(c);
    RegroupMid(Inorder(t.min), [v0], Inorder(c.min), [w], Inorder(c.max), [v1], Inorder(t.max));
  }

  /** Where `threeNodeMerge` of a `max` child puts the three keys. */
  lemma ThreeMergeKeysMax(t: Tree, c: Tree)
    requires t.Node? && t.size == |t.values| == 2 && t.values[0] <= t.values[1]
    requires c.Node? && c.size == |c.values| == 1
    requires t.values[1] <= c.values[0]
    ensures var r := ThreeNodeMerge(Put(t, MAX, c), c, MAX);
      r.values == [t.values[1]] && r.min.values == [t.values[0]] && r.max.values == [c.values[0]]
  {
    assert t.values == [t.values[0], t.values[1]];
    InsertAfterTwo(t.values[0], t.values[1], c.values[0]);
  }

  /** `threeNodeMerge` of a `max` child whose key is at least the parent's
      keeps the in-order. */
  lemma ThreeMergeInorderMax(t: Tree, c: Tree)
    requires t.Node? && t.size == |t.values| == 2 && t.values[0] <= t.values[1]
    requires c.Node? && c.size == |c.values| == 1 && c.mid == Nil
    requires t.values[1] <= c.values[0]
    ensures Inorder(ThreeNodeMerge(Put(t, MAX, c), c, MAX)) == Inorder(Put(t, MAX, c))
  {
    var v0, v1, w := t.values[0], t.values[1], c.values[0];
    var r := ThreeNodeMerge(Put(t, MAX, c), c, MAX);
    ThreeMergeKeysMax(t, c);
    assert Before(t, MAX) == Inorder(t.min) + [v0] + Inorder(t.mid) + [v1] by {
      assert t.values[1..] == [v1];
    }
    assert After(t, MAX) == [];
    InorderAround(t, MAX, c);
    OneKeyInorder(r);
    OneKeyInorder(r.min);
    OneKeyInorder(r.max);
    assert c.values == [w];
    OneKeyInorder(c);
    assert Inorder(r.max) == Inorder(c);
    assert Inorder(r.min) == Inorder(t.min) + [v0] + Inorder(t.mid);
    RegroupMax(Inorder(t.min), [v0], Inorder(t.mid), [v1], Inorder(c));
  }

  /** In an ordered tree a merge keeps the in-order: keys move between
      nodes but their order is the same. */
  lemma MergeInorder(t: Tree, c: Tree, pos: Position)
    requires t.Node? && WellFormed(t) && t.min != Nil && c.Node? && WellFormed(c)
    requires c.isMerge ==> c.size == 1 && c.min != Nil
    requires pos == MID ==> t.mid != Nil
    requires BinaryTrees.Sorted(Inorder(Put(t, pos, c)))
    ensures Inorder(Merge(Put(t, pos, c), c, pos)) == Inorder(Put(t, pos, c))
  {
    if c.isMerge {
      match pos
      case MIN =>
        FlaggedMinOrder(t, c);
        if t.size == 1 { TwoMergeInorderMin(t, c); } else { ThreeMergeInorderMin(t, c); }
      case MID =>
        FlaggedMidOrder(t, c);
        ThreeMergeInorderMid(t, c);
      case MAX =>
        FlaggedMaxOrder(t, c);
        if t.size == 1 { TwoMergeInorderMax(t, c); } else { ThreeMergeInorderMax(t, c); }
    }
  }

  /** The tree is a search tree: its in-order is ascending. */
  predicate Ordered(t: Tree) {
    BinaryTrees.Sorted(Inorder(t))
  }

  /** The first element of an ascending sequence is its smallest and the
      last its largest. */
  lemma SortedEnds(s: seq<int>)
    requires BinaryTrees.Sorted(s) && s != []
    ensures forall k :: 0 <= k < |s| ==> s[0] <= s[k] <= s[|s| - 1]
  {
  }

  /** The in-order of a leaf is its key buffer. */
  lemma LeafInorder(t: Tree)
    requires t.Node? && t.values != [] && t.min == Nil && t.mid == Nil && t.max == Nil
    ensures Inorder(t) == t.values
  {
    assert t.values == [t.values[0]] + t.values[1..];
  }

  /** Splitting a 3-key leaf keeps its keys in order. */
  lemma SplitLeafInorder(v: Tree)
    requires v.Node? && v.size == |v.values| == 3 && v.min == Nil && v.mid == Nil && v.max == Nil
    ensures Inorder(Split(v)) == v.values
  {
    var r := Split(v);
    assert r.values[1..] == [] && r.min.values[1..] == [] && r.max.values[1..] == [];
    assert Inorder(r.min) == [v.values[0]];
    assert Inorder(r.max) == [v.values[2]];
    assert Inorder(r) == [v.values[0]] + [v.values[1]] + [v.values[2]];
  }

  /** A leaf that takes a key, split or not, holds its keys in the order of
      the sorted buffer. */
  lemma LeafAddInorder(t: Tree, e: int)
    requires WellFormed(t) && t.Node? && t.min == Nil
    ensures Inorder(Split(t.(values := BinaryTrees.InsertRight(t.values, e), size := t.size + 1)))
         == BinaryTrees.InsertRight(Inorder(t), e)
  {
    LeafInorder(t);
    var v := t.(values := BinaryTrees.InsertRight(t.values, e), size := t.size + 1);
    if v.size == 3 {
      SplitLeafInorder(v);
    } else {
      LeafInorder(v);
    }
  }

  /** An add stores `e` where sorted insertion into the in-order would put
      it, or (only as the source is written, with `inclusiveMax` false)
      returns the tree unchanged. */
  lemma {:induction false} AddInorder(t: Tree, e: int, inclusiveMax: bool)
    requires WellFormed(t) && Ordered(t)
    decreases t, 1
    ensures var r := AddNode(t, e, inclusiveMax);
      Inorder(r) == BinaryTrees.InsertRight(Inorder(t), e) || (!inclusiveMax && r == t)
  {
    if t == Nil {
      LeafInorder(NewNode(e));
    } else if t.min != Nil && e <= GetMin(t).value {
      DescentBounds(t, e, MIN);
      AddChildInorder(t, e, inclusiveMax, MIN);
      var c := AddNode(t.min, e, inclusiveMax);
      assert AddNode(t, e, inclusiveMax) == Merge(Put(t, MIN, c), c, MIN);
    } else if t.mid != Nil && e > GetMin(t).value && e < GetMid(t).value {
      DescentBounds(t, e, MID);
      AddChildInorder(t, e, inclusiveMax, MID);
      var c := AddNode(t.mid, e, inclusiveMax);
      assert AddNode(t, e, inclusiveMax) == Merge(Put(t, MID, c), c, MID);
    } else if t.max != Nil && (if inclusiveMax then e >= GetMax(t) else e > GetMax(t)) {
      DescentBounds(t, e, MAX);
      AddChildInorder(t, e, inclusiveMax, MAX);
      var c := AddNode(t.max, e, inclusiveMax);
      assert AddNode(t, e, inclusiveMax) == Merge(Put(t, MAX, c), c, MAX);
    } else if t.min == Nil {
      assert AddNode(t, e, inclusiveMax)
          == Split(t.(values := BinaryTrees.InsertRight(t.values, e), size := t.size + 1));
      LeafAddInorder(t, e);
    } else {
      DescentCovers(t, e);
      assert AddNode(t, e, inclusiveMax) == t;
    }
  }

  /** In an internal node a key that goes neither to `min` nor to `mid` is
      at least the last key, so with `inclusiveMax` it always goes to `max`:
      only the source's strict comparison can drop a key. */
  lemma DescentCovers(t: Tree, e: int)
    requires t.Node? && WellFormed(t) && t.min != Nil
    requires !(e <= GetMin(t).value)
    requires !(t.mid != Nil && e > GetMin(t).value && e < GetMid(t).value)
    ensures t.max != Nil && e >= GetMax(t)
  {
  }

  /** The descent rule in an ordered node: when `e` goes to `min` it is at
      most the first key, when it goes to `mid` it lies between the keys,
      and when it goes to `max` it is at least the last key; then every key
      in the in-order before that child is at most `e` and every key after
      it at least `e`. */
  lemma DescentBounds(t: Tree, e: int, pos: Position)
    requires t.Node? && WellFormed(t) && Ordered(t) && t.min != Nil
    requires pos == MIN ==> e <= t.values[0]
    requires pos == MID ==> t.mid != Nil && t.values[0] < e < t.values[1]
    requires pos == MAX ==> t.values[|t.values| - 1] <= e
    ensures forall k :: 0 <= k < |Before(t, pos)| ==> Before(t, pos)[k] <= e
    ensures forall k :: 0 <= k < |After(t, pos)| ==> e <= After(t, pos)[k]
  {
    InorderAround(t, pos, Child(t, pos));
    BinaryTrees.SortedPieces(Before(t, pos), Inorder(Child(t, pos)), After(t, pos));
    match pos
    case MIN =>
      SortedEnds(After(t, MIN));
    case MID =>
      assert t.values[1..] == [t.values[1]];
      SortedEnds(Before(t, MID));
      SortedEnds(After(t, MID));
    case MAX =>
      if t.size == 2 {
        assert t.values[1..] == [t.values[1]];
      } else {
        assert t.values[1..] == [] && Inorder(t.mid) == [];
      }
      SortedEnds(Before(t, MAX));
  }

  /** The step of `AddInorder` where `e` goes down to the child at `pos`,
      the keys before that child being at most `e` and those after it at
      least `e`. */
  lemma {:induction false} AddChildInorder(t: Tree, e: int, inclusiveMax: bool, pos: Position)
    requires t.Node? && WellFormed(t) && Ordered(t) && t.min != Nil && Child(t, pos) != Nil
    requires forall k :: 0 <= k < |Before(t, pos)| ==> Before(t, pos)[k] <= e
    requires forall k :: 0 <= k < |After(t, pos)| ==> e <= After(t, pos)[k]
    decreases t, 0
    ensures var c := AddNode(Child(t, pos), e, inclusiveMax); var r := Merge(Put(t, pos, c), c, pos);
      Inorder(r) == BinaryTrees.InsertRight(Inorder(t), e) || (!inclusiveMax && r == t)
  {
    var child := Child(t, pos);
    var c := AddNode(child, e, inclusiveMax);
    InorderAround(t, pos, child);
    BinaryTrees.SortedPieces(Before(t, pos), Inorder(child), After(t, pos));
    AddInorder(child, e, inclusiveMax);
    AddWellFormed(child, e, inclusiveMax);
    if c != child {
      AddChildMerged(t, e, pos, c);
    }
  }

  /** The child at `pos` replaced by `c`, whose in-order has `e` inserted,
      and merged back: `e` is inserted into the node's in-order. */
  lemma AddChildMerged(t: Tree, e: int, pos: Position, c: Tree)
    requires t.Node? && WellFormed(t) && Ordered(t) && t.min != Nil && Child(t, pos) != Nil
    requires forall k :: 0 <= k < |Before(t, pos)| ==> Before(t, pos)[k] <= e
    requires forall k :: 0 <= k < |After(t, pos)| ==> e <= After(t, pos)[k]
    requires c.Node? && WellFormed(c) && (c.isMerge ==> c.size == 1 && c.min != Nil)
    requires Inorder(c) == BinaryTrees.InsertRight(Inorder(Child(t, pos)), e)
    ensures Inorder(Merge(Put(t, pos, c), c, pos)) == BinaryTrees.InsertRight(Inorder(t), e)
  {
    InorderAround(t, pos, Child(t, pos));
    InorderAround(t, pos, c);
    BinaryTrees.InsertRightMiddle(Before(t, pos), Inorder(Child(t, pos)), After(t, pos), e);
    BinaryTrees.InsertRightSorted(Inorder(t), e);
    MergeInorder(t, c, pos);
  }

  /** Adds keep a tree ordered. */
  lemma AddOrdered(t: Tree, e: int, inclusiveMax: bool)
    requires WellFormed(t) && Ordered(t)
    ensures Ordered(AddNode(t, e, inclusiveMax))
  {
    AddInorder(t, e, inclusiveMax);
    BinaryTrees.InsertRightSorted(Inorder(t), e);
  }

  /** With `inclusiveMax` an add keeps every key and stores `e` once more. */
  lemma AddStoresKey(t: Tree, e: int)
    requires WellFormed(t) && Ordered(t)
    ensures multiset(Inorder(AddNode(t, e, true))) == multiset(Inorder(t)) + multiset{e}
  {
    AddInorder(t, e, true);
  }

  /** As the source is written an add either stores `e` or leaves the tree
      as it was. */
  lemma AddStoresOrDrops(t: Tree, e: int)
    requires WellFormed(t) && Ordered(t)
    ensures var r := AddNode(t, e, false);
      multiset(Inorder(r)) == multiset(Inorder(t)) + multiset{e} || r == t
  {
    AddInorder(t, e, false);
  }

  /** The source drops a key equal to the larger key of an internal 2-key
      node: it is not below that key, not strictly between the two keys and
      not above the larger one, and the node is not a leaf. */
  lemma AddDropsLargerKey(t: Tree)
    requires t.Node? && WellFormed(t) && t.min != Nil && t.size == 2 && t.values[0] < t.values[1]
    ensures AddNode(t, t.values[1], false) == t
    ensures multiset(Inorder(AddNode(t, t.values[1], false))) != multiset(Inorder(t)) + multiset{t.values[1]}
  {
    var r := AddNode(t, t.values[1], false);
    assert r == t;
    assert multiset(Inorder(t)) + multiset{t.values[1]} != multiset(Inorder(t)) by {
      assert (multiset(Inorder(t)) + multiset{t.values[1]})[t.values[1]] == multiset(Inorder(t))[t.values[1]] + 1;
    }
  }

  /** `inorderTraversal(node, list)`, the recursive walk, as written: the
      `min` subtree, then both keys, then the `mid` and `max` subtrees. */
  function InorderAsWritten(t: Tree): seq<int> {
    if t == Nil then []
    else InorderAsWritten(t.min) + t.values + InorderAsWritten(t.mid) + InorderAsWritten(t.max)
  }

  /** The recursive walk emits the same keys as the in-order, only in
      another order. */
  lemma {:induction false} InorderAsWrittenKeys(t: Tree)
    ensures multiset(InorderAsWritten(t)) == multiset(Inorder(t))
  {
    if t != Nil {
      InorderAsWrittenKeys(t.min);
      InorderAsWrittenKeys(t.mid);
      InorderAsWrittenKeys(t.max);
      SameKeysReordered(InorderAsWritten(t.min), Inorder(t.min), InorderAsWritten(t.mid), Inorder(t.mid),
                        InorderAsWritten(t.max), Inorder(t.max), t.values);
    }
  }

  /** Pieces with the same keys, the node's keys moved from the front of
      the middle piece around it: the whole keeps its keys. */
  lemma SameKeysReordered(a: seq<int>, a': seq<int>, b: seq<int>, b': seq<int>,
                          c: seq<int>, c': seq<int>, v: seq<int>)
    requires multiset(a) == multiset(a') && multiset(b) == multiset(b') && multiset(c) == multiset(c')
    ensures v == [] ==> multiset(a + v + b + c) == multiset(a' + b' + c')
    ensures v != [] ==> multiset(a + v + b + c) == multiset(a' + [v[0]] + b' + v[1..] + c')
  {
    if v == [] {
      assert a + v == a;
    } else {
      assert v == [v[0]] + v[1..];
    }
  }

  /** The recursive walk emits a new node's only key. */
  lemma LeafAsWritten(x: int)
    ensures InorderAsWritten(NewNode(x)) == [x]
  {
    assert InorderAsWritten(Nil) == [];
    assert [x] + [] + [] == [x];
  }

  /** The three-leaf tree of `RecursiveInorderMisorders` is a 2-3 tree. */
  lemma ThreeLeavesTwoThree(a: int, b: int, c: int, d: int, e: int)
    requires a < b < c < d < e
    ensures TwoThree(Node([b, d], 2, false, false, NewNode(a), NewNode(c), NewNode(e)))
  {
    var t := Node([b, d], 2, false, false, NewNode(a), NewNode(c), NewNode(e));
    LeafShape(a);
    LeafShape(c);
    LeafShape(e);
    assert BinaryTrees.Sorted([b, d]);
    assert WellFormed(t);
    assert Balanced(t);
  }

  /** A new node is a well-formed, settled leaf one level deep. */
  lemma LeafShape(x: int)
    ensures WellFormed(NewNode(x)) && Settled(NewNode(x))
    ensures Balanced(NewNode(x)) && Depth(NewNode(x)) == 1
  {
    var n := NewNode(x);
    assert BinaryTrees.Sorted([x]);
    assert WellFormed(Nil) && Settled(Nil) && Balanced(Nil) && Depth(Nil) == 0;
    assert WellFormed(n) && !n.isMerge && Balanced(n);
  }

  /** The recursive walk puts a 2-key node's larger key before its `mid`
      subtree, so on an ordered 2-3 tree of five different keys it does not
      produce ascending keys. */
  lemma RecursiveInorderMisorders(a: int, b: int, c: int, d: int, e: int)
    requires a < b < c < d < e
    ensures var t := Node([b, d], 2, false, false, NewNode(a), NewNode(c), NewNode(e));
      TwoThree(t) && Ordered(t) && !BinaryTrees.Sorted(InorderAsWritten(t))
  {
    var t := Node([b, d], 2, false, false, NewNode(a), NewNode(c), NewNode(e));
    ThreeLeavesTwoThree(a, b, c, d, e);
    ThreeLeavesInorder(a, b, c, d, e);
    var w := [a, b, c, d, e];
    assert BinaryTrees.Sorted(w) by {
      forall i, j | 0 <= i < j < |w| ensures w[i] <= w[j] { }
    }
    ThreeLeavesAsWritten(a, b, c, d, e);
    var x := InorderAsWritten(t);
    assert x[2] == d && x[3] == c;
  }

  /** The in-order of the three-leaf tree of `RecursiveInorderMisorders`. */
  lemma ThreeLeavesInorder(a: int, b: int, c: int, d: int, e: int)
    ensures Inorder(Node([b, d], 2, false, false, NewNode(a), NewNode(c), NewNode(e))) == [a, b, c, d, e]
  {
    var t := Node([b, d], 2, false, false, NewNode(a), NewNode(c), NewNode(e));
    LeafInorder(NewNode(a));
    LeafInorder(NewNode(c));
    LeafInorder(NewNode(e));
    TwoKeyInorder(t);
    assert Inorder(t) == [a] + [b] + [c] + [d] + [e];
  }

  /** What the recursive walk emits on that tree: d before c. */
  lemma ThreeLeavesAsWritten(a: int, b: int, c: int, d: int, e: int)
    ensures InorderAsWritten(Node([b, d], 2, false, false, NewNode(a), NewNode(c), NewNode(e))) == [a, b, d, c, e]
  {
    var t := Node([b, d], 2, false, false, NewNode(a), NewNode(c), NewNode(e));
    LeafAsWritten(a);
    LeafAsWritten(c);
    LeafAsWritten(e);
    assert InorderAsWritten(t) == [a] + [b, d] + [c] + [e];
  }

  /** A node on the traversal stack below the top: an internal node whose
      `min` subtree has been walked. Once `isVisited` is set its first key and
      its `mid` subtree have been emitted too. */
  predicate Waiting(p: Tree) {
    p.Node? && 1 <= p.size == |p.values| <= 2
    && p.min != Nil && p.max != Nil && (p.mid != Nil <==> p.size == 2)
    && (p.isVisited ==> p.mid != Nil)
    && WellFormed(p.mid) && WellFormed(p.max)
  }

  /** What a stacked node still has to emit once the walk returns to it. */
  function Pending(p: Tree): seq<int> {
    if p == Nil || p.values == [] then []
    else if p.isVisited then p.values[1..] + Inorder(p.max)
    else [p.values[0]] + Inorder(p.mid) + p.values[1..] + Inorder(p.max)
  }

  /** What the stacked nodes `s` still have to emit, top (last) first. */
  function PendingAll(s: seq<Tree>): seq<int> {
    if s == [] then [] else Pending(s[|s| - 1]) + PendingAll(s[..|s| - 1])
  }

  predicate AllWaiting(s: seq<Tree>) {
    forall k :: 0 <= k < |s| ==> Waiting(s[k])
  }

  /** Pushing a node puts its pending keys in front of the rest. */
  lemma PendingPush(s: seq<Tree>, p: Tree)
    ensures PendingAll(s + [p]) == Pending(p) + PendingAll(s)
  {
    assert (s + [p])[..|s|] == s;
  }

  /** The stack below a pushed node still waits. */
  lemma AllWaitingPush(s: seq<Tree>, p: Tree)
    requires AllWaiting(s) && Waiting(p)
    ensures AllWaiting(s + [p])
  {
  }

  /** Popping the top of a waiting stack leaves a waiting stack. */
  lemma AllWaitingPop(s: seq<Tree>)
    requires s != [] && AllWaiting(s)
    ensures AllWaiting(s[..|s| - 1]) && Waiting(s[|s| - 1])
  {
  }

  /** A node's in-order is its `min` subtree followed by what it has pending
      before it is visited. */
  lemma InorderAtMin(t: Tree)
    requires t.Node? && t.values != [] && !t.isVisited
    ensures Inorder(t) == Inorder(t.min) + Pending(t)
  {
  }

  /** A node whose `max` is all that is left has its last key pending before
      its `max` subtree. */
  lemma PendingMax(p: Tree)
    requires Waiting(p) && !(p.mid != Nil && !p.isVisited)
    ensures Pending(p) == [p.values[p.size - 1]] + Inorder(p.max)
  {
    if p.isVisited {
      assert p.values[1..] == [p.values[1]];
    } else {
      assert p.values[1..] == [];
    }
  }

  /** The `isVisited` step: the first key and the `mid` subtree come off
      what a node has pending. */
  lemma PendingMid(p: Tree)
    requires Waiting(p) && p.mid != Nil && !p.isVisited
    ensures Pending(p) == [p.values[0]] + Inorder(p.mid) + Pending(p.(isVisited := true))
  {
  }

  /** What the walk still has to emit: the subtree on top of the stack, then
      what each node below it has pending. */
  function Remaining(node: Tree, below: seq<Tree>): seq<int> {
    Inorder(node) + PendingAll(below)
  }

  /** Descending to the `min` child of an unvisited node. */
  lemma DescendStep(node: Tree, below: seq<Tree>)
    requires node.Node? && node.values != [] && !node.isVisited
    ensures Remaining(node, below) == Remaining(node.min, below + [node])
  {
    InorderAtMin(node);
    PendingPush(below, node);
    var m, q, r := Inorder(node.min), Pending(node), PendingAll(below);
    assert Remaining(node, below) == (m + q) + r;
    assert Remaining(node.min, below + [node]) == m + (q + r);
    Assoc(m, q, r);
  }

  lemma Assoc(a: seq<int>, b: seq<int>, c: seq<int>)
    ensures (a + b) + c == a + (b + c)
  {
  }

  lemma Assoc4(a: seq<int>, b: seq<int>, c: seq<int>, d: seq<int>)
    ensures a + b + c + d == a + (b + (c + d))
  {
  }

  /** Popping the empty top and the leaf under it emits the leaf's keys. */
  lemma LeafStep(leaf: Tree, s: seq<Tree>)
    requires leaf.Node? && WellFormed(leaf) && leaf.min == Nil
    ensures Remaining(Nil, s + [leaf]) == leaf.values + PendingAll(s)
  {
    LeafInorder(leaf);
    PendingPush(s, leaf);
  }

  /** Emitting a node's first key and descending into its `mid` subtree. */
  lemma MidStep(parent: Tree, rest: seq<Tree>)
    requires Waiting(parent) && parent.mid != Nil && !parent.isVisited
    ensures PendingAll(rest + [parent])
      == [parent.values[0]] + Remaining(parent.mid, rest + [parent.(isVisited := true)])
  {
    var visited := parent.(isVisited := true);
    PendingPush(rest, parent);
    PendingPush(rest, visited);
    PendingMid(parent);
    var x, m, q, r := [parent.values[0]], Inorder(parent.mid), Pending(visited), PendingAll(rest);
    assert PendingAll(rest + [parent]) == x + m + q + r;
    assert Remaining(parent.mid, rest + [visited]) == m + (q + r);
    Assoc4(x, m, q, r);
  }

  /** Emitting a node's last key and moving on to its `max` subtree. */
  lemma MaxStep(parent: Tree, rest: seq<Tree>)
    requires Waiting(parent) && !(parent.mid != Nil && !parent.isVisited)
    ensures PendingAll(rest + [parent]) == [parent.values[parent.size - 1]] + Remaining(parent.max, rest)
  {
    PendingPush(rest, parent);
    PendingMax(parent);
    var x, m, r := [parent.values[parent.size - 1]], Inorder(parent.max), PendingAll(rest);
    assert PendingAll(rest + [parent]) == (x + m) + r;
    Assoc(x, m, r);
  }

  /** What a stack has pending, seen as its top pushed onto the rest. */
  lemma PendingSplit(stack: seq<Tree>)
    requires stack != []
    ensures PendingAll(stack) == PendingAll(stack[..|stack| - 1] + [stack[|stack| - 1]])
  {
    LastSplit(stack);
  }

  /** Moving emitted keys from what remains to the list. */
  lemma Emit(list: seq<int>, x: seq<int>, r: seq<int>, whole: seq<int>)
    requires list + (x + r) == whole
    ensures (list + x) + r == whole
  {
    Assoc(list, x, r);
  }

  /** A leaf: a node without children. */
  predicate IsLeaf(p: Tree) {
    p.Node? && WellFormed(p) && p.min == Nil
  }

  /** The stack at the head of the walk's outer loop: a subtree on top of
      waiting nodes, and an empty top only when nothing is below it. */
  predicate Walking(node: Tree, below: seq<Tree>) {
    WellFormed(node) && AllWaiting(below) && (node == Nil ==> below == [])
  }

  /** The stack while the walk descends along `min` links: the node pushed
      last before an empty top is a leaf. */
  predicate Descending(node: Tree, below: seq<Tree>) {
    WellFormed(node)
    && (node != Nil ==> AllWaiting(below))
    && (node == Nil && below != [] ==> AllWaiting(below[..|below| - 1]) && IsLeaf(below[|below| - 1]))
  }

  /** A non-empty stack is its lower part with its top pushed. */
  lemma LastSplit(s: seq<Tree>)
    requires s != []
    ensures s == s[..|s| - 1] + [s[|s| - 1]]
  {
  }

  lemma StartDescent(node: Tree, below: seq<Tree>)
    requires Walking(node, below)
    ensures Descending(node, below)
  {
  }

  /** Pushing the `min` child keeps the descent's shape. */
  lemma DescendShape(node: Tree, below: seq<Tree>)
    requires Descending(node, below) && node != Nil
    ensures Descending(node.min, below + [node])
  {
    assert (below + [node])[..|below|] == below;
    if node.min != Nil {
      AllWaitingPush(below, node);
    }
  }

  /** At the bottom of a descent a leaf sits below the empty top. */
  lemma EndDescent(below: seq<Tree>)
    requires Descending(Nil, below) && below != []
    ensures AllWaiting(below[..|below| - 1]) && IsLeaf(below[|below| - 1])
  {
  }

  /** Popping the empty top and the leaf under it: the leaf's keys are
      emitted and the nodes below it wait. */
  lemma LeafPopped(list: seq<int>, below: seq<Tree>, whole: seq<int>)
    requires Descending(Nil, below) && below != [] && list + Remaining(Nil, below) == whole
    ensures var stack, leaf := below[..|below| - 1], below[|below| - 1];
      AllWaiting(stack) && (list + leaf.values) + PendingAll(stack) == whole && leaf.values != []
  {
    EndDescent(below);
    var stack, leaf := below[..|below| - 1], below[|below| - 1];
    LastSplit(below);
    LeafStep(leaf, stack);
    Emit(list, leaf.values, PendingAll(stack), whole);
  }

  /** Returning to a 2-key node whose `mid` subtree is unwalked: its first
      key is emitted and the walk goes down the `mid` subtree, the node
      staying on the stack marked visited. */
  lemma MidPopped(list: seq<int>, stack: seq<Tree>, whole: seq<int>)
    requires stack != [] && AllWaiting(stack) && list + PendingAll(stack) == whole
    requires stack[|stack| - 1].mid != Nil && !stack[|stack| - 1].isVisited
    ensures var parent, rest := stack[|stack| - 1], stack[..|stack| - 1];
      var below := rest + [parent.(isVisited := true)];
      Walking(parent.mid, below) && (list + [parent.values[0]]) + Remaining(parent.mid, below) == whole
  {
    AllWaitingPop(stack);
    var parent, rest := stack[|stack| - 1], stack[..|stack| - 1];
    LastSplit(stack);
    MidStep(parent, rest);
    AllWaitingPush(rest, parent.(isVisited := true));
    Emit(list, [parent.values[0]], Remaining(parent.mid, rest + [parent.(isVisited := true)]), whole);
  }

  /** Returning to a node with only its `max` subtree left: its last key is
      emitted, the node leaves the stack and the walk goes down the `max`
      subtree. */
  lemma MaxPopped(list: seq<int>, parent: Tree, rest: seq<Tree>, whole: seq<int>)
    requires Waiting(parent) && !(parent.mid != Nil && !parent.isVisited)
    requires list + PendingAll(rest + [parent]) == whole
    ensures (list + [parent.values[parent.size - 1]]) + Remaining(parent.max, rest) == whole
  {
    MaxStep(parent, rest);
    Emit(list, [parent.values[parent.size - 1]], Remaining(parent.max, rest), whole);
  }

  /** The stack below a popped node still waits, and its `max` subtree is
      a well-formed non-empty top. */
  lemma MaxPoppedShape(stack: seq<Tree>)
    requires stack != [] && AllWaiting(stack)
    ensures var parent, rest := stack[|stack| - 1], stack[..|stack| - 1];
      Waiting(parent) && Walking(parent.max, rest)
  {
    AllWaitingPop(stack);
  }

  /** The inner loop of `stackInorderTraversal()`: pushes the `min` links
      from the top of the stack down to the empty child under the leftmost
      leaf, leaving what remains to be emitted unchanged. */
  method PushMinSpine(node: Tree, stack: seq<Tree>, ghost below: seq<Tree>, ghost list: seq<int>, ghost whole: seq<int>)
    returns (node': Tree, stack': seq<Tree>, ghost below': seq<Tree>)
    requires stack == below + [node] && Descending(node, below)
    requires list + Remaining(node, below) == whole
    ensures node' == Nil && stack' == below' + [Nil] && Descending(Nil, below')
    ensures list + Remaining(Nil, below') == whole
  {
    node', stack', below' := node, stack, below;
    while stack'[|stack'| - 1] != Nil
      invariant stack' == below' + [node'] && Descending(node', below')
      invariant list + Remaining(node', below') == whole
      decreases Depth(node')
    {
      DescendStep(node', below');
      DescendShape(node', below');
      below' := below' + [node'];
      node' := node'.min;
      stack' := stack' + [node'];
    }
  }

  /** The loop of `stackInorderTraversal()`: walks the tree with an
      explicit stack, descending along `min` links, emitting each leaf, then
      a node's first key and `mid` subtree, then its last key and `max`
      subtree. */
  method StackWalk(root: Tree) returns (list: seq<int>)
    requires WellFormed(root)
    ensures list == Inorder(root)
  {
    list := [];
    var node := root;
    var stack: seq<Tree> := [node];
    ghost var below: seq<Tree> := [];
    ghost var whole := Inorder(root);
    while stack != []
      invariant stack == [] ==> list == whole
      invariant stack != [] ==> stack == below + [node] && Walking(node, below)
      invariant stack != [] ==> list + Remaining(node, below) == whole
      decreases |whole| - |list|
    {
      StartDescent(node, below);
      node, stack, below := PushMinSpine(node, stack, below, list, whole);
      stack := stack[..|stack| - 1];
      if stack == [] {
        break;
      }
      LeafPopped(list, below, whole);
      var leaf := stack[|stack| - 1];
      stack := stack[..|stack| - 1];
      list := list + leaf.values;
      if stack != [] {
        var parent := stack[|stack| - 1];
        var rest := stack[..|stack| - 1];
        if parent.mid != Nil && !parent.isVisited {
          MidPopped(list, stack, whole);
          list := list + [GetMin(parent).value];
          stack := rest + [parent.(isVisited := true)];
          node := parent.mid;
          below := stack;
          stack := stack + [node];
        } else {
          MaxPoppedShape(stack);
          PendingSplit(stack);
          MaxPopped(list, parent, rest, whole);
          stack := rest;
          list := list + [GetMax(parent)];
          node := parent.max;
          below := stack;
          stack := stack + [node];
        }
      } else {
        below := [];
      }
    }
  }

  /** A tree over `int` keys whose nodes the source updates in place; the
      model holds the root as a value and replaces it on every add. */
  class TwoThreeTree {
    var root: Tree
    /** Whether `stackInorderTraversal` has run. The walk sets `isVisited` on
        the tree's 2-key internal nodes and nothing resets it, so only the
        first walk over a tree is described. */
    ghost var traversed: bool

    /** The root is a 2-3 tree whose keys ascend in order. */
    ghost predicate Valid()
      reads this
    {
      TwoThree(root) && Ordered(root)
    }

    constructor ()
      ensures Valid() && root == Nil && !traversed
    {
      root := Nil;
      traversed := false;
    }

    /** `add(e)`: the root is replaced by the result of the recursive add,
        which stores `e` in sorted position or, for a key equal to an
        internal node's larger key, drops it. */
    method Add(e: int)
      requires Valid()
      modifies this
      ensures Valid()
      ensures root == AddNode(old(root), e, false)
      ensures Inorder(root) == BinaryTrees.InsertRight(Inorder(old(root)), e) || root == old(root)
      ensures traversed == old(traversed)
    {
      AddTwoThree(root, e, false);
      AddOrdered(root, e, false);
      AddInorder(root, e, false);
      root := AddNode(root, e, false);
    }

    /** `stackInorderTraversal()`, the first time it runs on the tree: the
        tree's keys in ascending order, collected by the explicit-stack walk
        `StackWalk`. Afterwards the tree counts as traversed. */
    method StackInorderTraversal() returns (list: seq<int>)
      requires Valid() && !traversed
      modifies this
      ensures root == old(root) && traversed
      ensures list == Inorder(root)
      ensures BinaryTrees.Sorted(list)
    {
      list := StackWalk(root);
      traversed := true;
    }
  }
}
