/** The red-black tree's deletion. Unlike insertion, which rebuilds the tree
    through returned subtrees, deletion works by pointer surgery on the node
    objects: it overwrites a key, rotates and recolours through the `parent`,
    `left`, `right` and `color` fields, and finally unlinks one node. The
    nodes are modelled as a store of numbered objects whose fields are
    parallel sequences; -1 is the null reference. `Store` is the value of all
    those fields at one moment, the functions over it say what each step of
    the source does to them, and class `LinkedRBTree` performs the steps in
    place and is proved to agree with those functions. */
module RedBlackDelete {
  import opened Outcomes

  const RED: bool := true
  const BLACK: bool := false
  const NULL: int := -1

  /** The fields of every node object, and the tree's `root` field. */
  datatype Store = Store(root: int, value: seq<int>, left: seq<int>, right: seq<int>,
                         parent: seq<int>, color: seq<bool>)

  /** The state after a call, and whether the call returned or threw. */
  datatype Outcome = Outcome(store: Store, status: Status)

  /** `i` is null or one of the store's nodes. */
  predicate Ref(s: Store, i: int) {
    NULL <= i < |s.value|
  }

  /** Every node has all five fields and every reference is null or a node. */
  predicate WellFormed(s: Store) {
    |s.left| == |s.value| && |s.right| == |s.value| && |s.parent| == |s.value|
    && |s.color| == |s.value| && Ref(s, s.root)
    && forall i | 0 <= i < |s.value| :: Ref(s, s.left[i]) && Ref(s, s.right[i]) && Ref(s, s.parent[i])
  }

  /** The child links lead downhill in `rank`, so no chain of child links
      returns to a node: the links form a forest, as the source assumes
      when it descends without a bound. */
  predicate Ranked(s: Store, rank: seq<nat>) {
    WellFormed(s) && |rank| == |s.value|
    && forall i | 0 <= i < |s.value| ::
         (s.left[i] != NULL ==> rank[s.left[i]] < rank[i])
         && (s.right[i] != NULL ==> rank[s.right[i]] < rank[i])
  }

  /** `isRed`: null counts as black. */
  predicate IsRed(s: Store, i: int)
    requires WellFormed(s) && Ref(s, i)
  {
    i != NULL && s.color[i] == RED
  }

  /** `leftRotation(p)`: the right child `top` rises over `p`; `p` takes over
      `top`'s left subtree as its right child, `top`'s parent becomes `p`'s
      former parent, `p`'s parent becomes `top`, and the two swap colours.
      The grandparent's own child link is not touched here. */
  function LeftRotate(s: Store, p: int): (r: Store)
    requires WellFormed(s) && 0 <= p < |s.value| && s.right[p] != NULL
    ensures WellFormed(r) && r.root == s.root && r.value == s.value
  {
    var top := s.right[p];
    var moved := s.left[top];
    var s1 := if moved != NULL then s.(parent := s.parent[moved := p]) else s;
    var s2 := s1.(right := s1.right[p := moved]);
    var s3 := s2.(left := s2.left[top := p]);
    var s4 := s3.(parent := s3.parent[top := s3.parent[p]]);
    var s5 := s4.(parent := s4.parent[p := top]);
    var parentColor := s5.color[p];
    var s6 := s5.(color := s5.color[p := s5.color[top]]);
    s6.(color := s6.color[top := parentColor])
  }

  /** `rightRotation(p)`: the mirror image of `LeftRotate`. */
  function RightRotate(s: Store, p: int): (r: Store)
    requires WellFormed(s) && 0 <= p < |s.value| && s.left[p] != NULL
    ensures WellFormed(r) && r.root == s.root && r.value == s.value
  {
    var top := s.left[p];
    var moved := s.right[top];
    var s1 := if moved != NULL then s.(parent := s.parent[moved := p]) else s;
    var s2 := s1.(left := s1.left[p := moved]);
    var s3 := s2.(right := s2.right[top := p]);
    var s4 := s3.(parent := s3.parent[top := s3.parent[p]]);
    var s5 := s4.(parent := s4.parent[p := top]);
    var parentColor := s5.color[p];
    var s6 := s5.(color := s5.color[p := s5.color[top]]);
    s6.(color := s6.color[top := parentColor])
  }

  /** `relateRotationNode(top)`: after a rotation, the grandparent's child
      link that still points at one of `top`'s children is redirected to
      `top` (the left link is tried first). A `top` without a parent is left
      alone; the tree's `root` field is never updated. */
  function Relate(s: Store, top: int): (r: Store)
    requires WellFormed(s) && 0 <= top < |s.value|
    ensures WellFormed(r) && r.root == s.root && r.value == s.value
  {
    var g := s.parent[top];
    if g == NULL then s
    else if s.left[g] == s.left[top] || s.left[g] == s.right[top] then
      s.(left := s.left[g := top])
    else if s.right[g] == s.left[top] || s.right[g] == s.right[top] then
      s.(right := s.right[g := top])
    else s
  }

  /** The links after `leftRotation(p)`, for a `p` that is neither its right
      child `top` nor `top`'s left child `moved`: `top` has `p` as its left
      child and `p`'s former parent as its parent; `p` has `top` as its parent
      and `moved` as its right child, and `moved` has `p` as its parent; the
      two swap colours; every other node keeps its child links and colour. */
  lemma LeftRotateLinks(s: Store, p: int)
    requires WellFormed(s) && 0 <= p < |s.value| && s.right[p] != NULL
    ensures var r, top, moved := LeftRotate(s, p), s.right[p], s.left[s.right[p]];
      top != p && moved != p ==>
        r.left[top] == p && r.right[top] == s.right[top]
        && r.left[p] == s.left[p] && r.right[p] == moved
        && r.parent[top] == s.parent[p] && r.parent[p] == top
        && (moved != NULL && moved != top ==> r.parent[moved] == p)
        && r.color[top] == s.color[p] && r.color[p] == s.color[top]
    ensures var r, top, moved := LeftRotate(s, p), s.right[p], s.left[s.right[p]];
      forall j | 0 <= j < |s.value| && j != p && j != top ::
        r.left[j] == s.left[j] && r.right[j] == s.right[j] && r.color[j] == s.color[j]
        && (j != moved ==> r.parent[j] == s.parent[j])
  {
  }

  /** The links after `rightRotation(p)`: the mirror image of
      `LeftRotateLinks`. */
  lemma RightRotateLinks(s: Store, p: int)
    requires WellFormed(s) && 0 <= p < |s.value| && s.left[p] != NULL
    ensures var r, top, moved := RightRotate(s, p), s.left[p], s.right[s.left[p]];
      top != p && moved != p ==>
        r.right[top] == p && r.left[top] == s.left[top]
        && r.right[p] == s.right[p] && r.left[p] == moved
        && r.parent[top] == s.parent[p] && r.parent[p] == top
        && (moved != NULL && moved != top ==> r.parent[moved] == p)
        && r.color[top] == s.color[p] && r.color[p] == s.color[top]
    ensures var r, top, moved := RightRotate(s, p), s.left[p], s.right[s.left[p]];
      forall j | 0 <= j < |s.value| && j != p && j != top ::
        r.left[j] == s.left[j] && r.right[j] == s.right[j] && r.color[j] == s.color[j]
        && (j != moved ==> r.parent[j] == s.parent[j])
  {
  }

  /** The links after `relateRotationNode(top)`: when `top` has a parent `g`
      whose left link points at one of `top`'s children, that link now points
      at `top`; failing that, the same for `g`'s right link. No other child
      link, no parent link and no colour changes, and without a parent
      nothing changes at all. */
  lemma RelateLinks(s: Store, top: int)
    requires WellFormed(s) && 0 <= top < |s.value|
    ensures var r := Relate(s, top); r.parent == s.parent && r.color == s.color
    ensures s.parent[top] == NULL ==> Relate(s, top) == s
    ensures var r, g := Relate(s, top), s.parent[top];
      g != NULL && (s.left[g] == s.left[top] || s.left[g] == s.right[top]) ==>
        r.left[g] == top && r.right == s.right
    ensures var r, g := Relate(s, top), s.parent[top];
      g != NULL && s.left[g] != s.left[top] && s.left[g] != s.right[top]
      && (s.right[g] == s.left[top] || s.right[g] == s.right[top]) ==>
        r.right[g] == top && r.left == s.left
    ensures var r := Relate(s, top);
      forall j | 0 <= j < |s.value| && j != s.parent[top] ::
        r.left[j] == s.left[j] && r.right[j] == s.right[j]
  {
  }

  /** `minNode(i)`: follow left links until a node has no left child. */
  ghost function LeftmostFrom(s: Store, i: int, rank: seq<nat>): (m: int)
    requires Ranked(s, rank) && 0 <= i < |s.value|
    ensures 0 <= m < |s.value| && s.left[m] == NULL
    ensures m == i || rank[m] < rank[i]
    decreases rank[i]
  {
    if s.left[i] == NULL then i else LeftmostFrom(s, s.left[i], rank)
  }

  /** `deleteBalance(x)`, called on the node about to be unlinked. It
      returns at once when `x` is the tree's root or red; otherwise it works
      on the side of the parent that `x` hangs from (left first), and when
      neither side's cases apply it returns. A recursive call is made only
      while `fuel` lasts: running out stands for the call stack overflowing. */
  function DeleteBalanceAt(s: Store, x: int, fuel: nat): (o: Outcome)
    requires WellFormed(s) && Ref(s, x)
    ensures WellFormed(o.store) && o.store.root == s.root && o.store.value == s.value
    ensures x == s.root || IsRed(s, x) ==> o == Outcome(s, Done)
    decreases fuel, 2
  {
    if x == s.root then Outcome(s, Done)
    else if x == NULL then Outcome(s, Failed(NullPointer))
    else if s.color[x] == RED then Outcome(s, Done)
    else if s.parent[x] == NULL then Outcome(s, Failed(NullPointer))
    else
      var p := s.parent[x];
      var onLeft := if s.left[p] == x then LeftFix(s, x, p, fuel) else None;
      if onLeft.Some? then onLeft.value
      else
        var onRight := if s.right[p] == x then RightFix(s, x, p, fuel) else None;
        if onRight.Some? then onRight.value else Outcome(s, Done)
  }

  /** A recursive call of `deleteBalance` on `y`, made only while `fuel`
      lasts. */
  function Again(s: Store, y: int, fuel: nat): (o: Outcome)
    requires WellFormed(s) && Ref(s, y)
    ensures WellFormed(o.store) && o.store.root == s.root && o.store.value == s.value
    ensures fuel == 0 ==> o == Outcome(s, Failed(StackOverflow))
    decreases fuel, 0
  {
    if fuel == 0 then Outcome(s, Failed(StackOverflow)) else DeleteBalanceAt(s, y, fuel - 1)
  }

  /** The four cases for an `x` that is its parent's left child, in the
      source's order, with sibling `sib`: the parent black and `sib` red
      (rotate the parent left, then start over at `x`); `sib` black with a
      red right child (blacken that child, rotate the parent left, stop);
      `sib`'s left child red (rotate `sib` right, start over at `x`); both of
      `sib`'s children black (paint `sib` red, go on at the parent). A null
      `sib` is dereferenced when the second case is tested. `None` when no
      case applies. */
  function LeftFix(s: Store, x: int, p: int, fuel: nat): (o: Option<Outcome>)
    requires WellFormed(s) && 0 <= x < |s.value| && 0 <= p < |s.value|
    ensures o.Some? ==> WellFormed(o.value.store) && o.value.store.root == s.root
                        && o.value.store.value == s.value
    decreases fuel, 1
  {
    var sib := s.right[p];
    if !IsRed(s, p) && IsRed(s, sib) then
      var s1 := Relate(LeftRotate(s, p), sib);
      Some(Again(s1, x, fuel))
    else if sib == NULL then Some(Outcome(s, Failed(NullPointer)))
    else if !IsRed(s, sib) && IsRed(s, s.right[sib]) then
      var s1 := s.(color := s.color[s.right[sib] := BLACK]);
      Some(Outcome(Relate(LeftRotate(s1, p), sib), Done))
    else if IsRed(s, s.left[sib]) then
      var s1 := Relate(RightRotate(s, sib), s.left[sib]);
      Some(Again(s1, x, fuel))
    else if !IsRed(s, s.right[sib]) && !IsRed(s, s.left[sib]) then
      var s1 := s.(color := s.color[sib := RED]);
      Some(Again(s1, p, fuel))
    else None
  }

  /** The mirror image of `LeftFix`, for an `x` that is its parent's right
      child. */
  function RightFix(s: Store, x: int, p: int, fuel: nat): (o: Option<Outcome>)
    requires WellFormed(s) && 0 <= x < |s.value| && 0 <= p < |s.value|
    ensures o.Some? ==> WellFormed(o.value.store) && o.value.store.root == s.root
                        && o.value.store.value == s.value
    decreases fuel, 1
  {
    var sib := s.left[p];
    if !IsRed(s, p) && IsRed(s, sib) then
      var s1 := Relate(RightRotate(s, p), sib);
      Some(Again(s1, x, fuel))
    else if sib == NULL then Some(Outcome(s, Failed(NullPointer)))
    else if !IsRed(s, sib) && IsRed(s, s.left[sib]) then
      var s1 := s.(color := s.color[s.left[sib] := BLACK]);
      Some(Outcome(Relate(RightRotate(s1, p), sib), Done))
    else if IsRed(s, s.right[sib]) then
      var s1 := Relate(LeftRotate(s, sib), s.right[sib]);
      Some(Again(s1, x, fuel))
    else if !IsRed(s, s.left[sib]) && !IsRed(s, s.right[sib]) then
      var s1 := s.(color := s.color[sib := RED]);
      Some(Again(s1, p, fuel))
    else None
  }

  /** The node `delete(i, e)` takes the key from: `i`'s left child if it
      has one, overridden by the leftmost node under its right child. */
  ghost function Replacement(s: Store, i: int, rank: seq<nat>): (m: int)
    requires Ranked(s, rank) && 0 <= i < |s.value|
    ensures 0 <= m < |s.value|
    ensures s.right[i] != NULL ==> s.left[m] == NULL && rank[m] < rank[i]
    ensures s.right[i] == NULL && s.left[i] != NULL ==> m == s.left[i]
    ensures s.right[i] == NULL && s.left[i] == NULL ==> m == i
  {
    if s.right[i] != NULL then LeftmostFrom(s, s.right[i], rank)
    else if s.left[i] != NULL then s.left[i]
    else i
  }

  /** `delete(i, e)`: descend by comparing `e` with the keys; at the node
      holding `e`, copy the replacement's key into it, run `deleteBalance` on
      the replacement and then cut the link from the replacement's parent to
      it (the left link when that is the one pointing at it, otherwise the
      right). A replacement without a parent is dereferenced. */
  ghost function DeleteAt(s: Store, i: int, e: int, rank: seq<nat>, fuel: nat): (o: Outcome)
    requires Ranked(s, rank) && Ref(s, i)
    ensures WellFormed(o.store) && o.store.root == s.root && |o.store.value| == |s.value|
    decreases if i == NULL then 0 else rank[i] + 1
  {
    if i == NULL then Outcome(s, Done)
    else if e < s.value[i] then DeleteAt(s, s.left[i], e, rank, fuel)
    else if e > s.value[i] then DeleteAt(s, s.right[i], e, rank, fuel)
    else DeleteMatched(s, i, rank, fuel)
  }

  /** The work `delete` does at the node `i` holding the key: `i` takes the
      replacement's key, `deleteBalance` runs on the replacement, and unless
      it threw, the replacement is unlinked. */
  ghost function DeleteMatched(s: Store, i: int, rank: seq<nat>, fuel: nat): (o: Outcome)
    requires Ranked(s, rank) && 0 <= i < |s.value|
    ensures WellFormed(o.store) && o.store.root == s.root && |o.store.value| == |s.value|
    ensures o.store.value == s.value[i := s.value[Replacement(s, i, rank)]]
  {
    var m := Replacement(s, i, rank);
    var o := DeleteBalanceAt(s.(value := s.value[i := s.value[m]]), m, fuel);
    if o.status.Failed? then o else Unlink(o.store, m)
  }

  /** The last step of `delete`: the replacement's parent drops its link to
      it, the left link when that is the one pointing at it and otherwise
      the right one. A replacement without a parent is dereferenced. */
  function Unlink(s: Store, m: int): (o: Outcome)
    requires WellFormed(s) && 0 <= m < |s.value|
    ensures WellFormed(o.store) && o.store.root == s.root && o.store.value == s.value
    ensures o.status == Done <==> s.parent[m] != NULL
  {
    var pm := s.parent[m];
    if pm == NULL then Outcome(s, Failed(NullPointer))
    else if s.left[pm] == m then Outcome(s.(left := s.left[pm := NULL]), Done)
    else Outcome(s.(right := s.right[pm := NULL]), Done)
  }

  /** No node of the subtree at `i`, reached by child links, holds `e`. */
  ghost predicate AbsentBelow(s: Store, i: int, e: int, rank: seq<nat>)
    requires Ranked(s, rank) && Ref(s, i)
    decreases if i == NULL then 0 else rank[i] + 1
  {
    i == NULL
    || (s.value[i] != e && AbsentBelow(s, s.left[i], e, rank) && AbsentBelow(s, s.right[i], e, rank))
  }

  /** Deleting a key that no node of the tree below `i` holds changes
      nothing, whatever detached nodes of the store still hold. */
  lemma {:induction false} DeleteAbsentKey(s: Store, i: int, e: int, rank: seq<nat>, fuel: nat)
    requires Ranked(s, rank) && Ref(s, i) && AbsentBelow(s, i, e, rank)
    ensures DeleteAt(s, i, e, rank, fuel) == Outcome(s, Done)
    decreases if i == NULL then 0 else rank[i] + 1
  {
    if i != NULL {
      if e < s.value[i] {
        DeleteAbsentKey(s, s.left[i], e, rank, fuel);
      } else {
        DeleteAbsentKey(s, s.right[i], e, rank, fuel);
      }
    }
  }

  /** A black `x` that is a left child, with a black sibling whose children
      are both black: the sibling is painted red and balancing goes on at the
      parent. */
  lemma BlackSiblingOnRight(s: Store, x: int, p: int, sib: int, fuel: nat)
    requires WellFormed(s) && 0 <= x < |s.value| && x != s.root && s.color[x] == BLACK
    requires p == s.parent[x] && p != NULL && s.left[p] == x
    requires sib == s.right[p] && sib != NULL && s.color[sib] == BLACK
    requires !IsRed(s, s.left[sib]) && !IsRed(s, s.right[sib])
    ensures var s1 := s.(color := s.color[sib := RED]);
      DeleteBalanceAt(s, x, fuel) == Again(s1, p, fuel)
  {
    assert LeftFix(s, x, p, fuel).Some?;
  }

  /** The mirror image: a black `x` that is a right child, with a black
      sibling whose children are both black. */
  lemma BlackSiblingOnLeft(s: Store, x: int, p: int, sib: int, fuel: nat)
    requires WellFormed(s) && 0 <= x < |s.value| && x != s.root && s.color[x] == BLACK
    requires p == s.parent[x] && p != NULL && s.right[p] == x && s.left[p] != x
    requires sib == s.left[p] && sib != NULL && s.color[sib] == BLACK
    requires !IsRed(s, s.left[sib]) && !IsRed(s, s.right[sib])
    ensures var s1 := s.(color := s.color[sib := RED]);
      DeleteBalanceAt(s, x, fuel) == Again(s1, p, fuel)
  {
    assert RightFix(s, x, p, fuel).Some?;
  }

  /** Deleting the key of a red leaf that is its parent's left child just
      unlinks the leaf. */
  lemma DeleteRedLeftLeaf(s: Store, i: int, e: int, rank: seq<nat>, fuel: nat)
    requires Ranked(s, rank) && 0 <= i < |s.value| && s.value[i] == e
    requires s.left[i] == NULL && s.right[i] == NULL && s.color[i] == RED && i != s.root
    requires s.parent[i] != NULL && s.left[s.parent[i]] == i
    ensures DeleteAt(s, i, e, rank, fuel) == Outcome(s.(left := s.left[s.parent[i] := NULL]), Done)
  {
    var s1 := s.(value := s.value[i := s.value[i]]);
    assert s1 == s;
  }

  /** Deleting the only node of a one-node tree throws: the node is its own
      replacement, `deleteBalance` returns at once because it is the root,
      and the missing parent is dereferenced. */
  lemma DeleteLoneRoot(v: int, c: bool, fuel: nat)
    ensures var s := Store(0, [v], [NULL], [NULL], [NULL], [c]);
      DeleteAt(s, 0, v, [0], fuel) == Outcome(s, Failed(NullPointer))
  {
    var s := Store(0, [v], [NULL], [NULL], [NULL], [c]);
    assert Ranked(s, [0]);
    assert Replacement(s, 0, [0]) == 0;
    assert s.(value := s.value[0 := s.value[0]]) == s;
  }

  /** A rotation at the root, as written: `relateRotationNode` returns at
      once because the risen node has no parent, so the tree's `root` field
      still names the old root, which now has a parent. The node that rose
      and its other subtree are no longer reachable from `root`. */
  lemma LeftRotateAtRootKeepsStaleRoot(s: Store, p: int)
    requires WellFormed(s) && 0 <= p < |s.value| && p == s.root && s.parent[p] == NULL
    requires s.right[p] != NULL && s.right[p] != p && s.left[s.right[p]] != p
    ensures var r := Relate(LeftRotate(s, p), s.right[p]);
      r.root == p && r.parent[r.root] == s.right[p] && r.parent[s.right[p]] == NULL
  {
    LeftRotateLinks(s, p);
    RelateLinks(LeftRotate(s, p), s.right[p]);
  }

  /** `relateRotationNode` as evidently intended: a risen node without a
      parent becomes the tree's root. */
  function RelateCorrected(s: Store, top: int): (r: Store)
    requires WellFormed(s) && 0 <= top < |s.value|
    ensures WellFormed(r) && r.value == s.value
    ensures s.parent[top] == NULL ==> r.root == top
    ensures s.parent[top] != NULL ==> r == Relate(s, top)
  {
    if s.parent[top] == NULL then s.(root := top) else Relate(s, top)
  }

  /** With the corrected step, a rotation at the root leaves `root` naming
      the risen node, which has no parent, and the old root below it. */
  lemma LeftRotateAtRootCorrected(s: Store, p: int)
    requires WellFormed(s) && 0 <= p < |s.value| && p == s.root && s.parent[p] == NULL
    requires s.right[p] != NULL && s.right[p] != p && s.left[s.right[p]] != p
    ensures var r := RelateCorrected(LeftRotate(s, p), s.right[p]);
      r.root == s.right[p] && r.parent[r.root] == NULL && r.left[r.root] == p && r.parent[p] == r.root
  {
    LeftRotateLinks(s, p);
  }

  /** The tree as the deletion code sees it: the `root` field and the fields
      of every node object. */
  class LinkedRBTree {
    var root: int
    var value: seq<int>
    var left: seq<int>
    var right: seq<int>
    var parent: seq<int>
    var color: seq<bool>

    /** All the fields at once. */
    function Snapshot(): (s: Store)
      reads this
      ensures s.root == root && s.value == value && s.left == left && s.right == right
      ensures s.parent == parent && s.color == color
    {
      Store(root, value, left, right, parent, color)
    }

    ghost predicate Valid()
      reads this
    {
      WellFormed(Snapshot())
    }

    /** `leftRotation(p)`, field by field in the source's order. */
    method LeftRotation(p: int) returns (top: int)
      requires Valid() && 0 <= p < |value| && right[p] != NULL
      modifies this
      ensures Valid() && Snapshot() == LeftRotate(old(Snapshot()), p) && top == old(right[p])
    {
      top := right[p];
      if left[top] != NULL {
        parent := parent[left[top] := p];
      }
      right := right[p := left[top]];
      left := left[top := p];
      parent := parent[top := parent[p]];
      parent := parent[p := top];
      var parentColor := color[p];
      color := color[p := color[top]];
      color := color[top := parentColor];
    }

    /** `rightRotation(p)`, field by field in the source's order. */
    method RightRotation(p: int) returns (top: int)
      requires Valid() && 0 <= p < |value| && left[p] != NULL
      modifies this
      ensures Valid() && Snapshot() == RightRotate(old(Snapshot()), p) && top == old(left[p])
    {
      top := left[p];
      if right[top] != NULL {
        parent := parent[right[top] := p];
      }
      left := left[p := right[top]];
      right := right[top := p];
      parent := parent[top := parent[p]];
      parent := parent[p := top];
      var parentColor := color[p];
      color := color[p := color[top]];
      color := color[top := parentColor];
    }

    /** `relateRotationNode(top)`. */
    method RelateRotationNode(top: int)
      requires Valid() && 0 <= top < |value|
      modifies this
      ensures Valid() && Snapshot() == Relate(old(Snapshot()), top)
    {
      var g := parent[top];
      if g == NULL {
        return;
      }
      if left[g] == left[top] || left[g] == right[top] {
        left := left[g := top];
        return;
      }
      if right[g] == left[top] || right[g] == right[top] {
        right := right[g := top];
      }
    }

    /** `minNode(i)`: the loop down the left links. */
    method MinNode(i: int, ghost rank: seq<nat>) returns (m: int)
      requires Ranked(Snapshot(), rank) && 0 <= i < |value|
      ensures m == LeftmostFrom(Snapshot(), i, rank)
    {
      m := i;
      while left[m] != NULL
        invariant 0 <= m < |value|
        invariant LeftmostFrom(Snapshot(), m, rank) == LeftmostFrom(Snapshot(), i, rank)
        decreases rank[m]
      {
        m := left[m];
      }
    }

    /** `deleteBalance(x)`. */
    method DeleteBalance(x: int, fuel: nat) returns (st: Status)
      requires Valid() && Ref(Snapshot(), x)
      modifies this
      ensures Valid()
      ensures Snapshot() == DeleteBalanceAt(old(Snapshot()), x, fuel).store
      ensures st == DeleteBalanceAt(old(Snapshot()), x, fuel).status
      decreases fuel, 2
    {
      if x == root {
        return Done;
      }
      if x == NULL {
        return Failed(NullPointer);
      }
      if color[x] == RED {
        return Done;
      }
      var p := parent[x];
      if p == NULL {
        return Failed(NullPointer);
      }
      if left[p] == x {
        var handled;
        handled, st := BalanceLeftChild(x, p, fuel);
        if handled {
          return;
        }
      }
      if right[p] == x {
        var handled;
        handled, st := BalanceRightChild(x, p, fuel);
        if handled {
          return;
        }
      }
      return Done;
    }

    /** A recursive call of `deleteBalance` on `y`, made only while `fuel`
        lasts. */
    method Retry(y: int, fuel: nat) returns (st: Status)
      requires Valid() && Ref(Snapshot(), y)
      modifies this
      ensures Valid()
      ensures Snapshot() == Again(old(Snapshot()), y, fuel).store
      ensures st == Again(old(Snapshot()), y, fuel).status
      decreases fuel, 0
    {
      if fuel == 0 {
        return Failed(StackOverflow);
      }
      st := DeleteBalance(y, fuel - 1);
    }

    /** The branch of `deleteBalance` for an `x` that is the left child of
        `p`; `handled` is false when none of its cases applies, and then
        nothing has changed. */
    method BalanceLeftChild(x: int, p: int, fuel: nat) returns (handled: bool, st: Status)
      requires Valid() && 0 <= x < |value| && 0 <= p < |value|
      modifies this
      ensures Valid()
      ensures var o := LeftFix(old(Snapshot()), x, p, fuel);
        handled == o.Some? && (handled ==> Snapshot() == o.value.store && st == o.value.status)
        && (!handled ==> Snapshot() == old(Snapshot()))
      decreases fuel, 1
    {
      var s := Snapshot();
      var sib := s.right[p];
      handled, st := true, Done;
      if !IsRed(s, p) && IsRed(s, sib) {
        var top := LeftRotation(p);
        RelateRotationNode(top);
        st := Retry(x, fuel);
      } else if sib == NULL {
        st := Failed(NullPointer);
      } else if !IsRed(s, sib) && IsRed(s, s.right[sib]) {
        color := color[s.right[sib] := BLACK];
        var top := LeftRotation(p);
        RelateRotationNode(top);
      } else if IsRed(s, s.left[sib]) {
        var top := RightRotation(sib);
        RelateRotationNode(top);
        st := Retry(x, fuel);
      } else if !IsRed(s, s.right[sib]) && !IsRed(s, s.left[sib]) {
        color := color[sib := RED];
        st := Retry(p, fuel);
      } else {
        handled := false;
      }
    }

    /** The branch of `deleteBalance` for an `x` that is the right child of
        `p`. */
    method BalanceRightChild(x: int, p: int, fuel: nat) returns (handled: bool, st: Status)
      requires Valid() && 0 <= x < |value| && 0 <= p < |value|
      modifies this
      ensures Valid()
      ensures var o := RightFix(old(Snapshot()), x, p, fuel);
        handled == o.Some? && (handled ==> Snapshot() == o.value.store && st == o.value.status)
        && (!handled ==> Snapshot() == old(Snapshot()))
      decreases fuel, 1
    {
      var s := Snapshot();
      var sib := s.left[p];
      handled, st := true, Done;
      if !IsRed(s, p) && IsRed(s, sib) {
        var top := RightRotation(p);
        RelateRotationNode(top);
        st := Retry(x, fuel);
      } else if sib == NULL {
        st := Failed(NullPointer);
      } else if !IsRed(s, sib) && IsRed(s, s.left[sib]) {
        color := color[s.left[sib] := BLACK];
        var top := RightRotation(p);
        RelateRotationNode(top);
      } else if IsRed(s, s.right[sib]) {
        var top := LeftRotation(sib);
        RelateRotationNode(top);
        st := Retry(x, fuel);
      } else if !IsRed(s, s.left[sib]) && !IsRed(s, s.right[sib]) {
        color := color[sib := RED];
        st := Retry(p, fuel);
      } else {
        handled := false;
      }
    }

    /** `delete(i, e)`. */
    method DeleteFrom(i: int, e: int, ghost rank: seq<nat>, fuel: nat) returns (st: Status)
      requires Ranked(Snapshot(), rank) && Ref(Snapshot(), i)
      modifies this
      ensures Valid()
      ensures Snapshot() == DeleteAt(old(Snapshot()), i, e, rank, fuel).store
      ensures st == DeleteAt(old(Snapshot()), i, e, rank, fuel).status
      decreases if i == NULL then 0 else rank[i] + 1
    {
      if i == NULL {
        return Done;
      }
      if e < value[i] {
        st := DeleteFrom(left[i], e, rank, fuel);
        return;
      }
      if e > value[i] {
        st := DeleteFrom(right[i], e, rank, fuel);
        return;
      }
      st := DeleteHere(i, rank, fuel);
    }

    /** The branch of `delete(i, e)` for the node holding the key. */
    method DeleteHere(i: int, ghost rank: seq<nat>, fuel: nat) returns (st: Status)
      requires Ranked(Snapshot(), rank) && 0 <= i < |value|
      modifies this
      ensures Valid()
      ensures Snapshot() == DeleteMatched(old(Snapshot()), i, rank, fuel).store
      ensures st == DeleteMatched(old(Snapshot()), i, rank, fuel).status
    {
      var m := i;
      if left[i] != NULL {
        m := left[i];
      }
      if right[i] != NULL {
        m := MinNode(right[i], rank);
      }
      value := value[i := value[m]];
      st := DeleteBalance(m, fuel);
      if st.Failed? {
        return;
      }
      st := UnlinkNode(m);
    }

    /** The detaching step at the end of `delete(i, e)`. */
    method UnlinkNode(m: int) returns (st: Status)
      requires Valid() && 0 <= m < |value|
      modifies this
      ensures Valid()
      ensures Snapshot() == Unlink(old(Snapshot()), m).store && st == Unlink(old(Snapshot()), m).status
    {
      var pm := parent[m];
      if pm == NULL {
        return Failed(NullPointer);
      }
      if left[pm] == m {
        left := left[pm := NULL];
      } else {
        right := right[pm := NULL];
      }
      st := Done;
    }

    /** `delete(e)`: delete from the root. */
    method Delete(e: int, ghost rank: seq<nat>, fuel: nat) returns (st: Status)
      requires Ranked(Snapshot(), rank)
      modifies this
      ensures Valid()
      ensures Snapshot() == DeleteAt(old(Snapshot()), old(root), e, rank, fuel).store
      ensures st == DeleteAt(old(Snapshot()), old(root), e, rank, fuel).status
    {
      st := DeleteFrom(root, e, rank, fuel);
    }
  }
}
