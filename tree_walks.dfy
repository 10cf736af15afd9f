/** The iterative traversals of a binary tree. Each drives an explicit stack
    (or queue) of nodes in which `Nil` plays the null entry the loops push and
    pop; the stack is a sequence whose last element is the top. */
module TreeWalks {
  import opened Outcomes
  import opened BinaryTrees

  /** What remains of the in-order once the left subtree of `t` is done. */
  function InVisit<A>(t: Tree<A>): seq<int> {
    match t
    case Nil => []
    case Node(_, _, v, r) => [v] + Inorder(r)
  }

  /** What remains of the in-order for the nodes waiting below the top of
      the stack, the innermost (last) first. */
  function InPending<A>(p: seq<Tree<A>>): seq<int> {
    if p == [] then [] else InVisit(p[|p| - 1]) + InPending(p[..|p| - 1])
  }

  lemma InPendingPush<A>(p: seq<Tree<A>>, t: Tree<A>)
    ensures InPending(p + [t]) == InVisit(t) + InPending(p)
  {
    assert (p + [t])[..|p|] == p;
  }

  /** What remains of the in-order for the stack `below + [top]`: the top's
      subtree, then the nodes waiting below it. */
  function InRest<A>(top: Tree<A>, below: seq<Tree<A>>): seq<int> {
    Inorder(top) + InPending(below)
  }

  /** Pushing the left child of the top leaves the remaining in-order alone. */
  lemma InDescend<A>(n: Tree<A>, below: seq<Tree<A>>)
    requires n.Node?
    ensures InRest(n, below) == InRest(n.left, below + [n])
  {
    InPendingPush(below, n);
    Assoc(Inorder(n.left), [n.value] + Inorder(n.right), InPending(below));
  }

  /** Popping a node from under the null top, emitting its key and pushing
      its right child. */
  lemma InAscend<A>(list: seq<int>, n: Tree<A>, rest: seq<Tree<A>>, whole: seq<int>)
    requires n.Node? && list + InRest(Nil, rest + [n]) == whole
    ensures (list + [n.value]) + InRest(n.right, rest) == whole
  {
    InPendingPush(rest, n);
    Assoc([n.value], Inorder(n.right), InPending(rest));
    Assoc(list, [n.value], InRest(n.right, rest));
  }

  lemma Assoc(a: seq<int>, b: seq<int>, c: seq<int>)
    ensures (a + b) + c == a + (b + c)
  {
  }

  /** A non-empty stack is its lower part with its top pushed. */
  lemma LastSplit<A>(s: seq<Tree<A>>)
    requires s != []
    ensures s == s[..|s| - 1] + [s[|s| - 1]]
  {
  }

  /** The inner loop of `stackInorderTraversal`: pushes left children down
      to a null, leaving what remains to be emitted unchanged. */
  method InPushLeft<A>(node: Tree<A>, stack: seq<Tree<A>>, ghost below: seq<Tree<A>>,
                       ghost list: seq<int>, ghost whole: seq<int>)
    returns (node': Tree<A>, stack': seq<Tree<A>>, ghost below': seq<Tree<A>>)
    requires stack == below + [node] && Nil !in below && list + InRest(node, below) == whole
    ensures node' == Nil && stack' == below' + [Nil] && Nil !in below'
    ensures list + InRest(Nil, below') == whole
  {
    node', stack', below' := node, stack, below;
    while stack'[|stack'| - 1] != Nil
      invariant stack' == below' + [node'] && Nil !in below' && list + InRest(node', below') == whole
      decreases Size(node')
    {
      InDescend(node', below');
      below' := below' + [node'];
      node' := node'.left;
      stack' := stack' + [node'];
    }
  }

  /** `stackInorderTraversal`: push the left spine down to a null, pop the
      null, pop and emit the node below it and push its right child. */
  method StackInorder<A>(root: Tree<A>) returns (list: seq<int>)
    ensures list == Inorder(root)
  {
    list := [];
    var stack := [root];
    var node := root;
    ghost var below: seq<Tree<A>> := [];
    ghost var whole := Inorder(root);
    while stack != []
      invariant stack == [] ==> list == whole
      invariant stack != [] ==> stack == below + [node] && Nil !in below && list + InRest(node, below) == whole
      decreases |whole| - |list|, |stack|
    {
      node, stack, below := InPushLeft(node, stack, below, list, whole);
      stack := stack[..|stack| - 1];
      if stack != [] {
        node := stack[|stack| - 1];
        stack := stack[..|stack| - 1];
        LastSplit(below);
        InAscend(list, node, stack, whole);
        list := list + [node.value];
        node := node.right;
        below := stack;
        stack := stack + [node];
      }
    }
  }

  /** What remains of the pre-order for the nodes waiting below the top of
      the stack: each one's right subtree. */
  function PrePending<A>(p: seq<Tree<A>>): seq<int> {
    if p == [] then []
    else
      var t := p[|p| - 1];
      (if t.Node? then Preorder(t.right) else []) + PrePending(p[..|p| - 1])
  }

  lemma PrePendingPush<A>(p: seq<Tree<A>>, t: Tree<A>)
    requires t.Node?
    ensures PrePending(p + [t]) == Preorder(t.right) + PrePending(p)
  {
    assert (p + [t])[..|p|] == p;
  }

  /** What remains of the pre-order for the stack `below + [top]`. */
  function PreRest<A>(top: Tree<A>, below: seq<Tree<A>>): seq<int> {
    Preorder(top) + PrePending(below)
  }

  /** Emitting the top and pushing its left child. */
  lemma PreDescend<A>(list: seq<int>, n: Tree<A>, below: seq<Tree<A>>, whole: seq<int>)
    requires n.Node? && list + PreRest(n, below) == whole
    ensures (list + [n.value]) + PreRest(n.left, below + [n]) == whole
  {
    PrePendingPush(below, n);
    var l, r, p := Preorder(n.left), Preorder(n.right), PrePending(below);
    assert PreRest(n, below) == (([n.value] + l) + r) + p;
    assert PreRest(n.left, below + [n]) == l + (r + p);
    Regroup(list, n.value, l, r, p);
  }

  /** The regrouping both descents need: the key moves from the head of the
      remaining sequence to the end of the emitted one. */
  lemma Regroup(a: seq<int>, v: int, x: seq<int>, y: seq<int>, z: seq<int>)
    ensures (a + [v]) + (x + (y + z)) == a + ((([v] + x) + y) + z)
  {
  }

  /** Popping a node from under the null top and pushing its right child. */
  lemma PreAscend<A>(n: Tree<A>, rest: seq<Tree<A>>)
    requires n.Node?
    ensures PreRest(Nil, rest + [n]) == PreRest(n.right, rest)
  {
    PrePendingPush(rest, n);
  }

  /** The inner loop of `stackPreorderTraversal`: emits each node on the top
      and pushes its left child, down to a null. */
  method PrePushLeft<A>(node: Tree<A>, stack: seq<Tree<A>>, ghost below: seq<Tree<A>>,
                        list: seq<int>, ghost whole: seq<int>)
    returns (node': Tree<A>, stack': seq<Tree<A>>, ghost below': seq<Tree<A>>, list': seq<int>)
    requires stack == below + [node] && Nil !in below && list + PreRest(node, below) == whole
    ensures node' == Nil && stack' == below' + [Nil] && Nil !in below'
    ensures list' + PreRest(Nil, below') == whole
    ensures |list'| > |list| || (stack' == stack && list' == list)
  {
    node', stack', below', list' := node, stack, below, list;
    while stack'[|stack'| - 1] != Nil
      invariant stack' == below' + [node'] && Nil !in below' && list' + PreRest(node', below') == whole
      invariant |list'| > |list| || (stack' == stack && list' == list)
      decreases Size(node')
    {
      node' := stack'[|stack'| - 1];
      PreDescend(list', node', below', whole);
      list' := list' + [node'.value];
      below' := below' + [node'];
      node' := node'.left;
      stack' := stack' + [node'];
    }
  }

  /** `stackPreorderTraversal`: emit each node as it is pushed along the left
      spine; after the null, pop a node and push its right child. */
  method StackPreorder<A>(root: Tree<A>) returns (list: seq<int>)
    ensures list == Preorder(root)
  {
    list := [];
    var stack := [root];
    var node := root;
    ghost var below: seq<Tree<A>> := [];
    ghost var whole := Preorder(root);
    while stack != []
      invariant stack == [] ==> list == whole
      invariant stack != [] ==> stack == below + [node] && Nil !in below && list + PreRest(node, below) == whole
      decreases |whole| - |list|, |stack|
    {
      node, stack, below, list := PrePushLeft(node, stack, below, list, whole);
      stack := stack[..|stack| - 1];
      if stack != [] {
        node := stack[|stack| - 1];
        stack := stack[..|stack| - 1];
        LastSplit(below);
        PreAscend(node, stack);
        node := node.right;
        below := stack;
        stack := stack + [node];
      }
    }
  }

  /** The child of `t` on the given side (`true` is right). */
  function Child<A>(t: Tree<A>, right: bool): Tree<A> {
    match t
    case Nil => Nil
    case Node(_, l, _, r) => if right then r else l
  }

  /** The subtree of `root` at path `p` (`true` steps right). In a tree every
      node object sits at exactly one path, so the path stands for the
      object's identity. */
  function At<A>(root: Tree<A>, p: seq<bool>): Tree<A>
    decreases |p|
  {
    if p == [] then root else Child(At(root, p[..|p| - 1]), p[|p| - 1])
  }

  lemma AtStep<A>(root: Tree<A>, p: seq<bool>, d: bool)
    ensures At(root, p + [d]) == Child(At(root, p), d)
  {
    assert (p + [d])[..|p|] == p;
  }

  /** The last emitted node (`prev`) is not at or below path `p`. */
  predicate NotUnder(prev: Option<seq<bool>>, p: seq<bool>) {
    prev.None? || !(p <= prev.value)
  }

  /** The entries below the top of the post-order stack: each is a node at
      the path recorded for it; `phases` says whether its right subtree is
      under way (`true`) or its left one (`false`). Below a left-phase entry
      nothing of its right subtree has been emitted. */
  ghost predicate Entries<A>(root: Tree<A>, stack: seq<Tree<A>>, paths: seq<seq<bool>>, phases: seq<bool>,
                             prev: Option<seq<bool>>)
    requires |paths| == |stack| && |phases| == |stack| - 1
  {
    && (forall j :: 0 <= j < |phases| ==> stack[j].Node? && stack[j] == At(root, paths[j]))
    && (forall j :: 0 <= j < |phases| ==> phases[j] ==> stack[j].right.Node?)
    && (forall j :: 0 <= j < |phases| ==> !phases[j] ==> NotUnder(prev, paths[j] + [true]))
  }

  /** The path of each entry is the sequence of phases below it: every entry
      is the child of the one below on the side that entry's phase names. */
  ghost predicate Nested(paths: seq<seq<bool>>, phases: seq<bool>)
    requires |phases| == |paths| - 1
  {
    forall k :: 0 <= k < |paths| ==> paths[k] == phases[..k]
  }

  /** The top of the post-order stack: `done` marks the null pushed right
      after emitting a node, and if that node's parent is in its right phase,
      the emitted node was its right child. Any other top is the subtree at
      its path, and a fresh node has nothing of its subtree emitted. */
  ghost predicate TopState<A>(root: Tree<A>, stack: seq<Tree<A>>, paths: seq<seq<bool>>, phases: seq<bool>,
                              done: bool, prev: Option<seq<bool>>)
    requires |stack| >= 1 && |paths| == |stack| && |phases| == |stack| - 1
  {
    && (done ==> stack[|stack| - 1] == Nil)
    && (!done ==> stack[|stack| - 1] == At(root, paths[|stack| - 1]))
    && (done && |phases| >= 1 && phases[|phases| - 1] ==> prev == Some(paths[|phases| - 1] + [true]))
    && (!done && stack[|stack| - 1].Node? ==> NotUnder(prev, paths[|stack| - 1]))
  }

  /** The shape of the post-order stack. */
  ghost predicate Chain<A>(root: Tree<A>, stack: seq<Tree<A>>, paths: seq<seq<bool>>, phases: seq<bool>,
                           done: bool, prev: Option<seq<bool>>)
  {
    && |stack| >= 1 && |paths| == |stack| && |phases| == |stack| - 1
    && Entries(root, stack, paths, phases, prev)
    && Nested(paths, phases)
    && TopState(root, stack, paths, phases, done, prev)
  }

  /** What remains of the post-order for a node below the top, in the given
      phase. */
  function PostVisit<A>(t: Tree<A>, inRight: bool): seq<int> {
    match t
    case Nil => []
    case Node(_, _, v, r) => if inRight then [v] else Postorder(r) + [v]
  }

  function PostPending<A>(p: seq<Tree<A>>, phases: seq<bool>): seq<int>
    requires |phases| == |p|
  {
    if p == [] then []
    else PostVisit(p[|p| - 1], phases[|p| - 1]) + PostPending(p[..|p| - 1], phases[..|p| - 1])
  }

  /** What remains of the post-order for a whole stack. */
  function PostRemaining<A>(stack: seq<Tree<A>>, phases: seq<bool>): seq<int>
    requires stack != [] && |phases| == |stack| - 1
  {
    Postorder(stack[|stack| - 1]) + PostPending(stack[..|stack| - 1], phases)
  }

  /** The number of nodes with a right child. */
  function RightLinks<A>(t: Tree<A>): nat {
    match t
    case Nil => 0
    case Node(_, l, _, r) => RightLinks(l) + RightLinks(r) + (if r.Node? then 1 else 0)
  }

  /** Work left in a fresh subtree: one step per node pushed along a left
      spine and one per right child still to be entered. */
  function Weight<A>(t: Tree<A>): nat {
    Size(t) + RightLinks(t)
  }

  function PendingWeight<A>(p: seq<Tree<A>>, phases: seq<bool>): nat
    requires |phases| == |p|
  {
    if p == [] then 0
    else
      var t := p[|p| - 1];
      (if !phases[|p| - 1] && t.Node? && t.right.Node? then 1 + Weight(t.right) else 0)
      + PendingWeight(p[..|p| - 1], phases[..|p| - 1])
  }

  function Potential<A>(stack: seq<Tree<A>>, phases: seq<bool>): nat
    requires stack != [] && |phases| == |stack| - 1
  {
    Weight(stack[|stack| - 1]) + PendingWeight(stack[..|stack| - 1], phases)
  }

  lemma PendingSnoc<A>(p: seq<Tree<A>>, phases: seq<bool>, t: Tree<A>, b: bool)
    requires |phases| == |p|
    ensures PostPending(p + [t], phases + [b]) == PostVisit(t, b) + PostPending(p, phases)
    ensures PendingWeight(p + [t], phases + [b])
         == (if !b && t.Node? && t.right.Node? then 1 + Weight(t.right) else 0) + PendingWeight(p, phases)
  {
    assert (p + [t])[..|p|] == p;
    assert (phases + [b])[..|p|] == phases;
  }

  lemma NestedPop(paths: seq<seq<bool>>, phases: seq<bool>)
    requires |paths| >= 2 && |phases| == |paths| - 1 && Nested(paths, phases)
    ensures Nested(paths[..|paths| - 1], phases[..|phases| - 1])
  {
    forall k | 0 <= k < |paths| - 1 ensures paths[k] == phases[..|phases| - 1][..k] {
      assert phases[..|phases| - 1][..k] == phases[..k];
    }
  }

  lemma NestedPush(paths: seq<seq<bool>>, phases: seq<bool>, d: bool)
    requires |paths| >= 1 && |phases| == |paths| - 1 && Nested(paths, phases)
    ensures Nested(paths + [paths[|paths| - 1] + [d]], phases + [d])
  {
    var paths', phases' := paths + [paths[|paths| - 1] + [d]], phases + [d];
    forall k | 0 <= k < |paths'| ensures paths'[k] == phases'[..k] {
      assert phases'[..k] == if k < |paths| then phases[..k] else phases + [d];
    }
  }

  /** A lower entry's phase is the step its path takes towards a higher one. */
  lemma NestedSide(paths: seq<seq<bool>>, phases: seq<bool>, j: nat, k: nat)
    requires |phases| == |paths| - 1 && Nested(paths, phases) && j < k < |paths|
    ensures |paths[j]| < |paths[k]| && paths[k][|paths[j]|] == phases[j]
    ensures paths[j] + [phases[j]] <= paths[k]
  {
    assert paths[k] == phases[..k];
    assert phases[..k][..j + 1] == phases[..j] + [phases[j]];
  }

  /** Consecutive paths differ by one step. */
  lemma NestedLink(paths: seq<seq<bool>>, phases: seq<bool>, j: nat)
    requires |phases| == |paths| - 1 && Nested(paths, phases) && j < |phases|
    ensures paths[j + 1] == paths[j] + [phases[j]]
  {
    assert phases[..j + 1] == phases[..j] + [phases[j]];
  }

  lemma DescendMeasures<A>(stack: seq<Tree<A>>, phases: seq<bool>)
    requires stack != [] && |phases| == |stack| - 1 && stack[|stack| - 1].Node?
    ensures var n := stack[|stack| - 1];
            && PostRemaining(stack + [n.left], phases + [false]) == PostRemaining(stack, phases)
            && Potential(stack + [n.left], phases + [false]) < Potential(stack, phases)
  {
    var last := |stack| - 1;
    var n := stack[last];
    assert (stack + [n.left])[..|stack|] == stack;
    assert stack[..last] + [n] == stack;
    PendingSnoc(stack[..last], phases, n, false);
  }

  /** Pushing the left child of a fresh top. */
  lemma PostDescend<A>(root: Tree<A>, stack: seq<Tree<A>>, paths: seq<seq<bool>>, phases: seq<bool>,
                       done: bool, prev: Option<seq<bool>>,
                       stack': seq<Tree<A>>, paths': seq<seq<bool>>, phases': seq<bool>)
    requires Chain(root, stack, paths, phases, done, prev) && stack[|stack| - 1].Node?
    requires stack' == stack + [stack[|stack| - 1].left]
    requires paths' == paths + [paths[|stack| - 1] + [false]] && phases' == phases + [false]
    ensures Chain(root, stack', paths', phases', false, prev)
    ensures PostRemaining(stack', phases') == PostRemaining(stack, phases)
    ensures Potential(stack', phases') < Potential(stack, phases)
  {
    var last := |stack| - 1;
    var n := stack[last];
    AtStep(root, paths[last], false);
    NestedPush(paths, phases, false);
    assert NotUnder(prev, paths[last] + [true]);
    assert NotUnder(prev, paths[last] + [false]);
    assert Entries(root, stack', paths', phases', prev);
    assert TopState(root, stack', paths', phases', false, prev);
    DescendMeasures(stack, phases);
  }

  /** Emitting the node below the null top: it has no right child, or its
      right child was the last node emitted. */
  lemma PostEmit<A>(root: Tree<A>, stack: seq<Tree<A>>, paths: seq<seq<bool>>, phases: seq<bool>,
                    done: bool, prev: Option<seq<bool>>,
                    stack': seq<Tree<A>>, paths': seq<seq<bool>>, phases': seq<bool>, prev': Option<seq<bool>>)
    requires Chain(root, stack, paths, phases, done, prev)
    requires |stack| >= 2 && stack[|stack| - 1] == Nil
    requires stack[|stack| - 2].right == Nil || prev == Some(paths[|stack| - 2] + [true])
    requires stack' == stack[..|stack| - 2] + [Nil] && paths' == paths[..|stack| - 1]
    requires phases' == phases[..|stack| - 2] && prev' == Some(paths[|stack| - 2])
    ensures Chain(root, stack', paths', phases', true, prev')
    ensures PostRemaining(stack, phases) == [stack[|stack| - 2].value] + PostRemaining(stack', phases')
    ensures Potential(stack', phases') <= Potential(stack, phases)
  {
    EmitChain(root, stack, paths, phases, done, prev);
    EmitMeasures(stack, phases);
  }

  lemma EmitChain<A>(root: Tree<A>, stack: seq<Tree<A>>, paths: seq<seq<bool>>, phases: seq<bool>,
                     done: bool, prev: Option<seq<bool>>)
    requires Chain(root, stack, paths, phases, done, prev)
    requires |stack| >= 2
    ensures var k := |stack| - 2;
            Chain(root, stack[..k] + [Nil], paths[..k + 1], phases[..k], true, Some(paths[k]))
  {
    var k := |stack| - 2;
    var stack', paths', phases' := stack[..k] + [Nil], paths[..k + 1], phases[..k];
    var prev' := Some(paths[k]);
    forall j | 0 <= j < k && !phases[j] ensures NotUnder(prev', paths[j] + [true]) {
      NestedSide(paths, phases, j, k);
      assert (paths[j] + [true])[|paths[j]|] == true;
    }
    assert Entries(root, stack', paths', phases', prev');
    NestedPop(paths, phases);
    if k >= 1 {
      NestedLink(paths, phases, k - 1);
    }
    assert TopState(root, stack', paths', phases', true, prev');
  }

  lemma EmitMeasures<A>(stack: seq<Tree<A>>, phases: seq<bool>)
    requires |stack| >= 2 && |phases| == |stack| - 1 && stack[|stack| - 1] == Nil && stack[|stack| - 2].Node?
    requires stack[|stack| - 2].right == Nil || phases[|stack| - 2]
    ensures var k := |stack| - 2;
            && PostRemaining(stack, phases) == [stack[k].value] + PostRemaining(stack[..k] + [Nil], phases[..k])
            && Potential(stack[..k] + [Nil], phases[..k]) <= Potential(stack, phases)
  {
    var k := |stack| - 2;
    assert Weight(stack[k + 1]) == 0;
    assert stack[..k + 1][..k] == stack[..k];
    NilTop(stack[..k], phases[..k]);
    EmitPending(stack[..k + 1], phases);
  }

  /** A stack whose top is null has only its pending entries left. */
  lemma NilTop<A>(p: seq<Tree<A>>, phases: seq<bool>)
    requires |phases| == |p|
    ensures PostRemaining(p + [Nil], phases) == PostPending(p, phases)
    ensures Potential(p + [Nil], phases) == PendingWeight(p, phases)
  {
    assert (p + [Nil])[..|p|] == p;
  }

  /** The top pending entry, with its right subtree done or absent, yields
      just its own value. */
  lemma EmitPending<A>(p: seq<Tree<A>>, phases: seq<bool>)
    requires p != [] && |phases| == |p| && p[|p| - 1].Node?
    requires p[|p| - 1].right == Nil || phases[|p| - 1]
    ensures var k := |p| - 1;
            && PostPending(p, phases) == [p[k].value] + PostPending(p[..k], phases[..k])
            && PendingWeight(p[..k], phases[..k]) <= PendingWeight(p, phases)
  {
    var t := p[|p| - 1];
    assert PostVisit(t, phases[|p| - 1]) == [t.value];
  }

  /** Entering the right subtree of the node below the null top. */
  lemma PostTurn<A>(root: Tree<A>, stack: seq<Tree<A>>, paths: seq<seq<bool>>, phases: seq<bool>,
                    done: bool, prev: Option<seq<bool>>,
                    stack': seq<Tree<A>>, paths': seq<seq<bool>>, phases': seq<bool>)
    requires Chain(root, stack, paths, phases, done, prev)
    requires |stack| >= 2 && stack[|stack| - 1] == Nil
    requires !(stack[|stack| - 2].right == Nil || prev == Some(paths[|stack| - 2] + [true]))
    requires stack' == stack[..|stack| - 1] + [stack[|stack| - 2].right]
    requires paths' == paths[..|stack| - 1] + [paths[|stack| - 2] + [true]]
    requires phases' == phases[..|stack| - 2] + [true]
    ensures Chain(root, stack', paths', phases', false, prev)
    ensures PostRemaining(stack', phases') == PostRemaining(stack, phases)
    ensures Potential(stack', phases') < Potential(stack, phases)
  {
    var k := |stack| - 2;
    TurnChain(root, stack, paths, phases, done, prev, stack', paths', phases');
    TurnMeasures(stack, phases);
  }

  lemma TurnChain<A>(root: Tree<A>, stack: seq<Tree<A>>, paths: seq<seq<bool>>, phases: seq<bool>,
                     done: bool, prev: Option<seq<bool>>,
                     stack': seq<Tree<A>>, paths': seq<seq<bool>>, phases': seq<bool>)
    requires Chain(root, stack, paths, phases, done, prev)
    requires |stack| >= 2 && stack[|stack| - 1] == Nil
    requires !(stack[|stack| - 2].right == Nil || prev == Some(paths[|stack| - 2] + [true]))
    requires stack' == stack[..|stack| - 1] + [stack[|stack| - 2].right]
    requires paths' == paths[..|stack| - 1] + [paths[|stack| - 2] + [true]]
    requires phases' == phases[..|stack| - 2] + [true]
    ensures !phases[|stack| - 2]
    ensures Chain(root, stack', paths', phases', false, prev)
  {
    var k := |stack| - 2;
    TurnPhase(root, stack, paths, phases, done, prev);
    NestedPop(paths, phases);
    NestedPush(paths[..k + 1], phases[..k], true);
    TurnEntries(root, stack, paths, phases, prev, stack', paths', phases');
    AtStep(root, paths[k], true);
    assert TopState(root, stack', paths', phases', false, prev);
  }

  /** The node below the null top is in its left phase when the walk turns
      right: were it in its right phase, the null would be its right child,
      which exists, or would follow the emission of that child. */
  lemma TurnPhase<A>(root: Tree<A>, stack: seq<Tree<A>>, paths: seq<seq<bool>>, phases: seq<bool>,
                     done: bool, prev: Option<seq<bool>>)
    requires Chain(root, stack, paths, phases, done, prev)
    requires |stack| >= 2 && stack[|stack| - 1] == Nil
    requires !(stack[|stack| - 2].right == Nil || prev == Some(paths[|stack| - 2] + [true]))
    ensures !phases[|stack| - 2]
  {
    var k := |stack| - 2;
    AtStep(root, paths[k], true);
    NestedLink(paths, phases, k);
  }

  /** The entries after the turn: those below are kept, and the turned node
      is now in its right phase. */
  lemma TurnEntries<A>(root: Tree<A>, stack: seq<Tree<A>>, paths: seq<seq<bool>>, phases: seq<bool>,
                       prev: Option<seq<bool>>,
                       stack': seq<Tree<A>>, paths': seq<seq<bool>>, phases': seq<bool>)
    requires |stack| >= 2 && |paths| == |stack| && |phases| == |stack| - 1
    requires Entries(root, stack, paths, phases, prev)
    requires stack[|stack| - 2].right.Node?
    requires stack' == stack[..|stack| - 1] + [stack[|stack| - 2].right]
    requires paths' == paths[..|stack| - 1] + [paths[|stack| - 2] + [true]]
    requires phases' == phases[..|stack| - 2] + [true]
    ensures Entries(root, stack', paths', phases', prev)
  {
  }

  lemma TurnMeasures<A>(stack: seq<Tree<A>>, phases: seq<bool>)
    requires |stack| >= 2 && |phases| == |stack| - 1 && stack[|stack| - 1] == Nil
    requires stack[|stack| - 2].Node? && stack[|stack| - 2].right.Node? && !phases[|stack| - 2]
    ensures var k := |stack| - 2;
            var stack', phases' := stack[..k + 1] + [stack[k].right], phases[..k] + [true];
            && PostRemaining(stack', phases') == PostRemaining(stack, phases)
            && Potential(stack', phases') < Potential(stack, phases)
  {
    var k := |stack| - 2;
    var n := stack[k];
    var stack', phases' := stack[..k + 1] + [n.right], phases[..k] + [true];
    assert stack[..k + 1] == stack[..k] + [n];
    assert stack'[..k + 1] == stack[..k] + [n];
    assert phases == phases[..k] + [false];
    PendingSnoc(stack[..k], phases[..k], n, false);
    PendingSnoc(stack[..k], phases[..k], n, true);
  }

  /** What the inner loop of `stackPostorderTraversal` keeps, from the state
      (`stack`, `phases`) it started in to the current one. */
  ghost predicate SpineFrom<A>(root: Tree<A>, stack: seq<Tree<A>>, phases: seq<bool>, prev: Option<seq<bool>>,
                               stack': seq<Tree<A>>, paths': seq<seq<bool>>, node': Tree<A>, phases': seq<bool>,
                               done': bool)
  {
    && Chain(root, stack', paths', phases', done', prev)
    && |stack| >= 1 && |phases| == |stack| - 1
    && (stack'[|stack'| - 1].Node? ==> node' == stack'[|stack'| - 1])
    && PostRemaining(stack', phases') == PostRemaining(stack, phases)
    && Potential(stack', phases') <= Potential(stack, phases)
  }

  /** The inner loop's state holds before its first round. */
  lemma SpineStart<A>(root: Tree<A>, stack: seq<Tree<A>>, paths: seq<seq<bool>>, node: Tree<A>,
                      phases: seq<bool>, done: bool, prev: Option<seq<bool>>)
    requires Chain(root, stack, paths, phases, done, prev)
    requires stack[|stack| - 1].Node? ==> node == stack[|stack| - 1]
    ensures SpineFrom(root, stack, phases, prev, stack, paths, node, phases, done)
  {
  }

  /** One push of a left child keeps the inner loop's state. */
  lemma SpineStep<A>(root: Tree<A>, stack: seq<Tree<A>>, phases: seq<bool>, prev: Option<seq<bool>>,
                     stack': seq<Tree<A>>, paths': seq<seq<bool>>, node': Tree<A>, phases': seq<bool>,
                     done': bool)
    requires SpineFrom(root, stack, phases, prev, stack', paths', node', phases', done')
    requires stack'[|stack'| - 1] != Nil
    ensures node'.Node? && Size(node'.left) < Size(node')
    ensures SpineFrom(root, stack, phases, prev, stack' + [node'.left],
                      paths' + [paths'[|paths'| - 1] + [false]], node'.left, phases' + [false], false)
  {
    assert node' == stack'[|stack'| - 1];
    PostDescend(root, stack', paths', phases', done', prev, stack' + [node'.left],
                paths' + [paths'[|paths'| - 1] + [false]], phases' + [false]);
  }

  /** The inner loop of `stackPostorderTraversal`: push left children until
      the null under the leftmost node is on top. The ghost `done'` stays
      `done` when nothing is pushed. */
  method PushLeftSpine<A>(root: Tree<A>, stack: seq<Tree<A>>, paths: seq<seq<bool>>, node: Tree<A>,
                          ghost phases: seq<bool>, ghost done: bool, prev: Option<seq<bool>>)
    returns (stack': seq<Tree<A>>, paths': seq<seq<bool>>, node': Tree<A>, ghost phases': seq<bool>,
             ghost done': bool)
    requires Chain(root, stack, paths, phases, done, prev)
    requires stack[|stack| - 1].Node? ==> node == stack[|stack| - 1]
    ensures Chain(root, stack', paths', phases', done', prev)
    ensures stack'[|stack'| - 1] == Nil
    ensures PostRemaining(stack', phases') == PostRemaining(stack, phases)
    ensures Potential(stack', phases') <= Potential(stack, phases)
  {
    SpineStart(root, stack, paths, node, phases, done, prev);
    stack', paths', node', phases', done' := stack, paths, node, phases, done;
    while stack'[|stack'| - 1] != Nil
      invariant SpineFrom(root, stack, phases, prev, stack', paths', node', phases', done')
      decreases Size(node')
    {
      SpineStep(root, stack, phases, prev, stack', paths', node', phases', done');
      node' := node'.left;
      stack', paths', phases', done' := stack' + [node'], paths' + [paths'[|paths'| - 1] + [false]], phases' + [false], false;
    }
  }

  /** One round of `stackPostorderTraversal` after the left spine is pushed:
      pop the null; the node below it is emitted when it has no right child
      or its right child is the node emitted last (compared by identity, here
      by path), and a null is pushed in its place; otherwise its right child
      is pushed. */
  method PostSettle<A>(root: Tree<A>, stack: seq<Tree<A>>, paths: seq<seq<bool>>, prev: Option<seq<bool>>,
                       list: seq<int>, ghost phases: seq<bool>, ghost done: bool)
    returns (stack': seq<Tree<A>>, paths': seq<seq<bool>>, node': Tree<A>, prev': Option<seq<bool>>,
             list': seq<int>, ghost phases': seq<bool>, ghost done': bool)
    requires Chain(root, stack, paths, phases, done, prev) && stack[|stack| - 1] == Nil
    requires list + PostRemaining(stack, phases) == Postorder(root)
    ensures stack' != [] ==> Chain(root, stack', paths', phases', done', prev')
    ensures stack' != [] && stack'[|stack'| - 1].Node? ==> node' == stack'[|stack'| - 1]
    ensures stack' != [] ==> list' + PostRemaining(stack', phases') == Postorder(root)
    ensures stack' == [] ==> list' == Postorder(root)
    ensures |list'| > |list|
         || (list' == list && (stack' == [] || Potential(stack', phases') < Potential(stack, phases)))
  {
    if |stack| == 1 {
      stack', paths', node', prev', list', phases', done' := [], [], Nil, prev, list, phases, done;
      return;
    }
    var k := |stack| - 2;
    node' := stack[k];
    if node'.right == Nil || prev == Some(paths[k] + [true]) {
      stack', paths', prev', list' := stack[..k] + [Nil], paths[..k + 1], Some(paths[k]), list + [node'.value];
      phases', done' := phases[..k], true;
      SettleEmit(root, stack, paths, phases, done, prev, list);
    } else {
      node' := node'.right;
      stack', paths', prev', list' := stack[..k + 1] + [node'], paths[..k + 1] + [paths[k] + [true]], prev, list;
      phases', done' := phases[..k] + [true], false;
      SettleTurn(root, stack, paths, phases, done, prev, list);
    }
  }

  /** `PostSettle` emitting the node below the null top. */
  lemma SettleEmit<A>(root: Tree<A>, stack: seq<Tree<A>>, paths: seq<seq<bool>>, phases: seq<bool>,
                      done: bool, prev: Option<seq<bool>>, list: seq<int>)
    requires Chain(root, stack, paths, phases, done, prev)
    requires |stack| >= 2 && stack[|stack| - 1] == Nil
    requires stack[|stack| - 2].right == Nil || prev == Some(paths[|stack| - 2] + [true])
    requires list + PostRemaining(stack, phases) == Postorder(root)
    ensures var k := |stack| - 2;
            && Chain(root, stack[..k] + [Nil], paths[..k + 1], phases[..k], true, Some(paths[k]))
            && (list + [stack[k].value]) + PostRemaining(stack[..k] + [Nil], phases[..k]) == Postorder(root)
  {
    var k := |stack| - 2;
    var stack', phases' := stack[..k] + [Nil], phases[..k];
    PostEmit(root, stack, paths, phases, done, prev, stack', paths[..k + 1], phases', Some(paths[k]));
    assert list + ([stack[k].value] + PostRemaining(stack', phases'))
        == (list + [stack[k].value]) + PostRemaining(stack', phases');
  }

  /** `PostSettle` entering the right subtree of the node below the null top. */
  lemma SettleTurn<A>(root: Tree<A>, stack: seq<Tree<A>>, paths: seq<seq<bool>>, phases: seq<bool>,
                      done: bool, prev: Option<seq<bool>>, list: seq<int>)
    requires Chain(root, stack, paths, phases, done, prev)
    requires |stack| >= 2 && stack[|stack| - 1] == Nil
    requires !(stack[|stack| - 2].right == Nil || prev == Some(paths[|stack| - 2] + [true]))
    requires list + PostRemaining(stack, phases) == Postorder(root)
    ensures var k := |stack| - 2;
            var stack', phases' := stack[..k + 1] + [stack[k].right], phases[..k] + [true];
            && Chain(root, stack', paths[..k + 1] + [paths[k] + [true]], phases', false, prev)
            && list + PostRemaining(stack', phases') == Postorder(root)
            && Potential(stack', phases') < Potential(stack, phases)
  {
    var k := |stack| - 2;
    assert stack[..k + 1] == stack[..|stack| - 1];
    assert paths[..k + 1] == paths[..|stack| - 1];
    PostTurn(root, stack, paths, phases, done, prev, stack[..k + 1] + [stack[k].right],
             paths[..k + 1] + [paths[k] + [true]], phases[..k] + [true]);
  }

  /** `stackPostorderTraversal`, the variant with `prev`: a null on the stack
      marks that the left subtree of the node below it is finished. */
  method StackPostorder<A>(root: Tree<A>) returns (list: seq<int>)
    ensures list == Postorder(root)
  {
    list := [];
    var stack := [root];
    var paths: seq<seq<bool>> := [[]];
    var prev: Option<seq<bool>> := None;
    var node := root;
    ghost var phases: seq<bool> := [];
    ghost var done := false;
    assert PostRemaining(stack, phases) == Postorder(root);
    while stack != []
      invariant stack != [] ==> Chain(root, stack, paths, phases, done, prev)
      invariant stack != [] && stack[|stack| - 1].Node? ==> node == stack[|stack| - 1]
      invariant stack != [] ==> list + PostRemaining(stack, phases) == Postorder(root)
      invariant stack == [] ==> list == Postorder(root)
      decreases |Postorder(root)| - |list|, if stack == [] then 0 else Potential(stack, phases), |stack|
    {
      stack, paths, node, phases, done := PushLeftSpine(root, stack, paths, node, phases, done, prev);
      stack, paths, node, prev, list, phases, done := PostSettle(root, stack, paths, prev, list, phases, done);
    }
  }

  /** The pre-order of the mirror image: node, right subtree, left subtree.
      This is the order in which the two-stack walk saves nodes. */
  function MirrorPreorder<A>(t: Tree<A>): (s: seq<int>)
    ensures |s| == Size(t)
  {
    match t
    case Nil => []
    case Node(_, l, v, r) => [v] + MirrorPreorder(r) + MirrorPreorder(l)
  }

  function Reverse(s: seq<int>): (r: seq<int>)
    ensures |r| == |s|
  {
    if s == [] then [] else [s[|s| - 1]] + Reverse(s[..|s| - 1])
  }

  lemma {:induction false} ReverseAppend(a: seq<int>, b: seq<int>)
    ensures Reverse(a + b) == Reverse(b) + Reverse(a)
    decreases |b|
  {
    if b == [] {
      assert a + b == a;
    } else {
      var b' := b[..|b| - 1];
      assert (a + b)[..|a + b| - 1] == a + b';
      ReverseAppend(a, b');
    }
  }

  lemma ReversePush(s: seq<int>, v: int)
    ensures Reverse(s + [v]) == [v] + Reverse(s)
  {
    assert (s + [v])[..|s|] == s;
  }

  /** Read backwards, the mirrored pre-order is the post-order. */
  lemma {:induction false} ReversedMirrorIsPostorder<A>(t: Tree<A>)
    ensures Reverse(MirrorPreorder(t)) == Postorder(t)
  {
    match t
    case Nil =>
    case Node(_, l, v, r) =>
      ReversedMirrorIsPostorder(l);
      ReversedMirrorIsPostorder(r);
      ReverseAppend([v] + MirrorPreorder(r), MirrorPreorder(l));
      ReverseAppend([v], MirrorPreorder(r));
      assert Reverse([v]) == [v];
  }

  /** The keys of the nodes in a sequence of stack entries (a null, which
      never occurs where this is used, counts as 0). */
  function KeysOf<A>(s: seq<Tree<A>>): (r: seq<int>)
    ensures |r| == |s|
  {
    seq(|s|, i requires 0 <= i < |s| => if s[i].Node? then s[i].value else 0)
  }

  lemma KeysOfPush<A>(s: seq<Tree<A>>, t: Tree<A>)
    requires t.Node?
    ensures KeysOf(s + [t]) == KeysOf(s) + [t.value]
  {
  }

  /** What remains of the mirrored pre-order for the nodes waiting below the
      top: each one's left subtree. */
  function MirrorPending<A>(p: seq<Tree<A>>): seq<int> {
    if p == [] then []
    else
      var t := p[|p| - 1];
      (if t.Node? then MirrorPreorder(t.left) else []) + MirrorPending(p[..|p| - 1])
  }

  function MirrorRemaining<A>(stack: seq<Tree<A>>): seq<int> {
    if stack == [] then [] else MirrorPreorder(stack[|stack| - 1]) + MirrorPending(stack[..|stack| - 1])
  }

  /** Saving the top and pushing its right child. */
  lemma MirrorDescend<A>(saved: seq<Tree<A>>, stack: seq<Tree<A>>)
    requires stack != [] && stack[|stack| - 1].Node?
    ensures var n := stack[|stack| - 1];
            KeysOf(saved) + MirrorRemaining(stack) == KeysOf(saved + [n]) + MirrorRemaining(stack + [n.right])
  {
    var n, p := stack[|stack| - 1], stack[..|stack| - 1];
    var pushed := stack + [n.right];
    assert pushed[..|pushed| - 1] == stack;
    var x, y, z := MirrorPreorder(n.right), MirrorPreorder(n.left), MirrorPending(p);
    assert MirrorRemaining(pushed) == x + MirrorPending(stack);
    assert MirrorPending(stack) == y + z;
    assert MirrorRemaining(stack) == (([n.value] + x) + y) + z;
    KeysOfPush(saved, n);
    Regroup(KeysOf(saved), n.value, x, y, z);
  }

  /** Popping the null top and the node below it and pushing its left child. */
  lemma MirrorAscend<A>(stack: seq<Tree<A>>)
    requires |stack| >= 2 && stack[|stack| - 1] == Nil && stack[|stack| - 2].Node?
    ensures MirrorRemaining(stack) == MirrorRemaining(stack[..|stack| - 2] + [stack[|stack| - 2].left])
  {
    var n, q := stack[|stack| - 2], stack[..|stack| - 2];
    assert stack[..|stack| - 1] == q + [n];
    assert (q + [n])[..|q|] == q;
    assert (q + [n.left])[..|q|] == q;
  }

  /** The last loop of `stackPostorderTraversal1`: pop every saved node and
      append its key. */
  method PopKeys<A>(saved: seq<Tree<A>>) returns (list: seq<int>)
    requires Nil !in saved
    ensures list == Reverse(KeysOf(saved))
  {
    list := [];
    var stack1 := saved;
    while stack1 != []
      invariant Nil !in stack1
      invariant list + Reverse(KeysOf(stack1)) == Reverse(KeysOf(saved))
      decreases |stack1|
    {
      ghost var before := stack1;
      var top := stack1[|stack1| - 1];
      stack1 := stack1[..|stack1| - 1];
      assert before == stack1 + [top];
      KeysOfPush(stack1, top);
      ReversePush(KeysOf(stack1), top.value);
      assert list + ([top.value] + Reverse(KeysOf(stack1))) == (list + [top.value]) + Reverse(KeysOf(stack1));
      list := list + [top.value];
    }
  }

  /** What the first loop of `stackPostorderTraversal1` keeps: `node` is the
      top of `stack`, `stack1` holds the saved nodes and that top, and the
      saved keys followed by what remains form the mirrored pre-order. */
  ghost predicate Mirroring<A>(root: Tree<A>, stack: seq<Tree<A>>, stack1: seq<Tree<A>>,
                               saved: seq<Tree<A>>, node: Tree<A>)
  {
    && stack != [] && Nil !in stack[..|stack| - 1] && node == stack[|stack| - 1]
    && stack1 == saved + [node] && Nil !in saved
    && KeysOf(saved) + MirrorRemaining(stack) == MirrorPreorder(root)
  }

  /** The inner loop of the first loop: follow right children down to a null,
      pushing each onto both stacks. */
  method SaveRightSpine<A>(root: Tree<A>, stack: seq<Tree<A>>, stack1: seq<Tree<A>>,
                           ghost saved: seq<Tree<A>>, node: Tree<A>)
    returns (stack': seq<Tree<A>>, stack1': seq<Tree<A>>, ghost saved': seq<Tree<A>>, node': Tree<A>)
    requires Mirroring(root, stack, stack1, saved, node)
    ensures Mirroring(root, stack', stack1', saved', node') && node' == Nil
    ensures |saved| <= |saved'| <= |MirrorPreorder(root)|
    ensures stack' == stack || |saved'| > |saved|
  {
    stack', stack1', saved', node' := stack, stack1, saved, node;
    while stack'[|stack'| - 1] != Nil
      invariant Mirroring(root, stack', stack1', saved', node')
      invariant |saved'| >= |saved| && (stack' == stack || |saved'| > |saved|)
      decreases Size(node')
    {
      MirroringDescend(root, stack', stack1', saved', node');
      saved' := saved' + [node'];
      node' := node'.right;
      stack' := stack' + [node'];
      stack1' := stack1' + [node'];
    }
    MirroringBound(root, stack', stack1', saved', node');
  }

  /** One step down the right spine keeps the loop's state. */
  lemma MirroringDescend<A>(root: Tree<A>, stack: seq<Tree<A>>, stack1: seq<Tree<A>>,
                            saved: seq<Tree<A>>, node: Tree<A>)
    requires Mirroring(root, stack, stack1, saved, node) && node.Node?
    ensures Mirroring(root, stack + [node.right], stack1 + [node.right], saved + [node], node.right)
  {
    assert stack == stack[..|stack| - 1] + [node];
    assert (stack + [node.right])[..|stack|] == stack;
    MirrorDescend(saved, stack);
  }

  /** The saved nodes are never more than the tree's. */
  lemma MirroringBound<A>(root: Tree<A>, stack: seq<Tree<A>>, stack1: seq<Tree<A>>,
                          saved: seq<Tree<A>>, node: Tree<A>)
    requires Mirroring(root, stack, stack1, saved, node)
    ensures |saved| <= |MirrorPreorder(root)|
  {
    assert |KeysOf(saved) + MirrorRemaining(stack)| == |MirrorPreorder(root)|;
  }

  /** Popping the null and the saved node below it, whose left child then
      goes on both stacks, keeps the loop's state. */
  lemma MirroringTurn<A>(root: Tree<A>, stack: seq<Tree<A>>, stack1: seq<Tree<A>>, saved: seq<Tree<A>>)
    requires Mirroring(root, stack, stack1, saved, Nil) && |stack| >= 2
    ensures var popped := stack[..|stack| - 1];
            var n := popped[|popped| - 1];
            && n.Node?
            && Mirroring(root, popped[..|popped| - 1] + [n.left], stack1[..|stack1| - 1] + [n.left], saved, n.left)
  {
    TurnShape(stack);
    MirrorAscend(stack);
    assert stack1[..|stack1| - 1] == saved;
  }

  /** Below the null top of a stack without other nulls: the node there, and
      the stack with it replaced by its left child. */
  lemma TurnShape<A>(stack: seq<Tree<A>>)
    requires |stack| >= 2 && Nil !in stack[..|stack| - 1]
    ensures var popped := stack[..|stack| - 1];
            var n := popped[|popped| - 1];
            var turned := popped[..|popped| - 1] + [n.left];
            && n == stack[|stack| - 2] && n.Node?
            && turned == stack[..|stack| - 2] + [n.left]
            && Nil !in turned[..|turned| - 1]
  {
    var popped := stack[..|stack| - 1];
    var n, rest := stack[|stack| - 2], stack[..|stack| - 2];
    assert popped[|popped| - 1] == n && n in popped;
    assert Nil !in rest by {
      assert forall t | t in rest :: t in popped;
    }
    assert popped[..|popped| - 1] == rest;
    assert (rest + [n.left])[..|rest|] == rest;
  }

  /** With only the null left, everything has been saved. */
  lemma MirroringEnd<A>(root: Tree<A>, stack1: seq<Tree<A>>, saved: seq<Tree<A>>)
    requires Mirroring(root, [Nil], stack1, saved, Nil)
    ensures stack1[..|stack1| - 1] == saved && KeysOf(saved) == MirrorPreorder(root)
  {
    var only: seq<Tree<A>> := [Nil];
    assert only[..0] == [];
    assert MirrorRemaining(only) == [];
  }

  /** After the right spine: pop the null from both stacks; when a node is
      left below it, replace it by its left child on both stacks. */
  method SaveTurnLeft<A>(root: Tree<A>, stack: seq<Tree<A>>, stack1: seq<Tree<A>>, ghost saved: seq<Tree<A>>)
    returns (stack': seq<Tree<A>>, stack1': seq<Tree<A>>, node': Tree<A>)
    requires Mirroring(root, stack, stack1, saved, Nil)
    ensures stack' != [] ==> Mirroring(root, stack', stack1', saved, node')
    ensures stack' == [] ==> stack1' == saved && KeysOf(saved) == MirrorPreorder(root)
    ensures |stack'| < |stack|
  {
    if |stack| >= 2 {
      MirroringTurn(root, stack, stack1, saved);
    } else {
      assert stack == [Nil];
      MirroringEnd(root, stack1, saved);
    }
    stack' := stack[..|stack| - 1];
    stack1' := stack1[..|stack1| - 1];
    node' := Nil;
    if stack' != [] {
      node' := stack'[|stack'| - 1].left;
      stack' := stack'[..|stack'| - 1];
      stack' := stack' + [node'];
      stack1' := stack1' + [node'];
    }
  }

  /** The first loop of `stackPostorderTraversal1`: walk the tree node,
      right, left, saving every node on a second stack. */
  method SaveMirrored<A>(root: Tree<A>) returns (stack1: seq<Tree<A>>)
    ensures Nil !in stack1 && KeysOf(stack1) == MirrorPreorder(root)
  {
    var node := root;
    var stack := [node];
    stack1 := [node];
    ghost var saved: seq<Tree<A>> := [];
    assert MirrorRemaining(stack) == MirrorPreorder(root);
    while stack != []
      invariant stack != [] ==> Mirroring(root, stack, stack1, saved, node)
      invariant stack == [] ==> stack1 == saved && Nil !in saved && KeysOf(saved) == MirrorPreorder(root)
      invariant |saved| <= |MirrorPreorder(root)|
      decreases |MirrorPreorder(root)| - |saved|, |stack|
    {
      stack, stack1, saved, node := SaveRightSpine(root, stack, stack1, saved, node);
      stack, stack1, node := SaveTurnLeft(root, stack, stack1, saved);
    }
  }

  /** `stackPostorderTraversal1`, the two-stack variant: the saved nodes,
      popped, come out in post-order. */
  method StackPostorderTwoStacks<A>(root: Tree<A>) returns (list: seq<int>)
    ensures list == Postorder(root)
  {
    var stack1 := SaveMirrored(root);
    ReversedMirrorIsPostorder(root);
    list := PopKeys(stack1);
  }

  /** The non-null children of a node, left first. */
  function Kids<A>(t: Tree<A>): seq<Tree<A>> {
    match t
    case Nil => []
    case Node(_, l, _, r) => (if l.Node? then [l] else []) + (if r.Node? then [r] else [])
  }

  function QueueSize<A>(q: seq<Tree<A>>): nat {
    if q == [] then 0 else Size(q[0]) + QueueSize(q[1..])
  }

  lemma {:induction false} QueueSizeAppend<A>(a: seq<Tree<A>>, b: seq<Tree<A>>)
    ensures QueueSize(a + b) == QueueSize(a) + QueueSize(b)
    decreases |a|
  {
    if a == [] {
      assert a + b == b;
    } else {
      assert (a + b)[1..] == a[1..] + b;
      QueueSizeAppend(a[1..], b);
    }
  }

  lemma KidsSize<A>(t: Tree<A>)
    requires t.Node?
    ensures QueueSize(Kids(t)) == Size(t) - 1
  {
    var l, r := t.left, t.right;
    QueueSizeAppend(if l.Node? then [l] else [], if r.Node? then [r] else []);
    assert QueueSize([l]) == Size(l);
    assert QueueSize([r]) == Size(r);
  }

  /** The level order of the subtrees in a queue: the front is visited and
      its children join the back. */
  function LevelOrder<A>(q: seq<Tree<A>>): seq<int>
    decreases QueueSize(q), |q|
  {
    if q == [] then []
    else if q[0] == Nil then LevelOrder(q[1..])
    else
      KidsSize(q[0]);
      QueueSizeAppend(q[1..], Kids(q[0]));
      [q[0].value] + LevelOrder(q[1..] + Kids(q[0]))
  }

  /** The keys of all subtrees in a queue. */
  function QueueKeys<A>(q: seq<Tree<A>>): multiset<int> {
    if q == [] then multiset{} else Keys(q[0]) + QueueKeys(q[1..])
  }

  lemma {:induction false} QueueKeysAppend<A>(a: seq<Tree<A>>, b: seq<Tree<A>>)
    ensures QueueKeys(a + b) == QueueKeys(a) + QueueKeys(b)
    decreases |a|
  {
    if a == [] {
      assert a + b == b;
    } else {
      assert (a + b)[1..] == a[1..] + b;
      QueueKeysAppend(a[1..], b);
    }
  }

  lemma KeysOfNode<A>(t: Tree<A>)
    requires t.Node?
    ensures Keys(t) == Keys(t.left) + multiset{t.value} + Keys(t.right)
  {
  }

  lemma QueueKeysSingle<A>(t: Tree<A>)
    ensures QueueKeys([t]) == Keys(t)
  {
    assert [t][1..] == [];
  }

  lemma KidsKeys<A>(t: Tree<A>)
    requires t.Node?
    ensures QueueKeys(Kids(t)) + multiset{t.value} == Keys(t)
  {
    var l, r := t.left, t.right;
    KeysOfNode(t);
    QueueKeysSingle(l);
    QueueKeysSingle(r);
    var a: seq<Tree<A>> := if l.Node? then [l] else [];
    var b: seq<Tree<A>> := if r.Node? then [r] else [];
    QueueKeysAppend(a, b);
    assert QueueKeys(a) == Keys(l);
    assert QueueKeys(b) == Keys(r);
  }

  /** Visiting the front node of a queue. */
  lemma LevelOrderFront<A>(q: seq<Tree<A>>)
    requires q != [] && q[0].Node?
    ensures LevelOrder(q) == [q[0].value] + LevelOrder(q[1..] + Kids(q[0]))
  {
  }

  /** One visit: the keys of the front node and of the rest of the queue are
      those of the new queue plus the visited key. */
  lemma LevelOrderKeysStep<A>(q: seq<Tree<A>>)
    requires q != [] && q[0].Node?
    requires multiset(LevelOrder(q[1..] + Kids(q[0]))) == QueueKeys(q[1..] + Kids(q[0]))
    ensures multiset(LevelOrder(q)) == QueueKeys(q)
  {
    var n, rest := q[0], q[1..];
    QueueKeysAppend(rest, Kids(n));
    KidsKeys(n);
    LevelOrderFront(q);
    calc {
      multiset(LevelOrder(q));
      multiset{n.value} + multiset(LevelOrder(rest + Kids(n)));
      multiset{n.value} + QueueKeys(Kids(n)) + QueueKeys(rest);
      Keys(n) + QueueKeys(rest);
    }
  }

  /** The level order visits every key of the queue exactly once. */
  lemma {:induction false} LevelOrderKeys<A>(q: seq<Tree<A>>)
    ensures multiset(LevelOrder(q)) == QueueKeys(q)
    decreases QueueSize(q), |q|
  {
    if q == [] {
    } else if q[0] == Nil {
      LevelOrderKeys(q[1..]);
    } else {
      KidsSize(q[0]);
      QueueSizeAppend(q[1..], Kids(q[0]));
      LevelOrderKeys(q[1..] + Kids(q[0]));
      LevelOrderKeysStep(q);
    }
  }

  /** A level-order walk from the root visits each key of the tree once,
      starting with the root's. */
  lemma LevelOrderOfTree<A>(root: Tree<A>)
    requires root.Node?
    ensures multiset(LevelOrder([root])) == Keys(root)
    ensures |LevelOrder([root])| == Size(root)
    ensures LevelOrder([root])[0] == root.value
  {
    var order := LevelOrder([root]);
    LevelOrderKeys([root]);
    QueueKeysSingle(root);
    assert |order| == |multiset(order)| == |Keys(root)| == |Inorder(root)|;
    LevelOrderFront([root]);
  }

  /** One round of `queueTraversal`: the front node's value joins the list
      and its children join the back of the queue. */
  lemma QueueStep<A>(root: Tree<A>, list: seq<int>, queue: seq<Tree<A>>)
    requires queue != [] && queue[0].Node?
    requires list + LevelOrder(queue) == LevelOrder([root])
    ensures (list + [queue[0].value]) + LevelOrder(queue[1..] + Kids(queue[0])) == LevelOrder([root])
    ensures QueueSize(queue[1..] + Kids(queue[0])) < QueueSize(queue)
  {
    KidsSize(queue[0]);
    QueueSizeAppend(queue[1..], Kids(queue[0]));
    LevelOrderFront(queue);
  }

  /** `queueTraversal`: dequeue a node, emit its key and enqueue its
      non-null children. The null root is enqueued too and dereferenced when
      dequeued. */
  method QueueTraversal<A>(root: Tree<A>) returns (r: Result<seq<int>>)
    ensures root == Nil <==> r == Err(NullPointer)
    ensures root.Node? ==> r == Ok(LevelOrder([root]))
  {
    var list: seq<int> := [];
    var queue := [root];
    assert LevelOrder([root]) == if root == Nil then [] else LevelOrder(queue);
    while queue != []
      invariant Nil in queue ==> queue == [Nil] && list == [] && root == Nil
      invariant root == Nil ==> queue == [Nil]
      invariant root.Node? ==> list + LevelOrder(queue) == LevelOrder([root])
      decreases QueueSize(queue)
    {
      ghost var full := queue;
      var node := queue[0];
      queue := queue[1..];
      if node == Nil {
        return Err(NullPointer);
      }
      ghost var rest := queue;
      QueueStep(root, list, full);
      list := list + [node.value];
      if node.left != Nil {
        queue := queue + [node.left];
      }
      if node.right != Nil {
        queue := queue + [node.right];
      }
      assert queue == rest + Kids(node);
    }
    assert LevelOrder(queue) == [];
    assert list + LevelOrder(queue) == list;
    return Ok(list);
  }
}
