/** The five searches of a binary tree, each returning the first node in its
    own visit order whose value equals the target, or null. None of them
    uses the tree object it is called on: each starts at a given node. The
    recursive ones read the links as they go; the iterative ones keep an
    explicit stack or queue of nodes, modelled as a sequence. */
module Searches {
  import opened BTnodes
  import opened Shapes
  import opened Orders

  /** Pre-order search: the node, then its left, then its right subtree. */
  function SearchPre<V(==)>(value: V, node: BTnode?<V>, ghost t: Tree<V>): (r: BTnode?<V>)
    requires Shaped(node, t)
    reads Objs(t)
    decreases t
    ensures r == FirstMatch(PreOrder(t), value)
    ensures r == null <==> !Has(t, value)
    ensures r != null ==> r in Objs(t) && r.value == value
  {
    FirstMatchInTree(t, PreOrder(t), value);
    if node == null then null
    else
      FirstMatchAppend([Visit(node, node.value)] + PreOrder(t.left), PreOrder(t.right), value);
      FirstMatchAppend([Visit(node, node.value)], PreOrder(t.left), value);
      if node.value == value then node
      else
        var left := SearchPre(value, node.left, t.left);
        if left != null then left
        else SearchPre(value, node.right, t.right)
  }

  /** Post-order search: the left subtree, the right subtree, then the node. */
  function SearchPost<V(==)>(value: V, node: BTnode?<V>, ghost t: Tree<V>): (r: BTnode?<V>)
    requires Shaped(node, t)
    reads Objs(t)
    decreases t
    ensures r == FirstMatch(PostOrder(t), value)
    ensures r == null <==> !Has(t, value)
    ensures r != null ==> r in Objs(t) && r.value == value
  {
    PostOrderPermutation(t);
    FirstMatchInTree(t, PostOrder(t), value);
    if node == null then null
    else
      FirstMatchAppend(PostOrder(t.left) + PostOrder(t.right), [Visit(node, node.value)], value);
      FirstMatchAppend(PostOrder(t.left), PostOrder(t.right), value);
      var left := SearchPost(value, node.left, t.left);
      if left != null then left
      else
        var right := SearchPost(value, node.right, t.right);
        if right != null then right
        else if node.value == value then node
        else null
  }

  /** In-order search: the left subtree, the node, then the right subtree. */
  function SearchIn<V(==)>(value: V, node: BTnode?<V>, ghost t: Tree<V>): (r: BTnode?<V>)
    requires Shaped(node, t)
    reads Objs(t)
    decreases t
    ensures r == FirstMatch(InOrder(t), value)
    ensures r == null <==> !Has(t, value)
    ensures r != null ==> r in Objs(t) && r.value == value
  {
    InOrderPermutation(t);
    FirstMatchInTree(t, InOrder(t), value);
    if node == null then null
    else
      FirstMatchAppend(InOrder(t.left) + [Visit(node, node.value)], InOrder(t.right), value);
      FirstMatchAppend(InOrder(t.left), [Visit(node, node.value)], value);
      var left := SearchIn(value, node.left, t.left);
      if left != null then left
      else if node.value == value then node
      else SearchIn(value, node.right, t.right)
  }

  /** What a stack of subtrees (top at the end) still has to visit: the top
      subtree in stack order, then the rest of the stack. */
  ghost function Pending<V>(stack: seq<Tree<V>>): seq<Visit<V>>
  {
    if stack == [] then []
    else StackOrder(stack[|stack| - 1]) + Pending(stack[..|stack| - 1])
  }

  /** A visit to `v` leads the rest: the first match is `v`'s node when it
      holds the target, the first match of the rest otherwise. */
  lemma {:induction false} FirstMatchCons<V>(x: Visit<V>, s: seq<Visit<V>>, value: V)
    ensures FirstMatch([x] + s, value) == if x.value == value then x.node else FirstMatch(s, value)
  {
    assert ([x] + s)[0] == x && ([x] + s)[1..] == s;
  }

  lemma {:induction false} PendingPush<V>(stack: seq<Tree<V>>, top: Tree<V>)
    ensures Pending(stack + [top]) == StackOrder(top) + Pending(stack)
  {
    assert (stack + [top])[..|stack|] == stack;
  }

  lemma {:induction false} PendingPushOpt<V>(stack: seq<Tree<V>>, top: Tree<V>)
    ensures Pending(stack + Opt(top)) == StackOrder(top) + Pending(stack)
  {
    if top.Node? {
      PendingPush(stack, top);
    } else {
      assert stack + Opt(top) == stack;
    }
  }

  lemma {:induction false} PendingKids<V>(below: seq<Tree<V>>, top: Tree<V>)
    requires top.Node?
    ensures Pending(below + Kids(top)) == StackOrder(top.right) + StackOrder(top.left) + Pending(below)
  {
    assert Kids(top) == Opt(top.left) + Opt(top.right);
    assert below + Kids(top) == (below + Opt(top.left)) + Opt(top.right);
    PendingPushOpt(below, top.left);
    PendingPushOpt(below + Opt(top.left), top.right);
  }

  /** Popping the top subtree and pushing its left then its right child
      leaves the visit of its node in front of what the new stack has
      pending. */
  lemma {:induction false} PendingPop<V>(stack: seq<Tree<V>>, top: Tree<V>, below: seq<Tree<V>>)
    requires stack == below + [top] && top.Node?
    ensures Pending(stack) == [Visit(top.obj, top.value)] + Pending(below + Kids(top))
  {
    var x, a, b, c := [Visit(top.obj, top.value)], StackOrder(top.right), StackOrder(top.left), Pending(below);
    assert StackOrder(top) == x + a + b;
    PendingPush(below, top);
    assert Pending(stack) == (x + a + b) + c;
    PendingKids(below, top);
    assert Pending(below + Kids(top)) == a + b + c;
    Regroup(x, a, b, c);
  }

  lemma {:induction false} Regroup<T>(x: seq<T>, a: seq<T>, b: seq<T>, c: seq<T>)
    ensures (x + a + b) + c == x + (a + b + c)
  {
    assert (x + a + b) + c == x + ((a + b) + c);
  }

  /** `n` heads the subtree `t`, which fits the heap. */
  ghost predicate Holds<V>(n: BTnode<V>, t: Tree<V>)
    reads Objs(t)
  {
    t.Node? && n == t.obj && Fits(t)
  }

  /** Each node of a stack or queue heads the subtree recorded for it. */
  ghost predicate AllHold<V>(nodes: seq<BTnode<V>>, trees: seq<Tree<V>>)
    reads set i, o | 0 <= i < |trees| && o in Objs(trees[i]) :: o
  {
    |nodes| == |trees| && forall i :: 0 <= i < |nodes| ==> Holds(nodes[i], trees[i])
  }

  lemma {:induction false} AllHoldAppend<V>(nodes: seq<BTnode<V>>, trees: seq<Tree<V>>, n: BTnode<V>, t: Tree<V>)
    requires AllHold(nodes, trees) && Holds(n, t)
    ensures AllHold(nodes + [n], trees + [t])
  {
    assert forall i :: 0 <= i < |nodes| ==> (nodes + [n])[i] == nodes[i] && (trees + [t])[i] == trees[i];
  }

  lemma {:induction false} AllHoldSlice<V>(nodes: seq<BTnode<V>>, trees: seq<Tree<V>>, i: nat, j: nat)
    requires AllHold(nodes, trees) && i <= j <= |nodes|
    ensures AllHold(nodes[i..j], trees[i..j])
  {
    assert forall k :: 0 <= k < j - i ==> nodes[i..j][k] == nodes[i + k] && trees[i..j][k] == trees[i + k];
  }

  /** A child link as the nodes it puts on a stack or queue. */
  function Present<V>(n: BTnode?<V>): seq<BTnode<V>>
  {
    if n == null then [] else [n]
  }

  /** Adding the present children of a node to a stack or queue adds their
      subtrees to the recorded ones. */
  lemma {:induction false} AllHoldKids<V>(nodes: seq<BTnode<V>>, trees: seq<Tree<V>>, n: BTnode<V>, h: Tree<V>)
    requires AllHold(nodes, trees) && Holds(n, h)
    ensures AllHold(nodes + Present(n.left) + Present(n.right), trees + Kids(h))
  {
    assert Kids(h) == Opt(h.left) + Opt(h.right);
    assert trees + Kids(h) == trees + Opt(h.left) + Opt(h.right);
    if h.left.Node? {
      AllHoldAppend(nodes, trees, n.left, h.left);
    } else {
      assert nodes + Present(n.left) == nodes && trees + Opt(h.left) == trees;
    }
    if h.right.Node? {
      AllHoldAppend(nodes + Present(n.left), trees + Opt(h.left), n.right, h.right);
    } else {
      assert nodes + Present(n.left) + Present(n.right) == nodes + Present(n.left);
      assert trees + Opt(h.left) + Opt(h.right) == trees + Opt(h.left);
    }
  }

  /** One round of the stack loop: the top of the stack is the next visit
      of the stack order, and replacing it by its present children keeps the
      recorded subtrees in step with the stack. */
  lemma {:induction false} StackStep<V>(stack: seq<BTnode<V>>, trees: seq<Tree<V>>,
                                        done: seq<Visit<V>>, order: seq<Visit<V>>, value: V)
    requires stack != [] && AllHold(stack, trees)
    requires order == done + Pending(trees) && FirstMatch(done, value) == null
    ensures var n, h := stack[|stack| - 1], trees[|trees| - 1];
            Holds(n, h) &&
            (n.value == value ==> FirstMatch(order, value) == n) &&
            (n.value != value ==>
               order == done + [Visit(n, n.value)] + Pending(trees[..|trees| - 1] + Kids(h)) &&
               FirstMatch(done + [Visit(n, n.value)], value) == null) &&
            AllHold(stack[..|stack| - 1] + Present(n.left) + Present(n.right), trees[..|trees| - 1] + Kids(h))
  {
    var n, h, below := stack[|stack| - 1], trees[|trees| - 1], trees[..|trees| - 1];
    assert Holds(n, h);
    assert trees == below + [h];
    PendingPop(trees, h, below);
    Advance(order, done, Visit(n, n.value), Pending(below + Kids(h)), value);
    AllHoldSlice(stack, trees, 0, |stack| - 1);
    AllHoldKids(stack[..|stack| - 1], below, n, h);
  }

  /** Search with a stack: pop a node, check it, push its left then its
      right child. The right child is popped first, so the visit order is
      the node, its right subtree, then its left subtree. */
  method SearchStack<V(==)>(value: V, node: BTnode<V>, ghost t: Tree<V>) returns (r: BTnode?<V>)
    requires Shaped(node, t)
    ensures r == FirstMatch(StackOrder(t), value)
    ensures r == null <==> !Has(t, value)
    ensures r != null ==> r in Objs(t) && r.value == value
  {
    StackMatchInTree(t, value);
    var stack: seq<BTnode<V>> := [node];
    ghost var trees := [t];
    ghost var done: seq<Visit<V>> := [];
    PendingPush([], t);
    while stack != []
      invariant AllHold(stack, trees)
      invariant StackOrder(t) == done + Pending(trees)
      invariant FirstMatch(done, value) == null
      decreases |StackOrder(t)| - |done|
    {
      var n := stack[|stack| - 1];
      ghost var h := trees[|trees| - 1];
      ghost var below := trees[..|trees| - 1];
      StackStep(stack, trees, done, StackOrder(t), value);
      if n.value == value {
        return n;
      }
      done := done + [Visit(n, n.value)];
      stack := stack[..|stack| - 1];
      ghost var base := stack;
      var left := n.left;
      if left != null {
        stack := stack + [left as BTnode<V>];
      }
      assert stack == base + Present(left);
      ghost var mid := stack;
      var right := n.right;
      if right != null {
        stack := stack + [right as BTnode<V>];
      }
      assert stack == mid + Present(right);
      trees := below + Kids(h);
    }
    assert done + Pending([]) == done;
    return null;
  }

  lemma {:induction false} StackMatchInTree<V>(t: Tree<V>, value: V)
    requires Fits(t)
    ensures FirstMatch(StackOrder(t), value) == null <==> !Has(t, value)
    ensures FirstMatch(StackOrder(t), value) != null ==>
              FirstMatch(StackOrder(t), value) in Objs(t) && FirstMatch(StackOrder(t), value).value == value
  {
    StackOrderPermutation(t);
    FirstMatchInTree(t, StackOrder(t), value);
  }

  /** One step of a search loop over a visit order split into the visits
      done (none of which matched) and the ones still to come: the next
      visit either matches, and then it is the first match of the whole
      order, or moves to the done part. */
  lemma {:induction false} Advance<V>(order: seq<Visit<V>>, done: seq<Visit<V>>, x: Visit<V>, rest: seq<Visit<V>>, value: V)
    requires order == done + ([x] + rest) && FirstMatch(done, value) == null
    ensures x.value == value ==> FirstMatch(order, value) == x.node
    ensures x.value != value ==> order == (done + [x]) + rest && FirstMatch(done + [x], value) == null
  {
    FirstMatchAppend(done, [x] + rest, value);
    FirstMatchCons(x, rest, value);
    FirstMatchAppend(done, [x], value);
    FirstMatchCons(x, [], value);
  }

  /** What a queue still has to visit, when its first `k` subtrees are the
      rest of one level and the others the start of the next: the heads of
      the first part, then, level by level, the second part followed by the
      children of the first. */
  ghost function Waiting<V>(queue: seq<Tree<V>>, k: nat): seq<Visit<V>>
    requires k <= |queue|
  {
    Roots(queue[..k]) + Levels(queue[k..] + Children(queue[..k]))
  }

  /** Dequeuing the head of the current level and enqueuing its children
      leaves the visit of the head in front of what the new queue waits
      for. */
  lemma {:induction false} WaitingPop<V>(queue: seq<Tree<V>>, k: nat)
    requires 0 < k <= |queue| && queue[0].Node?
    ensures Waiting(queue, k) == [Visit(queue[0].obj, queue[0].value)] + Waiting(queue[1..] + Kids(queue[0]), k - 1)
  {
    var h, a, b := queue[0], queue[1..k], queue[k..];
    var x := [Visit(h.obj, h.value)];
    SplitQueue(queue, Kids(h), k);
    WaitingOf(queue, k, [h] + a, b);
    WaitingOf(queue[1..] + Kids(h), k - 1, a, b + Kids(h));
    RootsCons(h, a);
    ChildrenCons(h, a);
    Regroup3(b, Kids(h), Children(a));
    var next := b + Kids(h) + Children(a);
    assert Waiting(queue, k) == (x + Roots(a)) + Levels(next);
    assert Waiting(queue[1..] + Kids(h), k - 1) == Roots(a) + Levels(next);
    Regroup3(x, Roots(a), Levels(next));
  }

  /** What a queue waits for, given the part `p` of the current level and
      the rest `b`. */
  lemma {:induction false} WaitingOf<V>(queue: seq<Tree<V>>, k: nat, p: seq<Tree<V>>, b: seq<Tree<V>>)
    requires queue == p + b && k == |p|
    ensures Waiting(queue, k) == Roots(p) + Levels(b + Children(p))
  {
    assert queue[..k] == p && queue[k..] == b;
  }

  /** A queue split after its head and after its first `k` elements, with
      and without its head and with `c` behind it. */
  lemma {:induction false} SplitQueue<T>(queue: seq<T>, c: seq<T>, k: nat)
    requires 0 < k <= |queue|
    ensures queue == ([queue[0]] + queue[1..k]) + queue[k..]
    ensures queue[1..] + c == queue[1..k] + (queue[k..] + c)
  {
    assert queue == ([queue[0]] + queue[1..k]) + queue[k..];
    assert queue[1..] == queue[1..k] + queue[k..];
  }

  lemma {:induction false} Regroup3<T>(x: seq<T>, a: seq<T>, b: seq<T>)
    ensures (x + a) + b == x + (a + b)
  {
  }

  lemma {:induction false} RootsCons<V>(h: Tree<V>, a: seq<Tree<V>>)
    requires h.Node?
    ensures Roots([h] + a) == [Visit(h.obj, h.value)] + Roots(a)
  {
    assert ([h] + a)[0] == h && ([h] + a)[1..] == a;
  }

  lemma {:induction false} ChildrenCons<V>(h: Tree<V>, a: seq<Tree<V>>)
    ensures Children([h] + a) == Kids(h) + Children(a)
  {
    assert ([h] + a)[0] == h && ([h] + a)[1..] == a;
  }

  /** A queue waiting for a whole new level can be split after that level. */
  lemma {:induction false} WaitingLevel<V>(queue: seq<Tree<V>>)
    requires queue != []
    ensures Waiting(queue, 0) == Waiting(queue, |queue|)
  {
    assert queue[..0] == [] && queue[0..] == queue && queue + [] == queue;
    assert queue[..|queue|] == queue && queue[|queue|..] == [];
    assert [] + Children(queue) == Children(queue);
  }

  lemma {:induction false} LevelMatchInTree<V>(t: Tree<V>, value: V)
    requires Fits(t)
    ensures FirstMatch(LevelOrder(t), value) == null <==> !Has(t, value)
    ensures FirstMatch(LevelOrder(t), value) != null ==>
              FirstMatch(LevelOrder(t), value) in Objs(t) && FirstMatch(LevelOrder(t), value).value == value
  {
    LevelOrderPermutation(t);
    FirstMatchInTree(t, LevelOrder(t), value);
  }

  /** One round of the queue loop: the head of the queue is the next visit
      of the level order, and replacing it by its present children keeps the
      recorded subtrees in step with the queue. */
  lemma {:induction false} QueueStep<V>(queue: seq<BTnode<V>>, trees: seq<Tree<V>>, k: nat,
                                        done: seq<Visit<V>>, order: seq<Visit<V>>, value: V)
    requires queue != [] && AllHold(queue, trees) && k <= |trees|
    requires order == done + Waiting(trees, k) && FirstMatch(done, value) == null
    ensures Holds(queue[0], trees[0])
    ensures queue[0].value == value ==> FirstMatch(order, value) == queue[0]
    ensures queue[0].value != value ==>
              var j := if k == 0 then |trees| else k;
              0 < j && j - 1 <= |trees[1..] + Kids(trees[0])| &&
              order == done + [Visit(queue[0], queue[0].value)] + Waiting(trees[1..] + Kids(trees[0]), j - 1) &&
              FirstMatch(done + [Visit(queue[0], queue[0].value)], value) == null
    ensures AllHold(queue[1..] + Present(queue[0].left) + Present(queue[0].right), trees[1..] + Kids(trees[0]))
  {
    var n, h := queue[0], trees[0];
    var j := if k == 0 then |trees| else k;
    WaitingLevel(trees);
    assert Holds(n, h);
    WaitingPop(trees, j);
    Advance(order, done, Visit(n, n.value), Waiting(trees[1..] + Kids(h), j - 1), value);
    AllHoldSlice(queue, trees, 1, |queue|);
    AllHoldKids(queue[1..], trees[1..], n, h);
  }

  /** Search with a queue: dequeue a node, check it, enqueue its left then
      its right child. The nodes are visited level by level, left to right
      within a level. */
  method SearchQueue<V(==)>(value: V, node: BTnode<V>, ghost t: Tree<V>) returns (r: BTnode?<V>)
    requires Shaped(node, t)
    ensures r == FirstMatch(LevelOrder(t), value)
    ensures r == null <==> !Has(t, value)
    ensures r != null ==> r in Objs(t) && r.value == value
  {
    LevelMatchInTree(t, value);
    var queue: seq<BTnode<V>> := [node];
    ghost var trees := [t];
    ghost var k: nat := 0;
    ghost var done: seq<Visit<V>> := [];
    assert Waiting(trees, 0) == LevelOrder(t) by {
      assert trees[..0] == [] && trees[0..] == [t] && [t] + [] == [t];
    }
    while queue != []
      invariant AllHold(queue, trees) && k <= |trees|
      invariant LevelOrder(t) == done + Waiting(trees, k)
      invariant FirstMatch(done, value) == null
      decreases |LevelOrder(t)| - |done|
    {
      var n := queue[0];
      ghost var h := trees[0];
      QueueStep(queue, trees, k, done, LevelOrder(t), value);
      if n.value == value {
        return n;
      }
      done := done + [Visit(n, n.value)];
      ghost var base := queue[1..];
      queue := queue[1..];
      var left := n.left;
      if left != null {
        queue := queue + [left as BTnode<V>];
      }
      assert queue == base + Present(left);
      ghost var mid := queue;
      var right := n.right;
      if right != null {
        queue := queue + [right as BTnode<V>];
      }
      assert queue == mid + Present(right);
      k := (if k == 0 then |trees| else k) - 1;
      trees := trees[1..] + Kids(h);
    }
    assert trees[..0] == [] && trees[0..] == [];
    assert done == LevelOrder(t);
    return null;
  }
}
