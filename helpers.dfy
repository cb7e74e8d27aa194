/** The module-level helpers: the description of one node, and two
    breadth-first walks of a subtree, one counting its nodes and measuring
    its height, one listing the descriptions of its nodes level by level. */
module TreeHelpers {
  import opened BTnodes
  import opened Shapes
  import opened Orders
  import opened Searches

  datatype Option<T> = None | Some(value: T)

  /** A node's value, its children's values and its parent's value; `None`
      where a link is absent. */
  datatype Info<V> = Info(value: V, left: Option<V>, right: Option<V>, parent: Option<V>)

  /** The value held by a possibly absent node. */
  function ValueOf<V>(n: BTnode?<V>): Option<V>
    reads n
  {
    if n == null then None else Some(n.value)
  }

  /** The value carried at the head of a recorded subtree. */
  function Head<V>(t: Tree<V>): Option<V>
  {
    if t.Nil? then None else Some(t.value)
  }

  function NodeInfo<V>(node: BTnode<V>): Info<V>
    reads node, node.left, node.right, node.parent
  {
    Info(node.value, ValueOf(node.left), ValueOf(node.right), ValueOf(node.parent))
  }

  /** For a node of a subtree that fits the heap, the description agrees
      with the recorded subtree: its value, the values at the heads of its
      two subtrees, and, when the back-references are right, the value of
      the node whose slot holds it (none for a top without parent). */
  lemma {:induction false} NodeInfoInTree<V>(t: Tree<V>, o: BTnode<V>)
    requires Distinct(t) && Fits(t) && o in Objs(t)
    ensures NodeInfo(o).value == Sub(t, o).value
    ensures NodeInfo(o).left == Head(Sub(t, o).left) && NodeInfo(o).right == Head(Sub(t, o).right)
    ensures Linked(t) && o != t.obj ==> NodeInfo(o).parent == Head(Above(t, o))
    ensures o == t.obj && o.parent == null ==> NodeInfo(o).parent == None
  {
    ShapedSub(t, o);
    var s := Sub(t, o);
    assert o.left == Top(s.left) && o.right == Top(s.right);
    assert Fits(s.left) && Fits(s.right);
    if Linked(t) && o != t.obj {
      AboveParent(t, o);
    }
  }

  // ---------------------------------------------------------------------
  // tree_info: size and height by a walk with a queue of (node, level)

  /** Number of nodes in the recorded subtrees of a queue. */
  ghost function Weight<V>(entries: seq<(Tree<V>, int)>): nat
  {
    if entries == [] then 0 else Size(entries[0].0) + Weight(entries[1..])
  }

  /** The deepest level reached below the entries of a queue: an entry at
      level `d` heading a subtree of height `h` reaches level `d + h`; -1
      for the empty queue. */
  ghost function Reach<V>(entries: seq<(Tree<V>, int)>): int
  {
    if entries == [] then -1 else Max(entries[0].1 + Height(entries[0].0), Reach(entries[1..]))
  }

  lemma {:induction false} WeightReachAppend<V>(entries: seq<(Tree<V>, int)>, e: (Tree<V>, int))
    ensures Weight(entries + [e]) == Weight(entries) + Size(e.0)
    ensures Reach(entries + [e]) == Max(Reach(entries), e.1 + Height(e.0))
  {
    if entries == [] {
      assert entries + [e] == [e] && [e][1..] == [];
    } else {
      assert (entries + [e])[0] == entries[0] && (entries + [e])[1..] == entries[1..] + [e];
      WeightReachAppend(entries[1..], e);
    }
  }

  /** Each queued node heads the subtree recorded for it, at the recorded
      level, and no level is beyond `height`. */
  ghost predicate Queued<V>(queue: seq<(BTnode<V>, int)>, entries: seq<(Tree<V>, int)>, height: int)
    reads set i, o | 0 <= i < |entries| && o in Objs(entries[i].0) :: o
  {
    |queue| == |entries| &&
    forall i :: 0 <= i < |queue| ==>
      Holds(queue[i].0, entries[i].0) && queue[i].1 == entries[i].1 && 0 <= entries[i].1 <= height
  }

  lemma {:induction false} QueuedAppend<V>(queue: seq<(BTnode<V>, int)>, entries: seq<(Tree<V>, int)>, height: int,
                        n: BTnode<V>, t: Tree<V>, level: int, height': int)
    requires Queued(queue, entries, height) && Holds(n, t) && 0 <= level <= height' && height <= height'
    ensures Queued(queue + [(n, level)], entries + [(t, level)], height')
  {
    assert forall i :: 0 <= i < |queue| ==> (queue + [(n, level)])[i] == queue[i] && (entries + [(t, level)])[i] == entries[i];
  }

  lemma {:induction false} QueuedTail<V>(queue: seq<(BTnode<V>, int)>, entries: seq<(Tree<V>, int)>, height: int)
    requires Queued(queue, entries, height) && queue != []
    ensures Queued(queue[1..], entries[1..], height)
  {
    assert forall k :: 0 <= k < |queue| - 1 ==> queue[1..][k] == queue[k + 1] && entries[1..][k] == entries[k + 1];
  }

  /** Replacing the head entry by its present children, one level down,
      while `height` grows to cover their level, keeps the deepest level
      reached. */
  lemma {:induction false} LevelStep<V>(h: Tree<V>, level: int, height: int, reach: int)
    requires h.Node? && 0 <= level <= height
    ensures Max(Grown(h, level, height), Max(Max(reach, Below(h.left, level)), Below(h.right, level)))
            == Max(height, Max(level + Height(h), reach))
  {
    HeightRange(h.left);
    HeightRange(h.right);
    var l, r := Height(h.left), Height(h.right);
    var bl, br := Below(h.left, level), Below(h.right, level);
    var g := Grown(h, level, height);
    assert Height(h) == 1 + Max(l, r);
    MaxStep(level, height, reach, l, r, bl, br, g);
  }

  /** The arithmetic of `LevelStep`: a child contributes `level + 1 + its
      height` when present (height at least 0) and nothing when absent
      (height -1). */
  lemma {:induction false} MaxStep(level: int, height: int, reach: int, l: int, r: int, bl: int, br: int, g: int)
    requires 0 <= level <= height && l >= -1 && r >= -1
    requires bl == (if l >= 0 then level + 1 + l else -1)
    requires br == (if r >= 0 then level + 1 + r else -1)
    requires g == (if l >= 0 || r >= 0 then Max(height, level + 1) else height)
    ensures Max(g, Max(Max(reach, bl), br)) == Max(height, Max(level + 1 + Max(l, r), reach))
  {
  }

  /** `height` after the children of `h`, at `level`, are queued. */
  function Grown<V>(h: Tree<V>, level: int, height: int): int
    requires h.Node?
  {
    if h.left.Node? || h.right.Node? then Max(height, level + 1) else height
  }

  /** The level reached below a child of a node at `level`, -1 when the
      child is absent. */
  ghost function Below<V>(c: Tree<V>, level: int): int
  {
    if c.Node? then level + 1 + Height(c) else -1
  }

  /** Number of nodes and height of the subtree headed by `node`, by a
      breadth-first walk that records the level of each queued node. */
  method TreeInfo<V>(node: BTnode<V>, ghost t: Tree<V>) returns (size: nat, height: int)
    requires Shaped(node, t)
    ensures size == Size(t) && height == Height(t)
  {
    var queue: seq<(BTnode<V>, int)> := [(node, 0)];
    ghost var entries := [(t, 0)];
    size := 0;
    height := 0;
    assert entries[0] == (t, 0) && entries[1..] == [];
    assert Weight(entries) == Size(t) + Weight(entries[1..]);
    assert Reach(entries) == Max(0 + Height(t), Reach(entries[1..]));
    HeightRange(t);
    while queue != []
      invariant Queued(queue, entries, height)
      invariant size + Weight(entries) == Size(t)
      invariant Max(height, Reach(entries)) == Height(t)
      invariant 0 <= height
      decreases Weight(entries)
    {
      var e := queue[0];
      var n, level := e.0, e.1;
      ghost var h := entries[0].0;
      ghost var q0, height0 := queue, height;
      assert Holds(n, h) && 0 <= level <= height && entries[0] == (h, level);
      InfoStep(entries, height);
      QueuedStep(queue, entries, height);
      queue := queue[1..];
      size := size + 1;
      var left := n.left;
      if left != null {
        queue := queue + [(left as BTnode<V>, level + 1)];
        height := Max(height, level + 1);
      }
      assert queue == q0[1..] + Enq(left, level + 1);
      assert height == if left != null then Max(height0, level + 1) else height0;
      ghost var q1, height1 := queue, height;
      var right := n.right;
      if right != null {
        queue := queue + [(right as BTnode<V>, level + 1)];
        height := Max(height, level + 1);
      }
      assert queue == q1 + Enq(right, level + 1);
      assert height == if right != null then Max(height1, level + 1) else height1;
      assert height == Grown(h, level, height0);
      entries := entries[1..] + Entry(h.left, level) + Entry(h.right, level);
    }
    assert entries == [];
  }

  /** One step of the walk: replacing the head entry by the entries of its
      present children removes one node from the queued subtrees and keeps
      the deepest level reached, once `height` covers the children. */
  lemma {:induction false} InfoStep<V>(entries: seq<(Tree<V>, int)>, height: int)
    requires entries != [] && entries[0].0.Node? && 0 <= entries[0].1 <= height
    ensures var h, level := entries[0].0, entries[0].1;
            var next := entries[1..] + Entry(h.left, level) + Entry(h.right, level);
            Weight(next) + 1 == Weight(entries) &&
            Max(Grown(h, level, height), Reach(next)) == Max(height, Reach(entries))
  {
    var h, level := entries[0].0, entries[0].1;
    var rest := entries[1..];
    assert Weight(entries) == Size(h) + Weight(rest);
    assert Reach(entries) == Max(level + Height(h), Reach(rest));
    LevelStep(h, level, height, Reach(rest));
    PushChild(rest, h.left, level);
    PushChild(rest + Entry(h.left, level), h.right, level);
  }

  /** The queue entry a present child adds at `level`. */
  function Enq<V>(c: BTnode?<V>, level: int): seq<(BTnode<V>, int)>
  {
    if c == null then [] else [(c, level)]
  }

  /** Dequeuing the head node and enqueuing its present children keeps the
      queue in step with the recorded entries. */
  lemma {:induction false} QueuedStep<V>(queue: seq<(BTnode<V>, int)>, entries: seq<(Tree<V>, int)>, height: int)
    requires Queued(queue, entries, height) && queue != []
    ensures var n, h, level := queue[0].0, entries[0].0, entries[0].1;
            h.Node? &&
            Queued(queue[1..] + Enq(n.left, level + 1) + Enq(n.right, level + 1),
                   entries[1..] + Entry(h.left, level) + Entry(h.right, level), Grown(h, level, height))
  {
    var n, h, level := queue[0].0, entries[0].0, entries[0].1;
    assert Holds(n, h);
    var g := Grown(h, level, height);
    QueuedTail(queue, entries, height);
    QueuedRaise(queue[1..], entries[1..], height, g);
    var q1, e1 := queue[1..], entries[1..];
    if n.left != null {
      QueuedAppend(q1, e1, g, n.left, h.left, level + 1, g);
    } else {
      assert q1 + Enq(n.left, level + 1) == q1 && e1 + Entry(h.left, level) == e1;
    }
    var q2, e2 := q1 + Enq(n.left, level + 1), e1 + Entry(h.left, level);
    if n.right != null {
      QueuedAppend(q2, e2, g, n.right, h.right, level + 1, g);
    } else {
      assert q2 + Enq(n.right, level + 1) == q2 && e2 + Entry(h.right, level) == e2;
    }
  }

  lemma {:induction false} QueuedRaise<V>(queue: seq<(BTnode<V>, int)>, entries: seq<(Tree<V>, int)>, height: int, height': int)
    requires Queued(queue, entries, height) && height <= height'
    ensures Queued(queue, entries, height')
  {
  }

  /** The queue entry a child adds, one level below `level`: none when it
      is absent. */
  ghost function Entry<V>(c: Tree<V>, level: int): seq<(Tree<V>, int)>
  {
    if c.Nil? then [] else [(c, level + 1)]
  }

  lemma {:induction false} PushChild<V>(entries: seq<(Tree<V>, int)>, c: Tree<V>, level: int)
    ensures Weight(entries + Entry(c, level)) == Weight(entries) + Size(c)
    ensures Reach(entries + Entry(c, level)) == Max(Reach(entries), Below(c, level))
  {
    ReachAtLeast(entries);
    if c.Node? {
      WeightReachAppend(entries, (c, level + 1));
    } else {
      assert entries + Entry(c, level) == entries;
    }
  }

  lemma {:induction false} ReachAtLeast<V>(entries: seq<(Tree<V>, int)>)
    ensures Reach(entries) >= -1
  {
    if entries != [] {
      ReachAtLeast(entries[1..]);
    }
  }

  // ---------------------------------------------------------------------
  // tree_nodes: the descriptions of the nodes, level by level

  lemma {:induction false} DescribedAppend<V>(r: seq<Info<V>>, done: seq<Visit<V>>, x: Visit<V>)
    requires |r| == |done| && forall i :: 0 <= i < |r| ==> r[i] == NodeInfo(done[i].node)
    ensures var r', done' := r + [NodeInfo(x.node)], done + [x];
            |r'| == |done'| && forall i :: 0 <= i < |r'| ==> r'[i] == NodeInfo(done'[i].node)
  {
    assert forall i :: 0 <= i < |r| ==> (r + [NodeInfo(x.node)])[i] == r[i] && (done + [x])[i] == done[i];
  }

  /** The descriptions of the nodes of the subtree headed by `node`, in
      level order, by a breadth-first walk with a queue. */
  method TreeNodes<V>(node: BTnode<V>, ghost t: Tree<V>) returns (r: seq<Info<V>>)
    requires Shaped(node, t)
    ensures |r| == |LevelOrder(t)|
    ensures forall i :: 0 <= i < |r| ==> r[i] == NodeInfo(LevelOrder(t)[i].node)
  {
    r := [];
    var queue: seq<BTnode<V>> := [node];
    ghost var trees := [t];
    ghost var k: nat := 0;
    ghost var done: seq<Visit<V>> := [];
    assert Waiting(trees, 0) == LevelOrder(t) by {
      assert trees[..0] == [] && trees[0..] == [t] && [t] + [] == [t];
    }
    while queue != []
      invariant AllHold(queue, trees) && k <= |trees|
      invariant LevelOrder(t) == done + Waiting(trees, k)
      invariant |r| == |done| && forall i :: 0 <= i < |r| ==> r[i] == NodeInfo(done[i].node)
      decreases |LevelOrder(t)| - |done|
    {
      if k == 0 {
        WaitingLevel(trees);
        k := |trees|;
      }
      var n := queue[0];
      ghost var h := trees[0];
      assert Holds(n, h);
      ghost var rest := Waiting(trees[1..] + Kids(h), k - 1);
      WaitingPop(trees, k);
      assert done + ([Visit(n, n.value)] + rest) == (done + [Visit(n, n.value)]) + rest;
      DescribedAppend(r, done, Visit(n, n.value));
      r := r + [NodeInfo(n)];
      done := done + [Visit(n, n.value)];
      AllHoldSlice(queue, trees, 1, |queue|);
      queue := queue[1..];
      ghost var tail := trees[1..];
      ghost var base := queue;
      var left := n.left;
      if left != null {
        queue := queue + [left as BTnode<V>];
      }
      assert queue == base + Present(left);
      ghost var mid := queue;
      var right := n.right;
      if right != null {
        queue := queue + [right as BTnode<V>];
      }
      assert queue == mid + Present(right);
      AllHoldKids(base, tail, n, h);
      trees := tail + Kids(h);
      k := k - 1;
    }
    assert trees[..0] == [] && trees[0..] == [];
    assert done == LevelOrder(t);
  }
}
