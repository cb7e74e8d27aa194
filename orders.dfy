/** The orders in which the five search strategies visit a subtree, stated
    on the value-level `Tree`, and the "first match" that every strategy
    returns.

    - pre-order: node, left subtree, right subtree;
    - post-order: left subtree, right subtree, node;
    - in-order: left subtree, node, right subtree;
    - stack order: node, right subtree, left subtree (the stack pushes the
      left child first, so the right one is popped first);
    - level order: level by level from the top, left to right within a
      level. */
module Orders {
  import opened BTnodes
  import opened Shapes

  /** One visited node and the value it holds. */
  datatype Visit<V> = Visit(node: BTnode<V>, value: V)

  ghost function PreOrder<V>(t: Tree<V>): seq<Visit<V>>
  {
    match t
    case Nil => []
    case Node(o, v, l, r) => [Visit(o, v)] + PreOrder(l) + PreOrder(r)
  }

  ghost function PostOrder<V>(t: Tree<V>): seq<Visit<V>>
  {
    match t
    case Nil => []
    case Node(o, v, l, r) => PostOrder(l) + PostOrder(r) + [Visit(o, v)]
  }

  ghost function InOrder<V>(t: Tree<V>): seq<Visit<V>>
  {
    match t
    case Nil => []
    case Node(o, v, l, r) => InOrder(l) + [Visit(o, v)] + InOrder(r)
  }

  ghost function StackOrder<V>(t: Tree<V>): seq<Visit<V>>
  {
    match t
    case Nil => []
    case Node(o, v, l, r) => [Visit(o, v)] + StackOrder(r) + StackOrder(l)
  }

  /** The children of a node that are present, left one first. */
  ghost function Kids<V>(t: Tree<V>): seq<Tree<V>>
  {
    match t
    case Nil => []
    case Node(_, _, l, r) => Opt(l) + Opt(r)
  }

  /** A tree as a forest: empty for the absent tree. */
  ghost function Opt<V>(t: Tree<V>): seq<Tree<V>>
  {
    if t.Nil? then [] else [t]
  }

  /** The visits of the nodes heading the trees of a forest. */
  ghost function Roots<V>(f: seq<Tree<V>>): seq<Visit<V>>
  {
    if f == [] then []
    else (if f[0].Nil? then [] else [Visit(f[0].obj, f[0].value)]) + Roots(f[1..])
  }

  /** The forest one level down: the present children of every tree, in
      order. */
  ghost function Children<V>(f: seq<Tree<V>>): seq<Tree<V>>
  {
    if f == [] then [] else Kids(f[0]) + Children(f[1..])
  }

  /** Number of nodes in a forest. */
  ghost function Count<V>(f: seq<Tree<V>>): nat
  {
    if f == [] then 0 else Size(f[0]) + Count(f[1..])
  }

  /** The nodes of a forest level by level. */
  ghost function Levels<V>(f: seq<Tree<V>>): seq<Visit<V>>
    decreases Count(f), |f|
  {
    if f == [] then []
    else
      ChildrenCount(f);
      Roots(f) + Levels(Children(f))
  }

  ghost function LevelOrder<V>(t: Tree<V>): seq<Visit<V>>
  {
    Levels([t])
  }

  /** The node of the first visit holding `v`, or null when none does. */
  function FirstMatch<V(==)>(s: seq<Visit<V>>, v: V): BTnode?<V>
  {
    if s == [] then null
    else if s[0].value == v then s[0].node
    else FirstMatch(s[1..], v)
  }

  /** The first match is null exactly when no visit holds `v`; otherwise it
      is the node of a visit holding `v` with no such visit before it. */
  lemma {:induction false} FirstMatchSpec<V>(s: seq<Visit<V>>, v: V)
    ensures FirstMatch(s, v) == null <==> forall i :: 0 <= i < |s| ==> s[i].value != v
    ensures FirstMatch(s, v) != null ==>
              exists i :: 0 <= i < |s| && s[i] == Visit(FirstMatch(s, v), v) && forall j :: 0 <= j < i ==> s[j].value != v
  {
    if s != [] && s[0].value != v {
      FirstMatchSpec(s[1..], v);
      assert forall i :: 1 <= i < |s| ==> s[i] == s[1..][i - 1];
      if FirstMatch(s, v) != null {
        var i :| 0 <= i < |s[1..]| && s[1..][i] == Visit(FirstMatch(s, v), v) && forall j :: 0 <= j < i ==> s[1..][j].value != v;
        assert s[i + 1] == Visit(FirstMatch(s, v), v);
      }
    }
  }

  /** The first match in a concatenation is the first match in the front
      part, or, when there is none there, the first match in the back part. */
  lemma {:induction false} FirstMatchAppend<V>(a: seq<Visit<V>>, b: seq<Visit<V>>, v: V)
    ensures FirstMatch(a + b, v) == if FirstMatch(a, v) != null then FirstMatch(a, v) else FirstMatch(b, v)
  {
    if a == [] {
      assert a + b == b;
    } else {
      assert (a + b)[0] == a[0] && (a + b)[1..] == a[1..] + b;
      FirstMatchAppend(a[1..], b, v);
    }
  }

  // ---------------------------------------------------------------------
  // Forest arithmetic

  lemma {:induction false} ChildrenCount<V>(f: seq<Tree<V>>)
    ensures Count(Children(f)) + |Roots(f)| == Count(f)
    ensures Count(Children(f)) < Count(f) || Children(f) == []
  {
    if f != [] {
      ChildrenCount(f[1..]);
      match f[0]
      case Nil =>
        assert Children(f) == Children(f[1..]) && Roots(f) == Roots(f[1..]);
      case Node(_, _, l, r) =>
        assert Count(Kids(f[0])) == Size(l) + Size(r) by {
          CountAppend(if l.Nil? then [] else [l], if r.Nil? then [] else [r]);
        }
        CountAppend(Kids(f[0]), Children(f[1..]));
    }
  }

  lemma {:induction false} CountAppend<V>(a: seq<Tree<V>>, b: seq<Tree<V>>)
    ensures Count(a + b) == Count(a) + Count(b)
  {
    if a == [] {
      assert a + b == b;
    } else {
      assert (a + b)[0] == a[0] && (a + b)[1..] == a[1..] + b;
      CountAppend(a[1..], b);
    }
  }

  // ---------------------------------------------------------------------
  // Every order visits the nodes that pre-order visits, each as often

  /** The pre-orders of the trees of a forest, one after the other. */
  ghost function PreOrders<V>(f: seq<Tree<V>>): seq<Visit<V>>
  {
    if f == [] then [] else PreOrder(f[0]) + PreOrders(f[1..])
  }

  lemma {:induction false} PreOrdersAppend<V>(a: seq<Tree<V>>, b: seq<Tree<V>>)
    ensures PreOrders(a + b) == PreOrders(a) + PreOrders(b)
  {
    if a == [] {
      assert a + b == b;
    } else {
      assert (a + b)[0] == a[0] && (a + b)[1..] == a[1..] + b;
      PreOrdersAppend(a[1..], b);
    }
  }

  lemma {:induction false} PreOrdersSingle<V>(t: Tree<V>)
    ensures PreOrders([t]) == PreOrder(t)
  {
    assert [t][1..] == [];
  }

  lemma {:induction false} RootsSingle<V>(t: Tree<V>)
    ensures Roots([t]) == if t.Nil? then [] else [Visit(t.obj, t.value)]
  {
    assert [t][1..] == [];
  }

  lemma {:induction false} PreOrdersOpt<V>(t: Tree<V>)
    ensures PreOrders(Opt(t)) == PreOrder(t)
  {
    if t.Node? {
      PreOrdersSingle(t);
    }
  }

  /** Taking the top node off a pre-order leaves the pre-orders of the
      present children. */
  lemma {:induction false} PreOrderSplit<V>(t: Tree<V>)
    ensures PreOrder(t) == Roots([t]) + PreOrders(Kids(t))
  {
    RootsSingle(t);
    match t
    case Nil =>
    case Node(o, v, l, r) =>
      var a: seq<Tree<V>> := if l.Nil? then [] else [l];
      var b: seq<Tree<V>> := if r.Nil? then [] else [r];
      assert Kids(t) == a + b;
      PreOrdersAppend(a, b);
      PreOrdersOpt(l);
      PreOrdersOpt(r);
      assert PreOrders(Kids(t)) == PreOrder(l) + PreOrder(r);
      assert [Visit(o, v)] + PreOrder(l) + PreOrder(r) == [Visit(o, v)] + (PreOrder(l) + PreOrder(r));
  }

  /** Taking the roots of a forest off its pre-orders leaves the pre-orders
      of the forest one level down. */
  lemma {:induction false} PreOrdersSplit<V>(f: seq<Tree<V>>)
    ensures multiset(PreOrders(f)) == multiset(Roots(f)) + multiset(PreOrders(Children(f)))
  {
    if f != [] {
      var t, f' := f[0], f[1..];
      PreOrdersSplit(f');
      PreOrderSplit(t);
      assert PreOrders(f) == PreOrder(t) + PreOrders(f');
      assert Children(f) == Kids(t) + Children(f');
      PreOrdersAppend(Kids(t), Children(f'));
      assert Roots(f) == Roots([t]) + Roots(f') by {
        RootsSingle(t);
      }
    }
  }

  lemma {:induction false} LevelsPermutation<V>(f: seq<Tree<V>>)
    ensures multiset(Levels(f)) == multiset(PreOrders(f))
    decreases Count(f), |f|
  {
    if f != [] {
      ChildrenCount(f);
      LevelsPermutation(Children(f));
      PreOrdersSplit(f);
    }
  }

  /** Level order visits the same nodes as pre-order, each as often as
      pre-order does (once each, by `PreOrderOnce`, when no node repeats). */
  lemma {:induction false} LevelOrderPermutation<V>(t: Tree<V>)
    ensures multiset(LevelOrder(t)) == multiset(PreOrder(t))
  {
    LevelsPermutation([t]);
    assert PreOrders([t]) == PreOrder(t) + PreOrders([]);
  }

  lemma {:induction false} PostOrderPermutation<V>(t: Tree<V>)
    ensures multiset(PostOrder(t)) == multiset(PreOrder(t))
  {
    match t
    case Nil =>
    case Node(_, _, l, r) =>
      PostOrderPermutation(l);
      PostOrderPermutation(r);
  }

  lemma {:induction false} InOrderPermutation<V>(t: Tree<V>)
    ensures multiset(InOrder(t)) == multiset(PreOrder(t))
  {
    match t
    case Nil =>
    case Node(_, _, l, r) =>
      InOrderPermutation(l);
      InOrderPermutation(r);
  }

  lemma {:induction false} StackOrderPermutation<V>(t: Tree<V>)
    ensures multiset(StackOrder(t)) == multiset(PreOrder(t))
  {
    match t
    case Nil =>
    case Node(_, _, l, r) =>
      StackOrderPermutation(l);
      StackOrderPermutation(r);
  }

  // ---------------------------------------------------------------------
  // What a visit order says about the nodes of the tree

  /** Pre-order visits exactly the nodes of the tree, with their values. */
  lemma {:induction false} PreOrderVisits<V>(t: Tree<V>)
    ensures forall x :: x in PreOrder(t) <==> x.node in Objs(t) && Visit(x.node, x.value) in PreOrder(t)
    ensures forall o :: o in Objs(t) ==> exists x :: x in PreOrder(t) && x.node == o
    ensures forall v :: Has(t, v) <==> exists x :: x in PreOrder(t) && x.value == v
  {
    match t
    case Nil =>
    case Node(o, v, l, r) =>
      PreOrderVisits(l);
      PreOrderVisits(r);
      assert PreOrder(t)[0] == Visit(o, v);
  }

  /** No node is visited twice. */
  ghost predicate Once<V>(s: seq<Visit<V>>)
  {
    forall i, j :: 0 <= i < j < |s| ==> s[i].node != s[j].node
  }

  lemma {:induction false} OnceAppend<V>(a: seq<Visit<V>>, b: seq<Visit<V>>)
    requires Once(a) && Once(b)
    requires forall x, y :: x in a && y in b ==> x.node != y.node
    ensures Once(a + b)
  {
    forall i, j | 0 <= i < j < |a + b|
      ensures (a + b)[i].node != (a + b)[j].node
    {
      if j < |a| {
        assert (a + b)[i] == a[i] && (a + b)[j] == a[j];
      } else if |a| <= i {
        assert (a + b)[i] == b[i - |a|] && (a + b)[j] == b[j - |a|];
      } else {
        assert (a + b)[i] == a[i] && (a + b)[j] == b[j - |a|];
      }
    }
  }

  lemma {:induction false} VisitsInTree<V>(t: Tree<V>)
    ensures forall x :: x in PreOrder(t) ==> x.node in Objs(t)
  {
    match t
    case Nil =>
    case Node(_, _, l, r) =>
      VisitsInTree(l);
      VisitsInTree(r);
  }

  /** In a tree without repeated nodes, pre-order visits each node once:
      together with `PreOrderVisits`, exactly once. */
  lemma {:induction false} PreOrderOnce<V>(t: Tree<V>)
    requires Distinct(t)
    ensures Once(PreOrder(t))
  {
    match t
    case Nil =>
    case Node(o, v, l, r) =>
      PreOrderOnce(l);
      PreOrderOnce(r);
      VisitsInTree(l);
      VisitsInTree(r);
      var x, a, b := [Visit(o, v)], PreOrder(l), PreOrder(r);
      forall p, q | p in x && q in a
        ensures p.node != q.node
      {
        assert q.node in Objs(l);
      }
      OnceAppend(x, a);
      forall p, q | p in x + a && q in b
        ensures p.node != q.node
      {
        assert q.node in Objs(r);
        if p in a {
          assert p.node in Objs(l);
        }
      }
      OnceAppend(x + a, b);
  }

  /** Visits of a tree that fits the heap carry the values the nodes hold. */
  lemma {:induction false} VisitsHoldValues<V>(t: Tree<V>)
    requires Fits(t)
    ensures forall x :: x in PreOrder(t) ==> x.node in Objs(t) && x.node.value == x.value
  {
    match t
    case Nil =>
    case Node(_, _, l, r) =>
      VisitsHoldValues(l);
      VisitsHoldValues(r);
  }

  /** For any order that visits each node of `t` once, the first match is a
      node of `t` that holds `v`, and there is none exactly when no node of
      `t` holds `v`. */
  lemma {:induction false} FirstMatchInTree<V>(t: Tree<V>, s: seq<Visit<V>>, v: V)
    requires Fits(t) && multiset(s) == multiset(PreOrder(t))
    ensures FirstMatch(s, v) == null <==> !Has(t, v)
    ensures FirstMatch(s, v) != null ==> FirstMatch(s, v) in Objs(t) && FirstMatch(s, v).value == v
  {
    PreOrderVisits(t);
    VisitsHoldValues(t);
    FirstMatchSpec(s, v);
    var r := FirstMatch(s, v);
    if r != null {
      var i :| 0 <= i < |s| && s[i] == Visit(r, v);
      assert s[i] in multiset(PreOrder(t));
    }
    if Has(t, v) {
      var x :| x in PreOrder(t) && x.value == v;
      assert x in multiset(s);
    }
  }
}
