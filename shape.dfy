/** The value-level picture of a linked subtree and the facts that tie it to
    the heap.

    A `Tree` records, for every node reachable through `left` and `right`
    links, the node object and its value. `Shaped(n, t)` says that the links
    starting at `n` unfold to exactly `t` and that no object occurs twice in
    `t`: the nodes below `n` form a finite tree, with no cycle and no
    sharing. Parent back-references are not part of the shape; `Linked`
    states them separately, because some operations of the source leave
    them stale. */
module Shapes {
  import opened BTnodes

  datatype Tree<V> = Nil | Node(obj: BTnode<V>, value: V, left: Tree<V>, right: Tree<V>)

  /** The node objects of a tree. */
  ghost function Objs<V>(t: Tree<V>): (s: set<BTnode<V>>)
    ensures t.Node? ==> t.obj in s
  {
    match t
    case Nil => {}
    case Node(o, _, l, r) => {o} + Objs(l) + Objs(r)
  }

  /** Number of nodes. */
  function Size<V>(t: Tree<V>): nat
  {
    match t
    case Nil => 0
    case Node(_, _, l, r) => 1 + Size(l) + Size(r)
  }

  /** Length of the longest downward path counted in links: 0 for a single
      node, -1 for the absent tree. */
  function Height<V>(t: Tree<V>): int
  {
    match t
    case Nil => -1
    case Node(_, _, l, r) => 1 + Max(Height(l), Height(r))
  }

  /** Only the absent tree has height -1; every other tree has a height of
      at least 0. */
  lemma {:induction false} HeightRange<V>(t: Tree<V>)
    ensures t.Nil? <==> Height(t) == -1
    ensures Height(t) >= -1
  {
    if t.Node? {
      HeightRange(t.left);
    }
  }

  function Max(a: int, b: int): int
  {
    if a < b then b else a
  }

  /** Some node of `t` holds `v`. */
  ghost predicate Has<V>(t: Tree<V>, v: V)
  {
    t.Node? && (t.value == v || Has(t.left, v) || Has(t.right, v))
  }

  /** No node object occurs twice in `t`. */
  ghost predicate Distinct<V>(t: Tree<V>)
  {
    match t
    case Nil => true
    case Node(o, _, l, r) =>
      o !in Objs(l) && o !in Objs(r) && Objs(l) !! Objs(r) && Distinct(l) && Distinct(r)
  }

  /** The node heading `t`, or null for the absent tree. */
  function Top<V>(t: Tree<V>): BTnode?<V>
  {
    if t.Nil? then null else t.obj
  }

  /** Each node of `t` carries the value recorded for it and links to the
      nodes heading its recorded subtrees. */
  ghost predicate Fits<V>(t: Tree<V>)
    reads Objs(t)
  {
    match t
    case Nil => true
    case Node(o, v, l, r) => o.value == v && o.left == Top(l) && o.right == Top(r) && Fits(l) && Fits(r)
  }

  /** `n` heads a finite tree whose content is `t`. */
  ghost predicate Shaped<V>(n: BTnode?<V>, t: Tree<V>)
    reads Objs(t)
  {
    n == Top(t) && Distinct(t) && Fits(t)
  }

  /** Every child node in `t` has its parent in `t` as its `parent`
      back-reference. */
  ghost predicate Linked<V>(t: Tree<V>)
    reads Objs(t)
  {
    match t
    case Nil => true
    case Node(o, _, l, r) =>
      (l.Node? ==> l.obj.parent == o) && (r.Node? ==> r.obj.parent == o) && Linked(l) && Linked(r)
  }

  /** The subtree of `t` headed by node `o`; `Nil` when `o` is not in `t`. */
  ghost function Sub<V>(t: Tree<V>, o: BTnode<V>): (s: Tree<V>)
    ensures o in Objs(t) <==> s.Node?
    ensures s.Node? ==> s.obj == o
    ensures Objs(s) <= Objs(t) && Size(s) <= Size(t)
  {
    match t
    case Nil => Nil
    case Node(p, _, l, r) =>
      if p == o then t else if o in Objs(l) then Sub(l, o) else Sub(r, o)
  }

  /** `t` with the subtree headed by `o` replaced by `s`. */
  ghost function Replace<V>(t: Tree<V>, o: BTnode<V>, s: Tree<V>): Tree<V>
  {
    match t
    case Nil => Nil
    case Node(p, v, l, r) =>
      if p == o then s else Node(p, v, Replace(l, o, s), Replace(r, o, s))
  }

  /** Every node of a shaped tree heads the subtree recorded for it. */
  lemma {:induction false} ShapedSub<V>(t: Tree<V>, o: BTnode<V>)
    requires Distinct(t) && Fits(t) && o in Objs(t)
    ensures Shaped(o, Sub(t, o))
  {
    match t
    case Node(p, _, l, r) =>
      if p != o {
        if o in Objs(l) {
          ShapedSub(l, o);
        } else {
          ShapedSub(r, o);
        }
      }
  }

  lemma {:induction false} ReplaceAbsent<V>(t: Tree<V>, o: BTnode<V>, s: Tree<V>)
    requires o !in Objs(t)
    ensures Replace(t, o, s) == t
  {
    match t
    case Nil =>
    case Node(_, _, l, r) =>
      ReplaceAbsent(l, o, s);
      ReplaceAbsent(r, o, s);
  }

  /** Replacing the subtree at `o` by one that shares no node with the rest
      keeps the tree free of repeats, and exchanges exactly the nodes of the
      old subtree for those of the new one. */
  lemma {:induction false} ReplaceDistinct<V>(t: Tree<V>, o: BTnode<V>, s: Tree<V>)
    requires Distinct(t) && Distinct(s) && o in Objs(t)
    requires Objs(s) !! Objs(t) - Objs(Sub(t, o))
    ensures Distinct(Replace(t, o, s))
    ensures Objs(Replace(t, o, s)) == Objs(t) - Objs(Sub(t, o)) + Objs(s)
  {
    match t
    case Node(p, v, l, r) =>
      if p != o {
        if o in Objs(l) {
          ReplaceDistinct(l, o, s);
          ReplaceAbsent(r, o, s);
          assert Objs(Sub(t, o)) <= Objs(l);
        } else {
          ReplaceDistinct(r, o, s);
          ReplaceAbsent(l, o, s);
          assert Objs(Sub(t, o)) <= Objs(r);
        }
      }
  }

  /** The size changes by the difference between the new and the old
      subtree at `o`. */
  lemma {:induction false} ReplaceSize<V>(t: Tree<V>, o: BTnode<V>, s: Tree<V>)
    requires Distinct(t) && o in Objs(t)
    ensures Size(Replace(t, o, s)) == Size(t) - Size(Sub(t, o)) + Size(s)
  {
    match t
    case Node(p, v, l, r) =>
      if p != o {
        if o in Objs(l) {
          ReplaceSize(l, o, s);
          ReplaceAbsent(r, o, s);
        } else {
          ReplaceSize(r, o, s);
          ReplaceAbsent(l, o, s);
        }
      }
  }

  /** Objects whose `value`, `left` and `right` did not change still fit
      the same tree. */
  twostate lemma {:induction false} FitsUnchanged<V>(t: Tree<V>)
    requires old(Fits(t))
    requires forall x :: x in Objs(t) && old(allocated(x)) ==>
               x.value == old(x.value) && x.left == old(x.left) && x.right == old(x.right)
    ensures Fits(t)
  {
    match t
    case Nil =>
    case Node(_, _, l, r) =>
      FitsUnchanged(l);
      FitsUnchanged(r);
  }

  /** The heap-level counterpart of `Replace`, for a new subtree `s` headed
      by the same node `o` as the one it replaces: when only the nodes of
      the old subtree at `o` changed their `value`, `left` or `right`, and
      `s` fits the heap, `Replace(t, o, s)` fits it too. */
  twostate lemma {:induction false} FitsReplace<V>(t: Tree<V>, new s: Tree<V>)
    requires old(Fits(t)) && Distinct(t) && s.Node? && s.obj in Objs(t)
    requires Fits(s)
    requires forall x :: x in Objs(t) - Objs(Sub(t, s.obj)) && old(allocated(x)) ==>
               x.value == old(x.value) && x.left == old(x.left) && x.right == old(x.right)
    ensures Fits(Replace(t, s.obj, s))
  {
    match t
    case Node(p, v, l, r) =>
      if p != s.obj {
        if s.obj in Objs(l) {
          FitsReplace(l, s);
          ReplaceAbsent(r, s.obj, s);
          FitsUnchanged(r);
        } else {
          FitsReplace(r, s);
          ReplaceAbsent(l, s.obj, s);
          FitsUnchanged(l);
        }
      }
  }

  /** Back-references inside `t` survive when no node of `t` but possibly
      its top changed its `parent` (the top is nobody's child in `t`). */
  twostate lemma {:induction false} LinkedUnchanged<V>(t: Tree<V>)
    requires old(Linked(t)) && Distinct(t)
    requires forall x :: x in Objs(t) && x != Top(t) && old(allocated(x)) ==> x.parent == old(x.parent)
    ensures Linked(t)
  {
    match t
    case Nil =>
    case Node(_, _, l, r) =>
      LinkedUnchanged(l);
      LinkedUnchanged(r);
  }

  /** Back-references survive a replacement by a subtree `s` headed by the
      same node, when only nodes of the old subtree changed their `parent`,
      the heading node kept its own, and `s` links back internally. */
  twostate lemma {:induction false} LinkedReplace<V>(t: Tree<V>, new s: Tree<V>)
    requires old(Linked(t)) && Distinct(t) && s.Node? && s.obj in Objs(t)
    requires Linked(s)
    requires forall x :: x in Objs(t) && (x == s.obj || x !in Objs(Sub(t, s.obj))) && old(allocated(x)) ==>
               x.parent == old(x.parent)
    ensures Linked(Replace(t, s.obj, s))
  {
    match t
    case Node(q, v, l, r) =>
      if q != s.obj {
        if s.obj in Objs(l) {
          LinkedReplace(l, s);
          ReplaceAbsent(r, s.obj, s);
          LinkedUnchanged(r);
        } else {
          LinkedReplace(r, s);
          ReplaceAbsent(l, s.obj, s);
          LinkedUnchanged(l);
        }
      }
  }

  /** The top of `t` is not below any node of `t`. */
  lemma {:induction false} TopNotBelow<V>(t: Tree<V>, o: BTnode<V>)
    requires Distinct(t) && o in Objs(t)
    ensures t.obj !in Objs(Sub(t, o).left) && t.obj !in Objs(Sub(t, o).right)
  {
    match t
    case Node(p, _, l, r) =>
      if p != o {
        assert Objs(Sub(t, o)) <= Objs(l) + Objs(r);
      }
  }

  /** The subtree at `o` of a tree without repeats is headed by `o` and
      holds no node twice. */
  lemma {:induction false} SubDistinct<V>(t: Tree<V>, o: BTnode<V>)
    requires Distinct(t) && o in Objs(t)
    ensures Distinct(Sub(t, o)) && Sub(t, o).obj == o
  {
    match t
    case Node(p, _, l, r) =>
      if p != o {
        if o in Objs(l) { SubDistinct(l, o); } else { SubDistinct(r, o); }
      }
  }

  /** Back-references hold in every subtree of a linked tree. */
  lemma {:induction false} LinkedSub<V>(t: Tree<V>, o: BTnode<V>)
    requires Linked(t) && o in Objs(t)
    ensures Linked(Sub(t, o))
  {
    match t
    case Node(p, _, l, r) =>
      if p != o {
        if o in Objs(l) { LinkedSub(l, o); } else { LinkedSub(r, o); }
      }
  }

  /** The recorded subtree of `t` one of whose two slots holds `o`; `Nil`
      when `o` is the top of `t` or not in `t`. */
  ghost function Above<V>(t: Tree<V>, o: BTnode<V>): (s: Tree<V>)
    ensures s.Node? ==> Top(s.left) == o || Top(s.right) == o
  {
    match t
    case Nil => Nil
    case Node(_, _, l, r) =>
      if Top(l) == o || Top(r) == o then t
      else if o in Objs(l) then Above(l, o)
      else Above(r, o)
  }

  /** In a linked tree that fits the heap, the `parent` of every node but
      the top is the node whose slot holds it, and that node carries the
      value recorded for it. */
  lemma {:induction false} AboveParent<V>(t: Tree<V>, o: BTnode<V>)
    requires Linked(t) && Fits(t) && o in Objs(t) && o != Top(t)
    ensures Above(t, o).Node? && o.parent == Above(t, o).obj
    ensures Above(t, o).obj.value == Above(t, o).value
  {
    match t
    case Node(_, _, l, r) =>
      if Top(l) == o || Top(r) == o {
      } else if o in Objs(l) {
        AboveParent(l, o);
      } else {
        AboveParent(r, o);
      }
  }

  /** In a linked tree without repeats, every node but the top has its
      parent in the tree, and is the left or the right child there. */
  lemma {:induction false} LinkedParent<V>(t: Tree<V>, o: BTnode<V>)
    requires Linked(t) && Distinct(t) && o in Objs(t) && o != t.obj
    ensures o.parent != null && o.parent in Objs(t)
    ensures Top(Sub(t, o.parent).left) == o || Top(Sub(t, o.parent).right) == o
  {
    match t
    case Node(p, _, l, r) =>
      if l.Node? && l.obj == o {
      } else if r.Node? && r.obj == o {
      } else if o in Objs(l) {
        LinkedParent(l, o);
        assert o.parent != p by {
          assert o.parent in Objs(l);
        }
      } else {
        LinkedParent(r, o);
        assert o.parent != p by {
          assert o.parent in Objs(r);
        }
      }
  }

  /** Emptying the slot of `p` that holds child `o` is the same as
      replacing the subtree at `o` by nothing. */
  lemma {:induction false} ClearSlot<V>(t: Tree<V>, p: BTnode<V>, o: BTnode<V>)
    requires Distinct(t) && p in Objs(t)
    ensures Top(Sub(t, p).left) == o ==> Replace(t, p, Sub(t, p).(left := Nil)) == Replace(t, o, Nil)
    ensures Top(Sub(t, p).right) == o ==> Replace(t, p, Sub(t, p).(right := Nil)) == Replace(t, o, Nil)
  {
    var st := Sub(t, p);
    match t
    case Node(q, v, l, r) =>
      if q == p {
        if l.Node? && l.obj == o {
          ReplaceAt(l, o);
          ReplaceAbsent(r, o, Nil);
        }
        if r.Node? && r.obj == o {
          ReplaceAt(r, o);
          ReplaceAbsent(l, o, Nil);
        }
      } else if p in Objs(l) {
        ClearSlot(l, p, o);
        ReplaceAbsent(r, p, st.(left := Nil));
        ReplaceAbsent(r, p, st.(right := Nil));
        if Top(Sub(t, p).left) == o || Top(Sub(t, p).right) == o {
          BelowIn(l, p, o);
          ReplaceAbsent(r, o, Nil);
        }
      } else {
        ClearSlot(r, p, o);
        ReplaceAbsent(l, p, st.(left := Nil));
        ReplaceAbsent(l, p, st.(right := Nil));
        if Top(Sub(t, p).left) == o || Top(Sub(t, p).right) == o {
          BelowIn(r, p, o);
          ReplaceAbsent(l, o, Nil);
        }
      }
  }

  lemma {:induction false} ReplaceAt<V>(t: Tree<V>, o: BTnode<V>)
    requires t.Node? && t.obj == o
    ensures Replace(t, o, Nil) == Nil
  {
  }

  /** A child of a node of `t` is itself in `t`, and differs from the top. */
  lemma {:induction false} BelowIn<V>(t: Tree<V>, p: BTnode<V>, o: BTnode<V>)
    requires Distinct(t) && p in Objs(t)
    requires Top(Sub(t, p).left) == o || Top(Sub(t, p).right) == o
    ensures o in Objs(t) && o != t.obj
  {
    SubDistinct(t, p);
    TopNotBelow(t, p);
    var s := Sub(t, p);
    assert Objs(s.left) + Objs(s.right) <= Objs(s) <= Objs(t);
  }

  /** A node allocated after `t` was recorded is not one of its nodes. */
  twostate lemma {:induction false} FreshOutside<V>(t: Tree<V>, new n: BTnode<V>)
    requires !old(allocated(n))
    ensures n !in Objs(t)
  {
    match t
    case Nil =>
    case Node(_, _, l, r) =>
      FreshOutside(l, n);
      FreshOutside(r, n);
  }

  /** The nodes recorded in a tree exist in the heap. */
  lemma {:induction false} ObjsAllocated<V>(t: Tree<V>)
    ensures forall x :: x in Objs(t) ==> allocated(x)
  {
    match t
    case Nil =>
    case Node(_, _, l, r) =>
      ObjsAllocated(l);
      ObjsAllocated(r);
  }

  /** Replacing a subtree by one headed by the same node keeps the top. */
  lemma {:induction false} ReplaceTop<V>(t: Tree<V>, o: BTnode<V>, s: Tree<V>)
    requires o in Objs(t) && s.Node? && s.obj == o
    ensures Top(Replace(t, o, s)) == Top(t)
  {
  }

  /** After a replacement at a node of `t`, the new subtree's nodes are in
      the result. */
  lemma {:induction false} ReplaceContains<V>(t: Tree<V>, o: BTnode<V>, s: Tree<V>)
    requires o in Objs(t)
    ensures Objs(s) <= Objs(Replace(t, o, s))
  {
    match t
    case Node(p, _, l, r) =>
      if p != o {
        if o in Objs(l) {
          ReplaceContains(l, o, s);
        } else {
          ReplaceContains(r, o, s);
        }
      }
  }

  /** In a tree that stays distinct after a replacement, looking up a node
      of the new subtree finds it inside the new subtree. */
  lemma {:induction false} SubInside<V>(t: Tree<V>, o: BTnode<V>, s: Tree<V>, x: BTnode<V>)
    requires Distinct(Replace(t, o, s)) && o in Objs(t) && x in Objs(s)
    ensures Sub(Replace(t, o, s), x) == Sub(s, x)
  {
    match t
    case Node(p, _, l, r) =>
      if p != o {
        if o in Objs(l) {
          ReplaceContains(l, o, s);
          SubInside(l, o, s, x);
        } else {
          ReplaceContains(r, o, s);
          SubInside(r, o, s, x);
        }
      }
  }
}
