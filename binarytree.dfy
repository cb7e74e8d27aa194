/** The binary tree object: a root node plus the operations that grow,
    search, change and prune the linked nodes below it.

    `model` records the nodes reachable from `root`. `Valid()` says the
    links below `root` form a finite tree recorded by `model`; it holds
    after every operation. `Consistent()` additionally says that the root
    has no parent and that every other node's `parent` is the node linking
    to it; most operations keep it, `AddRight` on an occupied slot does
    not. Node arguments may be nodes of this tree or of any other tree.
    An operation whose affected parent lies outside this tree leaves
    `model` as it was. `RemoveNode` acts on `node.parent`: on a node
    outside the tree whose stale `parent` is a node of the tree, it
    clears one of that parent's slots. */
module BinaryTrees {
  import opened BTnodes
  import opened Shapes
  import opened Orders
  import opened Searches

  /** The recorded subtree below the right link of `o` in `t` when
      `onRight`, below its left link otherwise; `Nil` when `o` is not in
      `t`. */
  ghost function Slot<V>(t: Tree<V>, o: BTnode<V>, onRight: bool): Tree<V>
  {
    if o !in Objs(t) then Nil
    else if onRight then Sub(t, o).right
    else Sub(t, o).left
  }

  /** `t` with `s` in place of `Slot(t, o, onRight)`, or `t` itself when
      `o` is not in `t`. */
  ghost function Graft<V>(t: Tree<V>, o: BTnode<V>, s: Tree<V>, onRight: bool): Tree<V>
  {
    var st := Sub(t, o);
    if st.Nil? then t
    else if onRight then Replace(t, o, st.(right := s))
    else Replace(t, o, st.(left := s))
  }

  /** `t` with node `o` holding `v`, or `t` itself when `o` is not in `t`. */
  ghost function WithValue<V>(t: Tree<V>, o: BTnode<V>, v: V): Tree<V>
  {
    if o in Objs(t) then
      var st := Sub(t, o);
      if st.Node? then Replace(t, o, st.(value := v)) else t
    else t
  }

  /** A new node `n` holding `v` that takes the subtree `below` on its right
      side when `toRight`, on its left side otherwise. */
  ghost function Pushed<V>(n: BTnode<V>, v: V, below: Tree<V>, toRight: bool): Tree<V>
  {
    if toRight then Node(n, v, Nil, below) else Node(n, v, below, Nil)
  }

  /** The visit order selected by the `order` argument of a search; any
      string other than the four names selects the queue. */
  ghost function Order<V>(t: Tree<V>, order: string): seq<Visit<V>>
  {
    if order == "pre" then PreOrder(t)
    else if order == "post" then PostOrder(t)
    else if order == "in" then InOrder(t)
    else if order == "stack" then StackOrder(t)
    else LevelOrder(t)
  }

  class BinaryTree<V(==)> {
    var root: BTnode<V>
    ghost var model: Tree<V>

    ghost predicate Valid()
      reads this, Objs(model)
    {
      Shaped(root, model)
    }

    ghost predicate Consistent()
      reads this, Objs(model)
    {
      Valid() && root.parent == null && Linked(model)
    }

    /** A tree made of one new node holding `value`. */
    constructor FromValue(value: V)
      ensures Consistent() && fresh(root)
      ensures model == Node(root, value, Nil, Nil)
      ensures root.value == value && root.left == null && root.right == null && root.parent == null
    {
      root := new BTnode(value, null, null, null);
      model := Node(root, value, Nil, Nil);
      new;
      assert Objs<V>(Nil) == {};
      assert Distinct(model);
      assert Fits(model);
      assert root == Top(model);
    }

    /** A tree whose root is the existing node `data`, which is cut off
        from its parent; the nodes below it are shared with wherever they
        already are. */
    constructor FromNode(data: BTnode<V>, ghost t: Tree<V>)
      requires Shaped(data, t)
      modifies data
      ensures root == data && model == t && Valid()
      ensures data.parent == null
      ensures data.value == old(data.value) && data.left == old(data.left) && data.right == old(data.right)
      ensures old(Linked(t)) ==> Consistent()
    {
      root := data;
      model := t;
      new;
      data.SetParent(null);
      FitsUnchanged(t);
      if old(Linked(t)) {
        LinkedUnchanged(t);
      }
    }

    /** A node is a leaf when it has neither child. */
    static function IsLeaf(node: BTnode<V>): bool
      reads node
    {
      node.left == null && node.right == null
    }

    /** The tree is empty when its root is a leaf, that is when it holds
        the root node only. */
    function IsEmpty(): (r: bool)
      requires Valid()
      reads this, Objs(model)
      ensures r <==> Size(model) == 1
      ensures r <==> Height(model) == 0
    {
      LeafSize(root, model);
      IsLeaf(root)
    }

    /** Drops every node but the root. */
    method Clear()
      requires Valid()
      modifies this, root
      ensures root == old(root) && root.left == null && root.right == null
      ensures root.value == old(root.value) && root.parent == old(root.parent)
      ensures model == Node(root, root.value, Nil, Nil) && Valid()
      ensures Size(model) == 1 && Height(model) == 0
      ensures old(Consistent()) ==> Consistent()
    {
      root.SetLeft(null);
      root.SetRight(null);
      model := Node(root, root.value, Nil, Nil);
      assert Objs<V>(Nil) == {};
      assert Distinct(model) && Fits(model);
    }

    /** Adds a new node holding `value` as the left child of `parent` and
        returns it. A left child already there is pushed one level down,
        onto the right side of the new node when `side` is "right" and onto
        its left side otherwise, and gets the new node as its parent. */
    method AddLeft(value: V, parent: BTnode<V>, side: string) returns (r: BTnode<V>)
      requires Valid()
      modifies this, parent, parent.left
      ensures fresh(r) && root == old(root)
      ensures r.value == value && r.parent == parent && parent.left == r
      ensures parent.value == old(parent.value) && parent.right == old(parent.right)
      ensures old(parent.left) != parent ==> parent.parent == old(parent.parent)
      ensures old(parent.left) == null ==> r.left == null && r.right == null
      ensures old(parent.left) != null && side == "right" ==> r.left == null && r.right == old(parent.left)
      ensures old(parent.left) != null && side != "right" ==> r.left == old(parent.left) && r.right == null
      ensures old(parent.left) != null ==> old(parent.left).parent == r
      ensures old(parent.left) != null && old(parent.left) != parent ==>
                old(parent.left).value == old(parent.left.value) && old(parent.left).left == old(parent.left.left) &&
                old(parent.left).right == old(parent.left.right)
      ensures Valid()
      ensures model == Graft(old(model), parent, Pushed(r, value, Slot(old(model), parent, false), side == "right"), false)
      ensures parent in old(Objs(model)) ==> Size(model) == old(Size(model)) + 1
      ensures parent in old(Objs(model)) && old(Consistent()) ==> Consistent()
    {
      ghost var t := model;
      var below := parent.left;
      if parent in Objs(t) {
        ShapedSub(t, parent);
        TopNotBelow(t, parent);
        if Linked(t) {
          LinkedSub(t, parent);
        }
      }
      if below == null {
        r := new BTnode(value, null, null, parent);
      } else if side == "right" {
        r := new BTnode(value, null, below, parent);
        below.SetParent(r);
      } else {
        r := new BTnode(value, below, null, parent);
        below.SetParent(r);
      }
      parent.SetLeft(r);
      FreshOutside(t, r);
      if parent in Objs(t) {
        ghost var at := Sub(t, parent);
        ghost var s := Pushed(r, value, Slot(t, parent, false), side == "right");
        model := Graft(t, parent, s, false);
        assert at.obj == parent && Top(t) == root;
        PushedShaped(t, at, s, false);
        if old(Consistent()) {
          PushedLinked(t, at, s, false);
        }
      } else {
        FitsUnchanged(t);
      }
    }

    /** Adds a new node holding `value` as the right child of `parent` and
        returns it. A right child already there is pushed one level down,
        onto the left side of the new node when `side` is "left" and onto
        its right side otherwise; unlike `AddLeft`, the pushed node keeps
        `parent` as its `parent`, so the back-references are left stale. */
    method AddRight(value: V, parent: BTnode<V>, side: string) returns (r: BTnode<V>)
      requires Valid()
      modifies this, parent
      ensures fresh(r) && root == old(root)
      ensures r.value == value && r.parent == parent && parent.right == r
      ensures parent.value == old(parent.value) && parent.left == old(parent.left) && parent.parent == old(parent.parent)
      ensures old(parent.right) == null ==> r.left == null && r.right == null
      ensures old(parent.right) != null && side == "left" ==> r.left == old(parent.right) && r.right == null
      ensures old(parent.right) != null && side != "left" ==> r.left == null && r.right == old(parent.right)
      ensures Valid()
      ensures model == Graft(old(model), parent, Pushed(r, value, Slot(old(model), parent, true), side != "left"), true)
      ensures parent in old(Objs(model)) ==> Size(model) == old(Size(model)) + 1
      ensures parent in old(Objs(model)) && old(parent.right) == null && old(Consistent()) ==> Consistent()
      ensures parent in old(Objs(model)) && old(parent.right) != null && old(Linked(model)) ==> !Linked(model)
    {
      ghost var t := model;
      var below := parent.right;
      if parent in Objs(t) {
        ShapedSub(t, parent);
        TopNotBelow(t, parent);
        if Linked(t) {
          LinkedSub(t, parent);
        }
      }
      if below == null {
        r := new BTnode(value, null, null, parent);
      } else if side == "left" {
        r := new BTnode(value, below, null, parent);
      } else {
        r := new BTnode(value, null, below, parent);
      }
      parent.SetRight(r);
      FreshOutside(t, r);
      if parent in Objs(t) {
        ghost var at := Sub(t, parent);
        ghost var s := Pushed(r, value, Slot(t, parent, true), side != "left");
        model := Graft(t, parent, s, true);
        assert at.obj == parent && Top(t) == root;
        PushedShaped(t, at, s, true);
        if old(Linked(model)) {
          if below == null {
            PushedLinked(t, at, s, true);
          } else {
            PushedUnlinked(t, at, s, true);
          }
        }
      } else {
        FitsUnchanged(t);
      }
    }

    /** `AddRight` as its own comment and `AddLeft` suggest it was meant:
        the pushed node also gets the new node as its parent, so the
        back-references stay right. */
    method AddRightReparented(value: V, parent: BTnode<V>, side: string) returns (r: BTnode<V>)
      requires Valid()
      modifies this, parent, parent.right
      ensures fresh(r) && root == old(root)
      ensures r.value == value && r.parent == parent && parent.right == r
      ensures parent.value == old(parent.value) && parent.left == old(parent.left)
      ensures old(parent.right) != parent ==> parent.parent == old(parent.parent)
      ensures old(parent.right) == null ==> r.left == null && r.right == null
      ensures old(parent.right) != null && side == "left" ==> r.left == old(parent.right) && r.right == null
      ensures old(parent.right) != null && side != "left" ==> r.left == null && r.right == old(parent.right)
      ensures old(parent.right) != null ==> old(parent.right).parent == r
      ensures old(parent.right) != null && old(parent.right) != parent ==>
                old(parent.right).value == old(parent.right.value) && old(parent.right).left == old(parent.right.left) &&
                old(parent.right).right == old(parent.right.right)
      ensures Valid()
      ensures model == Graft(old(model), parent, Pushed(r, value, Slot(old(model), parent, true), side != "left"), true)
      ensures parent in old(Objs(model)) ==> Size(model) == old(Size(model)) + 1
      ensures parent in old(Objs(model)) && old(Consistent()) ==> Consistent()
    {
      ghost var t := model;
      var below := parent.right;
      if parent in Objs(t) {
        ShapedSub(t, parent);
        TopNotBelow(t, parent);
        if Linked(t) {
          LinkedSub(t, parent);
        }
      }
      if below == null {
        r := new BTnode(value, null, null, parent);
      } else if side == "left" {
        r := new BTnode(value, below, null, parent);
        below.SetParent(r);
      } else {
        r := new BTnode(value, null, below, parent);
        below.SetParent(r);
      }
      parent.SetRight(r);
      FreshOutside(t, r);
      if parent in Objs(t) {
        ghost var at := Sub(t, parent);
        ghost var s := Pushed(r, value, Slot(t, parent, true), side != "left");
        model := Graft(t, parent, s, true);
        assert at.obj == parent && Top(t) == root;
        PushedShaped(t, at, s, true);
        if old(Consistent()) {
          PushedLinked(t, at, s, true);
        }
      } else {
        FitsUnchanged(t);
      }
    }

    /** Attaches the tree headed by `sub`, recorded by `S`, as the right
        child of `parent` when `side` is "right" and as its left child
        otherwise, overwriting whatever hung there; `sub` gets `parent` as
        its parent. The attached nodes must not already hang elsewhere in
        this tree (in particular, `sub` must not be an ancestor of
        `parent`), since the result would no longer be a tree. */
    method AddSubtree(sub: BTnode<V>, parent: BTnode<V>, side: string, ghost S: Tree<V>)
      requires Valid() && Shaped(sub, S)
      requires parent in Objs(model) ==> Objs(S) !! Objs(model) - Objs(Slot(model, parent, side == "right"))
      modifies this, sub, parent
      ensures root == old(root) && sub.parent == parent
      ensures side == "right" ==> parent.right == sub && parent.left == old(parent.left)
      ensures side != "right" ==> parent.left == sub && parent.right == old(parent.right)
      ensures parent.value == old(parent.value)
      ensures sub != parent ==> parent.parent == old(parent.parent)
      ensures sub != parent ==> sub.value == old(sub.value) && sub.left == old(sub.left) && sub.right == old(sub.right)
      ensures Valid()
      ensures model == Graft(old(model), parent, S, side == "right")
      ensures parent in old(Objs(model)) ==>
                Size(model) == old(Size(model)) - Size(Slot(old(model), parent, side == "right")) + Size(S)
      ensures parent in old(Objs(model)) && old(Consistent()) && old(Linked(S)) ==> Consistent()
    {
      ghost var t := model;
      var onRight := side == "right";
      if parent in Objs(t) {
        ShapedSub(t, parent);
        TopNotBelow(t, parent);
        if Linked(t) {
          LinkedSub(t, parent);
        }
      }
      sub.SetParent(parent);
      if onRight {
        parent.SetRight(sub);
      } else {
        parent.SetLeft(sub);
      }
      if parent in Objs(t) {
        ghost var at := Sub(t, parent);
        model := Graft(t, parent, S, onRight);
        assert at.obj == parent && Top(t) == root;
        FitsUnchanged(S);
        GraftShaped(t, at, S, onRight);
        if old(Consistent()) && old(Linked(S)) {
          LinkedUnchanged(S);
          GraftLinked(t, at, S, onRight);
        }
      } else {
        FitsUnchanged(t);
      }
    }

    /** Search the whole tree with the strategy named by `order`: "pre",
        "post", "in", "stack", or, for any other string, the queue. */
    method Search(value: V, order: string) returns (r: BTnode?<V>)
      requires Valid()
      ensures r == FirstMatch(Order(model, order), value)
      ensures r == null <==> !Has(model, value)
      ensures r != null ==> r in Objs(model) && r.value == value
    {
      if order == "pre" {
        r := SearchPre(value, root, model);
      } else if order == "post" {
        r := SearchPost(value, root, model);
      } else if order == "in" {
        r := SearchIn(value, root, model);
      } else if order == "stack" {
        r := SearchStack(value, root, model);
      } else {
        r := SearchQueue(value, root, model);
      }
    }

    /** Gives `node` the value `newValue` and returns it. */
    method ChangeNode(newValue: V, node: BTnode<V>) returns (r: BTnode<V>)
      requires Valid()
      modifies this, node
      ensures r == node && root == old(root)
      ensures node.value == newValue
      ensures node.left == old(node.left) && node.right == old(node.right) && node.parent == old(node.parent)
      ensures Valid()
      ensures model == WithValue(old(model), node, newValue)
      ensures node in old(Objs(model)) ==> Has(model, newValue)
      ensures old(Consistent()) ==> Consistent()
    {
      ghost var t := model;
      if node in Objs(t) {
        ShapedSub(t, node);
        if Linked(t) {
          LinkedSub(t, node);
        }
      }
      node.SetValue(newValue);
      r := node;
      if node in Objs(t) {
        ghost var at := Sub(t, node);
        model := WithValue(t, node, newValue);
        assert at.obj == node && Top(t) == root;
        Revalued(t, at);
        WithValueHas(t, node, newValue);
      } else {
        FitsUnchanged(t);
        if old(Consistent()) {
          LinkedUnchanged(t);
        }
      }
    }

    /** Finds the first node holding `value` in the order named by `order`
        and gives it the value `newValue`; returns that node, or null, with
        nothing changed, when no node holds `value`. */
    method ChangeValue(newValue: V, value: V, order: string) returns (r: BTnode?<V>)
      requires Valid()
      modifies this, FirstMatch(Order(model, order), value)
      ensures r == old(FirstMatch(Order(model, order), value)) && root == old(root)
      ensures r == null <==> !old(Has(model, value))
      ensures r == null ==> model == old(model)
      ensures r != null ==> r.value == newValue && model == WithValue(old(model), r, newValue)
      ensures r != null ==> r.left == old(r.left) && r.right == old(r.right) && r.parent == old(r.parent)
      ensures Valid()
      ensures old(Consistent()) ==> Consistent()
    {
      ObjsAllocated(model);
      r := Search(value, order);
      if r != null {
        r := ChangeNode(newValue, r);
      }
    }

    /** Detaches `node`, and the subtree below it, from its parent and
        returns it. The parent's left link is cleared when it is `node`,
        its right link otherwise (whatever it holds); `node` loses its
        parent. A node without a parent, such as the root, cannot be
        removed. */
    method RemoveNode(node: BTnode<V>) returns (r: BTnode<V>)
      requires Valid() && node.parent != null
      modifies this, node, node.parent
      ensures r == node && root == old(root) && node.parent == null
      ensures old(node.parent).value == old(node.parent.value)
      ensures old(node.parent.left) == node ==>
                old(node.parent).left == null && old(node.parent).right == old(node.parent.right)
      ensures old(node.parent.left) != node ==>
                old(node.parent).right == null && old(node.parent).left == old(node.parent.left)
      ensures old(node.parent) != node ==> old(node.parent).parent == old(node.parent.parent)
      ensures old(node.parent) != node ==>
                node.value == old(node.value) && node.left == old(node.left) && node.right == old(node.right)
      ensures Valid()
      ensures model == Graft(old(model), old(node.parent), Nil, old(node.parent.left) != node)
      ensures old(Consistent()) ==> Consistent()
      ensures old(Consistent()) && node in old(Objs(model)) ==>
                model == Replace(old(model), node, Nil) && !(node in Objs(model)) &&
                Size(model) == old(Size(model)) - Size(Sub(old(model), node))
    {
      ghost var t := model;
      var parent := node.parent;
      var onRight := parent.left != node;
      ghost var inside := Consistent() && node in Objs(t);
      if parent in Objs(t) {
        ShapedSub(t, parent);
        TopNotBelow(t, parent);
        if Linked(t) {
          LinkedSub(t, parent);
        }
      }
      if inside {
        LinkedParent(t, node);
        ClearSlot(t, parent, node);
        assert node == Top(Slot(t, parent, onRight));
      }
      ghost var kept := Objs(t) - Objs(Slot(t, parent, onRight));
      assert Consistent() && parent in Objs(t) ==> node !in kept;
      r := node;
      if !onRight {
        parent.SetLeft(null);
      } else {
        parent.SetRight(null);
      }
      node.SetParent(null);
      if parent in Objs(t) {
        ghost var at := Sub(t, parent);
        model := Graft(t, parent, Nil, onRight);
        assert at.obj == parent && Top(t) == root;
        Pruned(t, at, onRight, node);
        if inside {
          RemovedSize(t, node);
        }
      } else {
        FitsUnchanged(t);
        if old(Consistent()) {
          LinkedUnchanged(t);
        }
      }
    }

    /** Finds the first node holding `value` in the order named by `order`
        and detaches it as `RemoveNode` does; returns that node, or null,
        with nothing changed, when no node holds `value`. The node found
        must have a parent. */
    method RemoveValue(value: V, order: string) returns (r: BTnode?<V>)
      requires Valid()
      requires FirstMatch(Order(model, order), value) != null ==> FirstMatch(Order(model, order), value).parent != null
      modifies this, Target(FirstMatch(Order(model, order), value))
      ensures r == old(FirstMatch(Order(model, order), value)) && root == old(root)
      ensures r == null <==> !old(Has(model, value))
      ensures r == null ==> model == old(model)
      ensures r != null ==> r.parent == null && model == Graft(old(model), old(r.parent), Nil, old(r.parent.left) != r)
      ensures r != null && old(r.parent.left) == r ==>
                old(r.parent).left == null && old(r.parent).right == old(r.parent.right)
      ensures r != null && old(r.parent.left) != r ==>
                old(r.parent).right == null && old(r.parent).left == old(r.parent.left)
      ensures r != null && old(r.parent) != r ==>
                r.value == old(r.value) && r.left == old(r.left) && r.right == old(r.right)
      ensures Valid()
      ensures old(Consistent()) ==> Consistent()
      ensures r != null && old(Consistent()) ==>
                model == Replace(old(model), r, Nil) && r !in Objs(model) &&
                Size(model) == old(Size(model)) - Size(Sub(old(model), r))
    {
      ObjsAllocated(model);
      r := Search(value, order);
      if r != null {
        r := RemoveNode(r);
      }
    }
  }

  /** Grafting a well-formed subtree `s` into a slot of the node heading
      `at`, a subtree of `t`, keeps `t` a tree: when, besides the nodes of
      `s`, only that node changed its links and only towards `s`, the links
      below `Top(t)` unfold to the grafted tree. (The node is passed as the
      subtree it heads; all parameters but `t` are marked `new` only to
      keep the verifier's encoding of the call simple.) */
  twostate lemma {:induction false} GraftShaped<V>(t: Tree<V>, new at: Tree<V>, new s: Tree<V>, new onRight: bool)
    requires old(Fits(t)) && Distinct(t) && at.Node? && at == Sub(t, at.obj) && old(allocated(at)) && old(Fits(at))
    requires Distinct(s) && Fits(s)
    requires Objs(s) !! Objs(t) - Objs(Slot(t, at.obj, onRight))
    requires forall x :: x in Objs(t) - Objs(Slot(t, at.obj, onRight)) && x != at.obj && old(allocated(x)) ==>
               x.value == old(x.value) && x.left == old(x.left) && x.right == old(x.right)
    requires at.obj.value == old(at.obj.value)
    requires if onRight then at.obj.right == Top(s) && at.obj.left == old(at.obj.left)
             else at.obj.left == Top(s) && at.obj.right == old(at.obj.right)
    ensures Shaped(Top(t), Graft(t, at.obj, s, onRight))
    ensures Size(Graft(t, at.obj, s, onRight)) == Size(t) - Size(Slot(t, at.obj, onRight)) + Size(s)
  {
    SubDistinct(t, at.obj);
    var other := if onRight then at.left else at.right;
    FitsUnchanged(other);
    var n := if onRight then at.(right := s) else at.(left := s);
    assert Fits(n);
    ReplaceDistinct(t, at.obj, n);
    FitsReplace(t, n);
    ReplaceSize(t, at.obj, n);
    ReplaceTop(t, at.obj, n);
  }

  /** Grafting keeps every child's `parent` pointing back when `s` links
      back internally, its top names the grafted node as parent, and no
      node outside the replaced slot changed its `parent`. */
  twostate lemma {:induction false} GraftLinked<V>(t: Tree<V>, new at: Tree<V>, new s: Tree<V>, new onRight: bool)
    requires old(Linked(t)) && Distinct(t) && at.Node? && at == Sub(t, at.obj) && old(allocated(at)) && old(Linked(at))
    requires Linked(s) && (s.Node? ==> s.obj.parent == at.obj)
    requires forall x :: x in Objs(t) - Objs(Slot(t, at.obj, onRight)) && old(allocated(x)) ==> x.parent == old(x.parent)
    ensures Linked(Graft(t, at.obj, s, onRight))
  {
    SubDistinct(t, at.obj);
    var other := if onRight then at.left else at.right;
    LinkedUnchanged(other);
    var n := if onRight then at.(right := s) else at.(left := s);
    assert Linked(n);
    LinkedReplace(t, n);
  }

  /** Pushing the subtree in a slot of the node heading `at` one level
      down below a new node `s.obj` keeps the tree well formed and adds one
      node, when only `at.obj` changed its links and only to point at the
      new node. */
  twostate lemma {:induction false} PushedShaped<V>(t: Tree<V>, new at: Tree<V>, new s: Tree<V>, new onRight: bool)
    requires old(Fits(t)) && Distinct(t) && at.Node? && at == Sub(t, at.obj) && old(allocated(at)) && old(Fits(at))
    requires s.Node? && s.obj !in Objs(t)
    requires (s.left == Slot(t, at.obj, onRight) && s.right == Nil) || (s.left == Nil && s.right == Slot(t, at.obj, onRight))
    requires s.obj.value == s.value && s.obj.left == Top(s.left) && s.obj.right == Top(s.right)
    requires forall x :: x != at.obj && old(allocated(x)) ==>
               x.value == old(x.value) && x.left == old(x.left) && x.right == old(x.right)
    requires at.obj.value == old(at.obj.value)
    requires if onRight then at.obj.right == s.obj && at.obj.left == old(at.obj.left)
             else at.obj.left == s.obj && at.obj.right == old(at.obj.right)
    ensures Shaped(Top(t), Graft(t, at.obj, s, onRight))
    ensures Size(Graft(t, at.obj, s, onRight)) == Size(t) + 1
  {
    SubDistinct(t, at.obj);
    var slot := Slot(t, at.obj, onRight);
    FitsUnchanged(slot);
    assert Fits(s);
    assert Objs(s) == {s.obj} + Objs(slot);
    GraftShaped(t, at, s, onRight);
  }

  /** The same push keeps every `parent` back-reference right when the new
      node names `at.obj` as its parent and the pushed node, if any, names
      the new node; no other node changed its `parent`. */
  twostate lemma {:induction false} PushedLinked<V>(t: Tree<V>, new at: Tree<V>, new s: Tree<V>, new onRight: bool)
    requires old(Linked(t)) && Distinct(t) && at.Node? && at == Sub(t, at.obj) && old(allocated(at)) && old(Linked(at))
    requires s.Node? && s.obj !in Objs(t)
    requires (s.left == Slot(t, at.obj, onRight) && s.right == Nil) || (s.left == Nil && s.right == Slot(t, at.obj, onRight))
    requires old(Fits(at)) && s.obj.parent == at.obj
    requires var below := old(if onRight then at.obj.right else at.obj.left);
             (below != null ==> below.parent == s.obj) &&
             forall x: BTnode<V> :: x != below && old(allocated(x)) ==> x.parent == old(x.parent)
    ensures Linked(Graft(t, at.obj, s, onRight))
  {
    SubDistinct(t, at.obj);
    var slot := Slot(t, at.obj, onRight);
    LinkedUnchanged(slot);
    assert Linked(s);
    GraftLinked(t, at, s, onRight);
  }

  /** When the pushed node keeps naming the old parent, the grafted tree
      is not linked: the new node's child does not point back at it. */
  lemma {:induction false} PushedUnlinked<V>(t: Tree<V>, at: Tree<V>, s: Tree<V>, onRight: bool)
    requires at.Node? && at == Sub(t, at.obj) && Distinct(Graft(t, at.obj, s, onRight))
    requires s.Node? && s.obj !in Objs(t)
    requires (s.left == Slot(t, at.obj, onRight) && s.right == Nil) || (s.left == Nil && s.right == Slot(t, at.obj, onRight))
    requires Slot(t, at.obj, onRight).Node? && Slot(t, at.obj, onRight).obj.parent != s.obj
    ensures !Linked(Graft(t, at.obj, s, onRight))
  {
    var n := if onRight then at.(right := s) else at.(left := s);
    var g := Graft(t, at.obj, s, onRight);
    assert g == Replace(t, at.obj, n);
    SubInside(t, at.obj, n, s.obj);
    assert Sub(g, s.obj) == s;
    if Linked(g) {
      LinkedSub(g, s.obj);
      assert false;
    }
  }

  /** Changing the value held by the node heading `at`, a subtree of `t`,
      and nothing else, keeps `t` a tree with that one value changed. */
  twostate lemma {:induction false} Revalued<V>(t: Tree<V>, new at: Tree<V>)
    requires old(Fits(t)) && Distinct(t) && at.Node? && at == Sub(t, at.obj) && old(allocated(at)) && old(Fits(at))
    requires old(Linked(t)) ==> old(Linked(at))
    requires forall x: BTnode<V> :: x != at.obj && old(allocated(x)) ==>
               x.value == old(x.value) && x.left == old(x.left) && x.right == old(x.right) && x.parent == old(x.parent)
    requires at.obj.left == old(at.obj.left) && at.obj.right == old(at.obj.right) && at.obj.parent == old(at.obj.parent)
    ensures Shaped(Top(t), WithValue(t, at.obj, at.obj.value))
    ensures old(Linked(t)) ==> Linked(WithValue(t, at.obj, at.obj.value))
  {
    SubDistinct(t, at.obj);
    FitsUnchanged(at.left);
    FitsUnchanged(at.right);
    var n := at.(value := at.obj.value);
    assert Fits(n);
    ReplaceDistinct(t, at.obj, n);
    FitsReplace(t, n);
    ReplaceTop(t, at.obj, n);
    if old(Linked(t)) {
      LinkedUnchanged(at);
      assert Linked(n);
      LinkedReplace(t, n);
    }
  }

  /** Clearing a child link of the node heading `at`, a subtree of `t`,
      cuts the subtree in that slot off the tree. The back-references stay
      right when the only node whose `parent` changed, `gone`, was in the
      cut-off slot or not in `t` at all. */
  twostate lemma {:induction false} Pruned<V>(t: Tree<V>, new at: Tree<V>, new onRight: bool, new gone: BTnode<V>)
    requires old(Fits(t)) && Distinct(t) && at.Node? && at == Sub(t, at.obj) && old(allocated(at)) && old(Fits(at))
    requires forall x: BTnode<V> :: x != at.obj && old(allocated(x)) ==>
               x.value == old(x.value) && x.left == old(x.left) && x.right == old(x.right)
    requires at.obj.value == old(at.obj.value)
    requires if onRight then at.obj.right == null && at.obj.left == old(at.obj.left)
             else at.obj.left == null && at.obj.right == old(at.obj.right)
    requires forall x: BTnode<V> :: x != gone && old(allocated(x)) ==> x.parent == old(x.parent)
    ensures Shaped(Top(t), Graft(t, at.obj, Nil, onRight))
    ensures old(Linked(t)) && old(Linked(at)) && gone !in Objs(t) - Objs(Slot(t, at.obj, onRight)) ==>
              Linked(Graft(t, at.obj, Nil, onRight))
  {
    GraftShaped(t, at, Nil, onRight);
    if old(Linked(t)) && old(Linked(at)) && gone !in Objs(t) - Objs(Slot(t, at.obj, onRight)) {
      GraftLinked(t, at, Nil, onRight);
    }
  }

  /** The node `n`, if any, and its parent: what removing `n` changes. */
  ghost function Target<V>(n: BTnode?<V>): set<BTnode<V>>
    reads n
  {
    if n == null then {} else if n.parent == null then {n} else {n, n.parent}
  }

  /** After the change, some node of the tree holds the new value. */
  lemma {:induction false} WithValueHas<V>(t: Tree<V>, o: BTnode<V>, v: V)
    requires Distinct(t) && o in Objs(t)
    ensures Has(WithValue(t, o, v), v)
  {
    var st := Sub(t, o);
    ReplaceContainsHas(t, o, st.(value := v), v);
  }

  lemma {:induction false} ReplaceContainsHas<V>(t: Tree<V>, o: BTnode<V>, n: Tree<V>, v: V)
    requires o in Objs(t) && n.Node? && n.value == v
    ensures Has(Replace(t, o, n), v)
  {
    match t
    case Node(p, _, l, r) =>
      if p != o {
        if o in Objs(l) {
          ReplaceContainsHas(l, o, n, v);
        } else {
          ReplaceContainsHas(r, o, n, v);
        }
      }
  }

  /** Cutting the subtree at `o` out of `t` removes exactly its nodes. */
  lemma {:induction false} RemovedSize<V>(t: Tree<V>, o: BTnode<V>)
    requires Distinct(t) && o in Objs(t)
    ensures o !in Objs(Replace(t, o, Nil))
    ensures Size(Replace(t, o, Nil)) == Size(t) - Size(Sub(t, o))
  {
    ReplaceDistinct(t, o, Nil);
    ReplaceSize(t, o, Nil);
  }

  /** A node heading a recorded subtree is a leaf exactly when the subtree
      is the node alone, that is when its height is 0. */
  lemma {:induction false} LeafSize<V>(n: BTnode<V>, t: Tree<V>)
    requires Shaped(n, t)
    ensures BinaryTree<V>.IsLeaf(n) <==> Size(t) == 1
    ensures BinaryTree<V>.IsLeaf(n) <==> Height(t) == 0
  {
    match t
    case Node(_, _, l, r) =>
      HeightRange(l);
      HeightRange(r);
      SizeZero(l);
      SizeZero(r);
  }

  lemma {:induction false} SizeZero<V>(t: Tree<V>)
    ensures t.Nil? <==> Size(t) == 0
  {
  }
}
