# BinaryTree in Dafny

A model of the Python `BinaryTree` package: a mutable binary tree whose nodes
(`BTnode`) carry a value and three links, `left`, `right` and `parent`.
A `BinaryTree` object holds a root node. It supports the following:

- growing the tree below any node (`add_left`, `add_right`, `add_subtree`);
- pruning it (`clear`, `remove`);
- changing a value (`change`);
- searching for a value in five visit orders: recursive pre-, post- and in-order, an explicit stack, and an explicit queue (the default).

Three module-level helpers describe a node (`node_info`) and walk a subtree breadth-first: one counts nodes and measures height (`tree_info`), the other lists node descriptions level by level (`tree_nodes`).

The model keeps the program's form. Nodes are objects of class `BTnode` with the four fields. The tree is a class `BinaryTree` whose mutating methods change those fields in place through the node setters. The two iterative searches and the two helper walks are methods with `while` loops over a stack or queue, modelled as a sequence. Node descriptions and the three recursive searches are functions that read the links.

Each tree object also keeps a ghost `model`, a value of type `Shapes.Tree`. It records the node objects reachable from the root and their values.

- `Valid()` says the links below the root unfold to exactly that value with no sharing and no cycle. Every operation keeps it.
- `Consistent()` adds that the root has no parent and every other node's `parent` is the node linking to it.

Each mutation states its effect on the fields and on `model`. The model-level effect goes through three functions:

- `Graft`: a slot of a node replaced by a subtree;
- `Pushed`: a new node placed above a slot's old content;
- `WithValue`: one node's value changed.

Each mutation also states whether `Consistent()` is kept. Each search returns the first match in an order defined as a function of `model` (`Orders.PreOrder`, `PostOrder`, `InOrder`, `StackOrder`, `LevelOrder`). Lemmas prove that pre-order visits each node of the tree exactly once, and that each of the other four orders is a rearrangement of pre-order (the same visits, each as often). So a search returns null exactly when no node holds the value, and otherwise a node of the tree holding it.

The stack search pushes the left child and then the right one, so it pops the right subtree first. Its order is node, right subtree, left subtree (`StackOrder`), not pre-order.

The `parent` back-references are not part of `Valid()`. When `add_left` pushes an existing child one level down, it gives that child the new node as its parent. `add_right` does not, so the pushed child keeps naming the old parent (see Findings). The model follows the code. `Consistent()` is therefore proved preserved only under these conditions, each assuming the tree was consistent before:

- `FromValue` always establishes it. `FromNode` establishes it when the back-references below the adopted node were already right.
- `Clear`, `ChangeNode`, `ChangeValue`, `RemoveNode` and `RemoveValue` always keep it.
- `AddLeft` and `AddRightReparented` keep it when `parent` is a node of the tree. For a node outside the tree whose child is a node of the tree, the re-parenting breaks it.
- `AddRight` keeps it when `parent` is a node of the tree and its right slot was empty. It provably breaks it when that slot was occupied.
- `AddSubtree` keeps it when `parent` is a node of the tree and the attached subtree's own back-references were right.

## Model

| member | source | states |
|---|---|---|
| BTnodes.BTnode.constructor | Code_Python/BinaryTree.py:171-179 | a node holds the given value and links |
| BTnodes.BTnode.SetValue | Code_Python/BinaryTree.py:193-197 | sets the value; the three links are unchanged |
| BTnodes.BTnode.SetLeft | Code_Python/BinaryTree.py:205-209 | sets the left link; value, right and parent unchanged |
| BTnodes.BTnode.SetRight | Code_Python/BinaryTree.py:217-221 | sets the right link; value, left and parent unchanged |
| BTnodes.BTnode.SetParent | Code_Python/BinaryTree.py:229-233 | sets the parent link; value, left and right unchanged |
| TreeHelpers.NodeInfoInTree | Code_Python/BinaryTree.py:73-96 | for a node of a well-formed subtree, the description agrees with the recorded subtree it heads: its value, the values heading its two subtrees (None for an absent child), and, when the back-references are right, the value of the node whose slot holds it; None for a top without parent |
| TreeHelpers.TreeInfo | Code_Python/BinaryTree.py:99-131 | the breadth-first walk returns the number of nodes of the subtree and its height (longest downward path in links, 0 for a single node) |
| TreeHelpers.TreeNodes | Code_Python/BinaryTree.py:134-164 | the walk returns one description per node, the i-th being that of the i-th node in level order |
| Searches.SearchPre | Code_Python/BinaryTree.py:401-422 | returns the first node holding the value in pre-order (node, left, right); null iff no node of the subtree holds it; otherwise a node of the subtree holding it |
| Searches.SearchPost | Code_Python/BinaryTree.py:424-445 | the same for post-order (left, right, node) |
| Searches.SearchIn | Code_Python/BinaryTree.py:447-468 | the same for in-order (left, node, right) |
| Searches.SearchStack | Code_Python/BinaryTree.py:470-502 | the stack loop returns the first match in the order node, right subtree, left subtree; null iff absent; otherwise a node of the subtree holding the value |
| Searches.SearchQueue | Code_Python/BinaryTree.py:504-536 | the queue loop returns the first match in level order, left before right within a level; null iff absent; otherwise a node of the subtree holding the value |
| Searches.StackStep | Code_Python/BinaryTree.py:486-500 | popping the top node is the next visit of the stack order, and pushing its present children keeps the stack in step with the subtrees still to visit |
| Searches.QueueStep | Code_Python/BinaryTree.py:520-534 | dequeuing the head is the next visit of the level order, and enqueuing its present children keeps the queue in step with the subtrees still to visit |
| Searches.WaitingPop | Code_Python/BinaryTree.py:520-534 | what a queue still has to visit is its head's visit followed by what the queue without the head and with the head's children has to visit |
| Searches.PendingPop | Code_Python/BinaryTree.py:486-500 | what a stack still has to visit is its top's visit followed by what the stack without the top and with the top's children has to visit |
| Orders.FirstMatchSpec | Code_Python/BinaryTree.py:374-399 | the first match of a visit sequence is null exactly when no visit holds the value, and otherwise the node of the earliest visit holding it |
| Orders.PostOrderPermutation | Code_Python/BinaryTree.py:424-445 | post-order is a rearrangement of pre-order: the same visits, each as often |
| Orders.InOrderPermutation | Code_Python/BinaryTree.py:447-468 | in-order is a rearrangement of pre-order |
| Orders.StackOrderPermutation | Code_Python/BinaryTree.py:470-502 | the stack order is a rearrangement of pre-order |
| Orders.LevelOrderPermutation | Code_Python/BinaryTree.py:504-536 | level order is a rearrangement of pre-order |
| Orders.PreOrderOnce | Code_Python/BinaryTree.py:401-422 | in a tree without repeated nodes, pre-order never visits a node twice |
| Orders.FirstMatchInTree | Code_Python/BinaryTree.py:374-399 | in any rearrangement of pre-order, the first match is null iff no node holds the value, and otherwise a node of the tree holding it |
| BinaryTrees.BinaryTree.FromValue | Code_Python/BinaryTree.py:255-258 | a tree made of one fresh root holding the value, without children or parent |
| BinaryTrees.BinaryTree.FromNode | Code_Python/BinaryTree.py:251-254 | the given node becomes the root and loses its parent; the tree below it is kept, and is consistent when its back-references were |
| BinaryTrees.BinaryTree.IsEmpty | Code_Python/BinaryTree.py:271-276 | true iff the tree holds the root alone (size 1, height 0) |
| BinaryTrees.LeafSize | Code_Python/BinaryTree.py:364-372 | a node heading a well-formed subtree is a leaf (neither child) exactly when that subtree has one node, exactly when its height is 0 |
| BinaryTrees.BinaryTree.Clear | Code_Python/BinaryTree.py:357-362 | the root loses both children and keeps its value and parent; the tree is the root alone, size 1, height 0; consistency kept |
| BinaryTrees.BinaryTree.AddLeft | Code_Python/BinaryTree.py:278-308 | returns a fresh node holding the value as parent.left with parent as its parent; an old left child goes below it on its right iff side is "right", otherwise on its left, and gets the new node as parent; the old subtree is kept whole; when parent is a node of the tree, the tree grows by one and consistency is kept |
| BinaryTrees.PushedShaped | Code_Python/BinaryTree.py:289-306 | pushing a slot's subtree one level below a new node keeps a well-formed tree one node larger |
| BinaryTrees.PushedLinked | Code_Python/BinaryTree.py:300-306 | that push keeps every back-reference right when the pushed node is re-parented to the new node |
| BinaryTrees.BinaryTree.AddRight | Code_Python/BinaryTree.py:310-337 | returns a fresh node holding the value as parent.right with parent as its parent; an old right child goes below it on its left iff side is "left", otherwise on its right, and keeps its old parent; tree kept whole; when parent is a node of the tree, one node larger, with consistency kept on an empty slot and lost on an occupied one |
| BinaryTrees.PushedUnlinked | Code_Python/BinaryTree.py:321-335 | when the pushed node does not name the new node as parent, the back-references are no longer consistent |
| BinaryTrees.BinaryTree.AddRightReparented | Code_Python/BinaryTree.py:310-337 | add_right with the pushed node re-parented, as add_left does: same shape, and consistency kept when parent is a node of the tree |
| BinaryTrees.BinaryTree.AddSubtree | Code_Python/BinaryTree.py:339-355 | the given node gets parent as its parent and replaces parent.right if side is "right", parent.left otherwise; the other slot and the subtree's own links are unchanged; size changes by the subtree attached minus the subtree overwritten; consistency kept when parent is a node of the tree and the subtree's own back-references were right |
| BinaryTrees.GraftShaped | Code_Python/BinaryTree.py:345-355 | putting a well-formed subtree, disjoint from the rest of the tree, into a slot keeps a well-formed tree whose size is adjusted by the two subtrees |
| BinaryTrees.GraftLinked | Code_Python/BinaryTree.py:345-355 | that graft keeps every back-reference right when the subtree's head names the node as parent |
| BinaryTrees.BinaryTree.Search | Code_Python/BinaryTree.py:374-399 | "pre", "post", "in", "stack" select those orders, any other string the queue; returns the first match in that order over the whole tree, null iff absent |
| BinaryTrees.BinaryTree.ChangeNode | Code_Python/BinaryTree.py:538-557 | sets the node's value and returns it; no link changes; the tree is the old one with that node's value changed, so it now holds the new value; consistency kept |
| BinaryTrees.Revalued | Code_Python/BinaryTree.py:553-555 | changing one node's value, and nothing else, keeps the tree well formed and consistent |
| BinaryTrees.WithValueHas | Code_Python/BinaryTree.py:553-555 | after the change some node holds the new value |
| BinaryTrees.BinaryTree.ChangeValue | Code_Python/BinaryTree.py:538-557 | finds the first node holding the value in the selected order and changes its value, keeping its links and the root; the tree is the old one with that value changed; returns null with nothing changed iff no node held the value |
| BinaryTrees.BinaryTree.RemoveNode | Code_Python/BinaryTree.py:559-588 | clears the parent's left link if it is the node and its right link otherwise; the node loses its parent and keeps its subtree; the new tree is the old one with the parent's cleared slot emptied (unchanged when the parent is outside the tree); consistency kept; in a consistent tree, when the node is in it, the node's subtree is cut out and the size drops by exactly its size |
| BinaryTrees.Pruned | Code_Python/BinaryTree.py:578-586 | clearing a child link cuts the subtree in that slot off a well-formed tree and keeps the back-references right |
| BinaryTrees.RemovedSize | Code_Python/BinaryTree.py:578-586 | cutting a node's subtree out removes that node and exactly its subtree's nodes |
| BinaryTrees.BinaryTree.RemoveValue | Code_Python/BinaryTree.py:559-588 | finds the first node holding the value in the selected order and detaches it as `RemoveNode` does: the parent's left link cleared if it is the node, its right link otherwise; the node loses its parent and keeps its value and children; in a consistent tree the node's subtree is cut out and the size drops by exactly its size; returns null with nothing changed iff no node held the value |

## Left out

- The string representations `__repr__` of both classes are not modelled; they are presentation only.
- The getters of `BTnode` are plain field reads.
- `Stack` and `Queue` are not part of this model. Their `push`/`pop`/`enqueue`/`dequeue` are sequence operations on the loop variables.
- The `isinstance` test in `__init__`, `change` and `remove` is not modelled. Each of these is split into a form taking a node (`FromNode`, `ChangeNode`, `RemoveNode`) and one taking a value (`FromValue`, `ChangeValue`, `RemoveValue`).
- The default arguments (`side='left'`, `side='right'`, `order='queue'`) are ordinary parameters. Any string other than the recognised names behaves like the default, as in the source.
- The cases where Python raises `AttributeError` are excluded rather than modelled. Node arguments have the non-null type `BTnode`, so a None argument cannot be passed to:
  - `node_info`, `tree_info`, `tree_nodes` and `is_leaf`;
  - `add_left` and `add_right` (the parent);
  - `add_subtree` (the subtree's root and the parent);
  - `search_stack` and `search_queue` (the start node).
- `search_pre`, `search_post` and `search_in` are recursive in Python and raise `RecursionError` on a tree deeper than the interpreter's recursion limit (about 1000 levels by default); `SearchPre`, `SearchPost` and `SearchIn` always return.
- Removing a node without a parent is excluded by a precondition: `RemoveNode` requires `node.parent != null`, and `RemoveValue` requires it of the node found.
- Linked structures that are not finite trees (shared nodes, cycles) are excluded by `Valid()`. `AddSubtree` also requires that the attached nodes do not already hang elsewhere in the tree, which excludes attaching an ancestor of `parent`.
- BinaryTrees.BinaryTree.FromNode: promises `Consistent()` only when the back-references below the node were already right. The source does not check them.
- BinaryTrees.BinaryTree.AddSubtree: promises `Consistent()` only when the attached subtree's own back-references were right. The source sets only the head's parent.
- BinaryTrees.BinaryTree.RemoveNode: states the exact shrink of the tree only when it was consistent and the node is in it. A stale `parent` (after `AddRight`, or after `AddSubtree` overwrote the node) can point at a node of the tree that no longer links to the removed one. The contract then states the field changes, `Valid()`, and the new tree as the old one with the slot it cleared emptied (`Graft(old(model), old(node.parent), Nil, …)`), which may cut off a subtree other than the node's.
- The overwritten subtree in `AddSubtree` and the subtree detached by `remove` are not tracked after the operation. Their nodes keep their links, but no tree object records them.
- The ghost arguments `t`/`S` name the recorded subtree below a node argument. They stand for the heap shape the source takes for granted and carry no run-time data.

## Findings

| source | as written | input that shows it | evidently intended | confidence | as-written member | corrected member |
|---|---|---|---|---|---|---|
| Code_Python/BinaryTree.py:321-335 | `add_right` pushes an existing right child below the new node but never calls `set_parent` on it, unlike `add_left` (line 303) | a consistent tree where node 2 has right child 3; `add_right(20, n2, side='left')` leaves node 3 with parent 2 while its parent link is now 20 (the expected-output comment in Code_Python/test_BinaryTree.py:115-117 lists `[3, 7, 8, 2]`) | the pushed node gets the new node as its parent, so parent/child consistency holds after every edit | medium; not executed | BinaryTrees.BinaryTree.AddRight (with BinaryTrees.PushedUnlinked: `!Linked(model)` after a push into an occupied slot of a linked tree) | BinaryTrees.BinaryTree.AddRightReparented (keeps `Consistent()`) |
