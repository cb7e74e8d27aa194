/** The node of a binary tree: one value and three optional links.
    `left` and `right` are the children; `parent` is a back-reference used
    only to walk upwards. A node enforces nothing about its links: keeping
    them consistent is the tree's job. The getters of the source are plain
    field reads here. */
module BTnodes {

  class BTnode<V> {
    var value: V
    var left: BTnode?<V>
    var right: BTnode?<V>
    var parent: BTnode?<V>

    /** A node with the given content and (possibly absent) links. */
    constructor (value: V, left: BTnode?<V>, right: BTnode?<V>, parent: BTnode?<V>)
      ensures this.value == value && this.left == left && this.right == right
      ensures this.parent == parent
    {
      this.value := value;
      this.left := left;
      this.right := right;
      this.parent := parent;
    }

    method SetValue(value: V)
      modifies this
      ensures this.value == value
      ensures left == old(left) && right == old(right) && parent == old(parent)
    {
      this.value := value;
    }

    method SetLeft(left: BTnode?<V>)
      modifies this
      ensures this.left == left
      ensures value == old(value) && right == old(right) && parent == old(parent)
    {
      this.left := left;
    }

    method SetRight(right: BTnode?<V>)
      modifies this
      ensures this.right == right
      ensures value == old(value) && left == old(left) && parent == old(parent)
    {
      this.right := right;
    }

    method SetParent(parent: BTnode?<V>)
      modifies this
      ensures this.parent == parent
      ensures value == old(value) && left == old(left) && right == old(right)
    {
      this.parent := parent;
    }
  }
}
