/** The node record of the splay tree and the three-way key comparison.
    A node is addressed by its index in the tree's arena; `Nil` stands for
    the null link. */
module Nodes {

  /** The null link. Every real node index is non-negative. */
  const Nil: int := -1

  /** One node: its key and its left, right and parent links. */
  datatype NodeRec = NodeRec(key: int, left: int, right: int, parent: int)

  /** A fresh node with no children, hung below `parent` (or a root when
      `parent` is `Nil`). */
  function NewNode(key: int, parent: int): (n: NodeRec)
    ensures n.key == key && n.parent == parent
    ensures n.left == Nil && n.right == Nil
  {
    NodeRec(key, Nil, Nil, parent)
  }

  /** Three-way comparison of a node's key with a search key: 1 means the
      search goes right, -1 means it goes left, 0 means the keys are equal. */
  function Compare(nodeKey: int, k: int): (c: int)
    ensures c == 1 <==> nodeKey < k
    ensures c == -1 <==> k < nodeKey
    ensures c == 0 <==> nodeKey == k
  {
    if nodeKey < k then 1
    else if k < nodeKey then -1
    else 0
  }

  /** Redirects whichever child link of `r` equals `from` to `to`. */
  function ReplaceChild(r: NodeRec, from: int, to: int): NodeRec
  {
    r.(left := if r.left == from then to else r.left,
       right := if r.right == from then to else r.right)
  }
}
