/** The abstract binary tree that an arena of linked nodes represents, and
    the tree-level counterparts of the splay tree's structural edits:
    rotation at a node, leaf insertion and replacement of a subtree. */
module Trees {
  import opened Nodes

  /** A binary tree whose nodes carry their arena index and their key. */
  datatype Tree = Leaf | Node(left: Tree, id: int, key: int, right: Tree)

  /** The index of the root node, or `Nil` for the empty tree. */
  ghost function RootId(t: Tree): int
  {
    if t.Leaf? then Nil else t.id
  }

  ghost function Ids(t: Tree): set<int>
  {
    match t
    case Leaf => {}
    case Node(l, i, _, r) => Ids(l) + {i} + Ids(r)
  }

  ghost function KeySet(t: Tree): set<int>
  {
    match t
    case Leaf => {}
    case Node(l, _, k, r) => KeySet(l) + {k} + KeySet(r)
  }

  /** The keys in in-order (left subtree, node, right subtree). */
  ghost function InOrder(t: Tree): seq<int>
  {
    match t
    case Leaf => []
    case Node(l, _, k, r) => InOrder(l) + [k] + InOrder(r)
  }

  ghost function Size(t: Tree): nat
  {
    match t
    case Leaf => 0
    case Node(l, _, _, r) => Size(l) + 1 + Size(r)
  }

  /** No arena index occurs twice in the tree. */
  ghost predicate Distinct(t: Tree)
  {
    match t
    case Leaf => true
    case Node(l, i, _, r) =>
      Distinct(l) && Distinct(r) && i !in Ids(l) && i !in Ids(r) && Ids(l) !! Ids(r)
  }

  /** The binary-search-tree ordering: every key of the left subtree is
      smaller than the node's key, every key of the right subtree larger. */
  ghost predicate Bst(t: Tree)
  {
    match t
    case Leaf => true
    case Node(l, _, k, r) =>
      Bst(l) && Bst(r) &&
      (forall x :: x in KeySet(l) ==> x < k) &&
      (forall x :: x in KeySet(r) ==> k < x)
  }

  ghost predicate StrictlySorted(s: seq<int>)
  {
    forall i, j :: 0 <= i < j < |s| ==> s[i] < s[j]
  }

  /** The subtree rooted at the node with index `i` (a leaf if there is none). */
  ghost function Sub(t: Tree, i: int): Tree
  {
    match t
    case Leaf => Leaf
    case Node(l, j, _, r) =>
      if j == i then t else if i in Ids(l) then Sub(l, i) else Sub(r, i)
  }

  /** `t` with the subtree rooted at index `i` replaced by `s`. */
  ghost function ReplaceAt(t: Tree, i: int, s: Tree): Tree
  {
    match t
    case Leaf => Leaf
    case Node(l, j, k, r) =>
      if j == i then s
      else if i in Ids(l) then Node(ReplaceAt(l, i, s), j, k, r)
      else Node(l, j, k, ReplaceAt(r, i, s))
  }

  /** Number of edges from the root down to the node with index `x`. */
  ghost function Depth(t: Tree, x: int): nat
    requires x in Ids(t)
  {
    match t
    case Node(l, j, _, r) =>
      if j == x then 0 else if x in Ids(l) then 1 + Depth(l, x) else 1 + Depth(r, x)
  }

  /** Right rotation of a subtree: its left child becomes its root. */
  ghost function RotateRightNode(s: Tree): Tree
  {
    if s.Node? && s.left.Node? then
      Node(s.left.left, s.left.id, s.left.key, Node(s.left.right, s.id, s.key, s.right))
    else s
  }

  /** Left rotation of a subtree: its right child becomes its root. */
  ghost function RotateLeftNode(s: Tree): Tree
  {
    if s.Node? && s.right.Node? then
      Node(Node(s.left, s.id, s.key, s.right.left), s.right.id, s.right.key, s.right.right)
    else s
  }

  ghost function RotateRightAt(t: Tree, i: int): Tree
  {
    ReplaceAt(t, i, RotateRightNode(Sub(t, i)))
  }

  ghost function RotateLeftAt(t: Tree, i: int): Tree
  {
    ReplaceAt(t, i, RotateLeftNode(Sub(t, i)))
  }

  /** Binary-search-tree insertion of key `k` as a new leaf with index `n`;
      a tree that already holds `k` is returned unchanged. */
  ghost function BstInsert(t: Tree, k: int, n: int): Tree
  {
    match t
    case Leaf => Node(Leaf, n, k, Leaf)
    case Node(l, j, kk, r) =>
      if kk < k then Node(l, j, kk, BstInsert(r, k, n))
      else if k < kk then Node(BstInsert(l, k, n), j, kk, r)
      else t
  }

  /** Binary-search-tree lookup: the index of the node holding `k`, or `Nil`. */
  ghost function Lookup(t: Tree, k: int): int
  {
    match t
    case Leaf => Nil
    case Node(l, j, kk, r) =>
      if kk < k then Lookup(r, k) else if k < kk then Lookup(l, k) else j
  }

  /** The arena `a` represents `t`, whose root hangs below `parent`: every
      node of `t` is a valid index whose record holds the node's key, the
      root indices of its two subtrees and the index of its tree parent. */
  ghost predicate Rep(t: Tree, parent: int, a: seq<NodeRec>)
  {
    match t
    case Leaf => true
    case Node(l, i, k, r) =>
      0 <= i < |a| && a[i] == NodeRec(k, RootId(l), RootId(r), parent) &&
      Rep(l, i, a) && Rep(r, i, a)
  }

  /** Like `Rep`, but only the key and child links are constrained. */
  ghost predicate RepDown(t: Tree, a: seq<NodeRec>)
  {
    match t
    case Leaf => true
    case Node(l, i, k, r) =>
      0 <= i < |a| && a[i].key == k && a[i].left == RootId(l) && a[i].right == RootId(r) &&
      RepDown(l, a) && RepDown(r, a)
  }

  /** Two arenas hold the same records at every index of `s`. */
  ghost predicate Agree(a: seq<NodeRec>, b: seq<NodeRec>, s: set<int>)
  {
    forall j :: j in s ==> 0 <= j < |a| && 0 <= j < |b| && b[j] == a[j]
  }
}
