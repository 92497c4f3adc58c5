/** Properties of the abstract tree operations: what a subtree replacement,
    a rotation and a leaf insertion do to the node set, the keys, the
    in-order sequence, the search-tree ordering and the depth of a node. */
module TreeFacts {
  import opened Nodes
  import opened Trees

  lemma {:induction false} SubFacts(t: Tree, i: int)
    requires Distinct(t) && i in Ids(t)
    ensures Sub(t, i).Node? && Sub(t, i).id == i
    ensures Ids(Sub(t, i)) <= Ids(t) && KeySet(Sub(t, i)) <= KeySet(t)
    ensures Distinct(Sub(t, i))
    ensures Bst(t) ==> Bst(Sub(t, i))
  {
    match t
    case Node(l, j, _, r) =>
      if j == i {
      } else if i in Ids(l) {
        SubFacts(l, i);
      } else {
        SubFacts(r, i);
      }
  }

  /** The subtree below a node's left child is that child's own subtree. */
  lemma {:induction false} SubLeftChild(t: Tree, i: int)
    requires Distinct(t) && i in Ids(t)
    requires Sub(t, i).Node? && Sub(t, i).left.Node?
    ensures Sub(t, i).left.id in Ids(t)
    ensures Sub(t, Sub(t, i).left.id) == Sub(t, i).left
  {
    SubFacts(t, i);
    match t
    case Node(l, j, _, r) =>
      if j == i {
      } else if i in Ids(l) {
        SubLeftChild(l, i);
      } else {
        SubLeftChild(r, i);
        SubFacts(r, i);
      }
  }

  lemma {:induction false} SubRightChild(t: Tree, i: int)
    requires Distinct(t) && i in Ids(t)
    requires Sub(t, i).Node? && Sub(t, i).right.Node?
    ensures Sub(t, i).right.id in Ids(t)
    ensures Sub(t, Sub(t, i).right.id) == Sub(t, i).right
  {
    SubFacts(t, i);
    match t
    case Node(l, j, _, r) =>
      if j == i {
      } else if i in Ids(l) {
        SubRightChild(l, i);
      } else {
        SubRightChild(r, i);
        SubFacts(r, i);
      }
  }

  /** Replacing the subtree at `i` by `s` swaps exactly that subtree's nodes
      for those of `s`, keeps indices distinct when `s` brings no index
      found elsewhere, and keeps the in-order sequence when `s` has that of
      the replaced subtree. */
  lemma {:induction false} ReplaceIds(t: Tree, i: int, s: Tree)
    requires Distinct(t) && i in Ids(t)
    ensures Ids(ReplaceAt(t, i, s)) == (Ids(t) - Ids(Sub(t, i))) + Ids(s)
  {
    match t
    case Node(l, j, k, r) =>
      if j == i {
      } else if i in Ids(l) {
        SubFacts(l, i);
        ReplaceIds(l, i, s);
      } else {
        SubFacts(r, i);
        ReplaceIds(r, i, s);
      }
  }

  lemma ReplaceRootId(t: Tree, i: int, s: Tree)
    requires Distinct(t) && i in Ids(t)
    ensures RootId(ReplaceAt(t, i, s)) == if i == RootId(t) then RootId(s) else RootId(t)
  {
  }

  lemma {:induction false} ReplaceDistinct(t: Tree, i: int, s: Tree)
    requires Distinct(t) && i in Ids(t)
    requires Distinct(s) && Ids(s) !! (Ids(t) - Ids(Sub(t, i)))
    ensures Distinct(ReplaceAt(t, i, s))
  {
    match t
    case Node(l, j, k, r) =>
      if j == i {
      } else if i in Ids(l) {
        SubFacts(l, i);
        ReplaceIds(l, i, s);
        ReplaceDistinct(l, i, s);
      } else {
        SubFacts(r, i);
        ReplaceIds(r, i, s);
        ReplaceDistinct(r, i, s);
      }
  }

  lemma {:induction false} ReplaceInOrder(t: Tree, i: int, s: Tree)
    requires Distinct(t) && i in Ids(t)
    requires InOrder(s) == InOrder(Sub(t, i))
    ensures InOrder(ReplaceAt(t, i, s)) == InOrder(t)
  {
    match t
    case Node(l, j, k, r) =>
      if j == i {
      } else if i in Ids(l) {
        SubFacts(l, i);
        ReplaceInOrder(l, i, s);
      } else {
        SubFacts(r, i);
        ReplaceInOrder(r, i, s);
      }
  }

  lemma ReplaceFacts(t: Tree, i: int, s: Tree)
    requires Distinct(t) && i in Ids(t)
    ensures Ids(ReplaceAt(t, i, s)) == (Ids(t) - Ids(Sub(t, i))) + Ids(s)
    ensures RootId(ReplaceAt(t, i, s)) == if i == RootId(t) then RootId(s) else RootId(t)
    ensures Distinct(s) && Ids(s) !! (Ids(t) - Ids(Sub(t, i))) ==> Distinct(ReplaceAt(t, i, s))
    ensures InOrder(s) == InOrder(Sub(t, i)) ==> InOrder(ReplaceAt(t, i, s)) == InOrder(t)
  {
    ReplaceIds(t, i, s);
    ReplaceRootId(t, i, s);
    if Distinct(s) && Ids(s) !! (Ids(t) - Ids(Sub(t, i))) {
      ReplaceDistinct(t, i, s);
    }
    if InOrder(s) == InOrder(Sub(t, i)) {
      ReplaceInOrder(t, i, s);
    }
  }

  lemma {:induction false} KeySetReplace(t: Tree, i: int, s: Tree)
    requires Distinct(t) && Bst(t) && i in Ids(t)
    requires KeySet(s) <= KeySet(Sub(t, i))
    ensures KeySet(ReplaceAt(t, i, s)) == KeySet(t) - (KeySet(Sub(t, i)) - KeySet(s))
  {
    match t
    case Node(l, j, k, r) =>
      if j == i {
      } else if i in Ids(l) {
        SubFacts(l, i);
        KeySetReplace(l, i, s);
        var d := KeySet(Sub(t, i)) - KeySet(s);
        assert ReplaceAt(t, i, s) == Node(ReplaceAt(l, i, s), j, k, r);
        assert d <= KeySet(l);
        assert k !in d && d !! KeySet(r) by {
          forall x | x in d ensures x < k && x !in KeySet(r) {
            assert x in KeySet(l);
          }
        }
      } else {
        SubFacts(r, i);
        KeySetReplace(r, i, s);
        var d := KeySet(Sub(t, i)) - KeySet(s);
        assert ReplaceAt(t, i, s) == Node(l, j, k, ReplaceAt(r, i, s));
        assert d <= KeySet(r);
        assert k !in d && d !! KeySet(l) by {
          forall x | x in d ensures k < x && x !in KeySet(l) {
            assert x in KeySet(r);
          }
        }
      }
  }

  lemma {:induction false} BstReplace(t: Tree, i: int, s: Tree)
    requires Distinct(t) && Bst(t) && i in Ids(t)
    requires Bst(s) && KeySet(s) <= KeySet(Sub(t, i))
    ensures Bst(ReplaceAt(t, i, s))
  {
    match t
    case Node(l, j, k, r) =>
      if j == i {
      } else if i in Ids(l) {
        SubFacts(l, i);
        BstReplace(l, i, s);
        KeySetReplace(l, i, s);
        assert ReplaceAt(t, i, s) == Node(ReplaceAt(l, i, s), j, k, r);
        assert KeySet(ReplaceAt(l, i, s)) <= KeySet(l);
      } else {
        SubFacts(r, i);
        BstReplace(r, i, s);
        KeySetReplace(r, i, s);
        assert ReplaceAt(t, i, s) == Node(l, j, k, ReplaceAt(r, i, s));
        assert KeySet(ReplaceAt(r, i, s)) <= KeySet(r);
      }
  }

  /** Replacing a subtree by a search tree over some of its keys keeps the
      search-tree ordering and removes just the keys that were dropped. */
  lemma KeysReplace(t: Tree, i: int, s: Tree)
    requires Distinct(t) && Bst(t) && i in Ids(t)
    requires Bst(s) && KeySet(s) <= KeySet(Sub(t, i))
    ensures Bst(ReplaceAt(t, i, s))
    ensures KeySet(ReplaceAt(t, i, s)) == KeySet(t) - (KeySet(Sub(t, i)) - KeySet(s))
  {
    KeySetReplace(t, i, s);
    BstReplace(t, i, s);
  }

  lemma RotateRightNodeFacts(s: Tree)
    requires s.Node? && s.left.Node?
    ensures Ids(RotateRightNode(s)) == Ids(s) && KeySet(RotateRightNode(s)) == KeySet(s)
    ensures InOrder(RotateRightNode(s)) == InOrder(s)
    ensures Distinct(s) ==> Distinct(RotateRightNode(s))
    ensures Bst(s) ==> Bst(RotateRightNode(s))
  {
    RotateRightNodeSets(s);
    RotateRightNodeInOrder(s);
    if Bst(s) {
      RotateRightNodeOrder(s);
    }
  }

  lemma RotateRightNodeSets(s: Tree)
    requires s.Node? && s.left.Node?
    ensures Ids(RotateRightNode(s)) == Ids(s) && KeySet(RotateRightNode(s)) == KeySet(s)
    ensures Distinct(s) ==> Distinct(RotateRightNode(s))
  {
    var Node(Node(a, u, ku, b), i, k, c) := s;
    var inner := Node(b, i, k, c);
    assert Ids(inner) == Ids(b) + {i} + Ids(c);
    assert Ids(s.left) == Ids(a) + {u} + Ids(b);
    if Distinct(s) {
      assert Distinct(s.left);
      assert Distinct(b);
      assert Distinct(inner);
      assert u !in Ids(inner) && Ids(a) !! Ids(inner);
    }
  }

  lemma RotateRightNodeInOrder(s: Tree)
    requires s.Node? && s.left.Node?
    ensures InOrder(RotateRightNode(s)) == InOrder(s)
  {
    var Node(Node(a, u, ku, b), i, k, c) := s;
    assert InOrder(s) == InOrder(a) + [ku] + (InOrder(b) + [k] + InOrder(c));
  }

  lemma RotateRightNodeOrder(s: Tree)
    requires s.Node? && s.left.Node? && Bst(s)
    ensures Bst(RotateRightNode(s))
  {
    var Node(Node(a, u, ku, b), i, k, c) := s;
    assert ku in KeySet(s.left);
    assert forall x :: x in KeySet(b) ==> x in KeySet(s.left);
    assert Bst(Node(b, i, k, c));
  }

  lemma RotateLeftNodeFacts(s: Tree)
    requires s.Node? && s.right.Node?
    ensures Ids(RotateLeftNode(s)) == Ids(s) && KeySet(RotateLeftNode(s)) == KeySet(s)
    ensures InOrder(RotateLeftNode(s)) == InOrder(s)
    ensures Distinct(s) ==> Distinct(RotateLeftNode(s))
    ensures Bst(s) ==> Bst(RotateLeftNode(s))
  {
    RotateLeftNodeSets(s);
    RotateLeftNodeInOrder(s);
    if Bst(s) {
      RotateLeftNodeOrder(s);
    }
  }

  lemma RotateLeftNodeSets(s: Tree)
    requires s.Node? && s.right.Node?
    ensures Ids(RotateLeftNode(s)) == Ids(s) && KeySet(RotateLeftNode(s)) == KeySet(s)
    ensures Distinct(s) ==> Distinct(RotateLeftNode(s))
  {
    var Node(a, i, k, Node(b, u, ku, c)) := s;
    var inner := Node(a, i, k, b);
    assert Ids(inner) == Ids(a) + {i} + Ids(b);
    assert Ids(s.right) == Ids(b) + {u} + Ids(c);
    if Distinct(s) {
      assert Distinct(s.right);
      assert Distinct(b);
      assert Distinct(inner);
      assert u !in Ids(inner) && Ids(c) !! Ids(inner);
    }
  }

  lemma RotateLeftNodeInOrder(s: Tree)
    requires s.Node? && s.right.Node?
    ensures InOrder(RotateLeftNode(s)) == InOrder(s)
  {
    var Node(a, i, k, Node(b, u, ku, c)) := s;
    assert InOrder(s) == (InOrder(a) + [k] + InOrder(b)) + [ku] + InOrder(c);
  }

  lemma RotateLeftNodeOrder(s: Tree)
    requires s.Node? && s.right.Node? && Bst(s)
    ensures Bst(RotateLeftNode(s))
  {
    var Node(a, i, k, Node(b, u, ku, c)) := s;
    assert ku in KeySet(s.right);
    assert forall x :: x in KeySet(b) ==> x in KeySet(s.right);
    assert Bst(Node(a, i, k, b));
  }

  /** A right rotation at node `i` keeps the node set, the in-order key
      sequence and the search-tree ordering; the rotated-up child becomes
      the root when `i` was the root. */
  lemma RotateRightAtFacts(t: Tree, i: int)
    requires Distinct(t) && i in Ids(t)
    requires Sub(t, i).Node? && Sub(t, i).left.Node?
    ensures Ids(RotateRightAt(t, i)) == Ids(t) && Distinct(RotateRightAt(t, i))
    ensures InOrder(RotateRightAt(t, i)) == InOrder(t)
    ensures KeySet(RotateRightAt(t, i)) == KeySet(t)
    ensures Bst(t) ==> Bst(RotateRightAt(t, i))
    ensures RootId(RotateRightAt(t, i)) == if i == RootId(t) then Sub(t, i).left.id else RootId(t)
  {
    var s := Sub(t, i);
    SubFacts(t, i);
    RotateRightNodeFacts(s);
    ReplaceFacts(t, i, RotateRightNode(s));
    if Bst(t) {
      KeysReplace(t, i, RotateRightNode(s));
    }
    KeysUnchanged(t, i, RotateRightNode(s));
  }

  lemma RotateLeftAtFacts(t: Tree, i: int)
    requires Distinct(t) && i in Ids(t)
    requires Sub(t, i).Node? && Sub(t, i).right.Node?
    ensures Ids(RotateLeftAt(t, i)) == Ids(t) && Distinct(RotateLeftAt(t, i))
    ensures InOrder(RotateLeftAt(t, i)) == InOrder(t)
    ensures KeySet(RotateLeftAt(t, i)) == KeySet(t)
    ensures Bst(t) ==> Bst(RotateLeftAt(t, i))
    ensures RootId(RotateLeftAt(t, i)) == if i == RootId(t) then Sub(t, i).right.id else RootId(t)
  {
    var s := Sub(t, i);
    SubFacts(t, i);
    RotateLeftNodeFacts(s);
    ReplaceFacts(t, i, RotateLeftNode(s));
    if Bst(t) {
      KeysReplace(t, i, RotateLeftNode(s));
    }
    KeysUnchanged(t, i, RotateLeftNode(s));
  }

  /** Replacing a subtree by one with the same keys keeps the key set,
      whatever the ordering. */
  lemma {:induction false} KeysUnchanged(t: Tree, i: int, s: Tree)
    requires Distinct(t) && i in Ids(t) && KeySet(s) == KeySet(Sub(t, i))
    ensures KeySet(ReplaceAt(t, i, s)) == KeySet(t)
  {
    match t
    case Node(l, j, k, r) =>
      if j == i {
      } else if i in Ids(l) {
        KeysUnchanged(l, i, s);
      } else {
        KeysUnchanged(r, i, s);
      }
  }

  lemma {:induction false} DepthSub(t: Tree, i: int, x: int)
    requires Distinct(t) && i in Ids(t)
    requires x in Ids(Sub(t, i))
    ensures x in Ids(t)
    ensures Depth(t, x) == Depth(t, i) + Depth(Sub(t, i), x)
  {
    SubFacts(t, i);
    match t
    case Node(l, j, _, r) =>
      if j == i {
      } else if i in Ids(l) {
        SubFacts(l, i);
        DepthSub(l, i, x);
      } else {
        SubFacts(r, i);
        DepthSub(r, i, x);
      }
  }

  lemma {:induction false} DepthReplace(t: Tree, i: int, s: Tree, x: int)
    requires Distinct(t) && i in Ids(t)
    requires x in Ids(s) && Ids(s) !! (Ids(t) - Ids(Sub(t, i)))
    ensures x in Ids(ReplaceAt(t, i, s))
    ensures Depth(ReplaceAt(t, i, s), x) == Depth(t, i) + Depth(s, x)
  {
    ReplaceFacts(t, i, s);
    match t
    case Node(l, j, k, r) =>
      if j == i {
      } else if i in Ids(l) {
        SubFacts(l, i);
        DepthReplace(l, i, s, x);
      } else {
        SubFacts(r, i);
        DepthReplace(r, i, s, x);
      }
  }

  /** A right rotation at `i` lifts its left child, and everything in that
      child's left subtree, by exactly one level. */
  lemma RotateRightAtLifts(t: Tree, i: int, x: int)
    requires Distinct(t) && i in Ids(t)
    requires Sub(t, i).Node? && Sub(t, i).left.Node?
    requires x == Sub(t, i).left.id || x in Ids(Sub(t, i).left.left)
    ensures x in Ids(t) && x in Ids(RotateRightAt(t, i))
    ensures Depth(RotateRightAt(t, i), x) + 1 == Depth(t, x)
  {
    var s := Sub(t, i);
    SubFacts(t, i);
    RotateRightNodeFacts(s);
    DepthSub(t, i, x);
    DepthReplace(t, i, RotateRightNode(s), x);
  }

  lemma RotateLeftAtLifts(t: Tree, i: int, x: int)
    requires Distinct(t) && i in Ids(t)
    requires Sub(t, i).Node? && Sub(t, i).right.Node?
    requires x == Sub(t, i).right.id || x in Ids(Sub(t, i).right.right)
    ensures x in Ids(t) && x in Ids(RotateLeftAt(t, i))
    ensures Depth(RotateLeftAt(t, i), x) + 1 == Depth(t, x)
  {
    var s := Sub(t, i);
    SubFacts(t, i);
    RotateLeftNodeFacts(s);
    DepthSub(t, i, x);
    DepthReplace(t, i, RotateLeftNode(s), x);
  }

  /** Replacing the subtree at `i` by a node over a new left subtree `x`
      is the same as replacing `i`'s left child by `x`. */
  lemma {:induction false} ReplaceAtLeftChild(t: Tree, i: int, x: Tree)
    requires Distinct(t) && i in Ids(t)
    requires Sub(t, i).Node? && Sub(t, i).left.Node?
    ensures ReplaceAt(t, i, Node(x, i, Sub(t, i).key, Sub(t, i).right))
         == ReplaceAt(t, Sub(t, i).left.id, x)
  {
    SubFacts(t, i);
    match t
    case Node(l, j, k, r) =>
      if j == i {
      } else if i in Ids(l) {
        SubFacts(l, i);
        ReplaceAtLeftChild(l, i, x);
      } else {
        SubFacts(r, i);
        ReplaceAtLeftChild(r, i, x);
      }
  }

  lemma {:induction false} ReplaceAtRightChild(t: Tree, i: int, x: Tree)
    requires Distinct(t) && i in Ids(t)
    requires Sub(t, i).Node? && Sub(t, i).right.Node?
    ensures ReplaceAt(t, i, Node(Sub(t, i).left, i, Sub(t, i).key, x))
         == ReplaceAt(t, Sub(t, i).right.id, x)
  {
    SubFacts(t, i);
    match t
    case Node(l, j, k, r) =>
      if j == i {
      } else if i in Ids(l) {
        SubFacts(l, i);
        ReplaceAtRightChild(l, i, x);
      } else {
        SubFacts(r, i);
        ReplaceAtRightChild(r, i, x);
      }
  }

  /** Insertion keeps the ordering, adds exactly `k` to the keys, and adds
      the new index `n` exactly when `k` was absent. */
  lemma BstInsertFacts(t: Tree, k: int, n: int)
    requires Bst(t)
    ensures Bst(BstInsert(t, k, n))
    ensures KeySet(BstInsert(t, k, n)) == KeySet(t) + {k}
    ensures Ids(BstInsert(t, k, n)) == if k in KeySet(t) then Ids(t) else Ids(t) + {n}
    ensures Distinct(t) && n !in Ids(t) ==> Distinct(BstInsert(t, k, n))
    ensures t.Node? ==> RootId(BstInsert(t, k, n)) == RootId(t)
  {
    InsertKeySet(t, k, n);
    InsertBst(t, k, n);
    InsertIds(t, k, n);
    if Distinct(t) && n !in Ids(t) {
      InsertDistinct(t, k, n);
    }
  }

  lemma {:induction false} InsertKeySet(t: Tree, k: int, n: int)
    ensures KeySet(BstInsert(t, k, n)) == KeySet(t) + {k}
  {
    match t
    case Leaf =>
    case Node(l, j, kk, r) =>
      if kk < k {
        InsertKeySet(r, k, n);
      } else if k < kk {
        InsertKeySet(l, k, n);
      }
  }

  lemma {:induction false} InsertBst(t: Tree, k: int, n: int)
    requires Bst(t)
    ensures Bst(BstInsert(t, k, n))
  {
    match t
    case Leaf =>
    case Node(l, j, kk, r) =>
      if kk < k {
        InsertBst(r, k, n);
        InsertKeySet(r, k, n);
      } else if k < kk {
        InsertBst(l, k, n);
        InsertKeySet(l, k, n);
      }
  }

  lemma {:induction false} InsertIds(t: Tree, k: int, n: int)
    requires Bst(t)
    ensures Ids(BstInsert(t, k, n)) == if k in KeySet(t) then Ids(t) else Ids(t) + {n}
  {
    match t
    case Leaf =>
    case Node(l, j, kk, r) =>
      if kk < k {
        InsertIds(r, k, n);
        assert k !in KeySet(l);
      } else if k < kk {
        InsertIds(l, k, n);
        assert k !in KeySet(r);
      }
  }

  lemma {:induction false} InsertDistinct(t: Tree, k: int, n: int)
    requires Bst(t) && Distinct(t) && n !in Ids(t)
    ensures Distinct(BstInsert(t, k, n))
  {
    match t
    case Leaf =>
    case Node(l, j, kk, r) =>
      if kk < k {
        InsertDistinct(r, k, n);
        InsertIds(r, k, n);
      } else if k < kk {
        InsertDistinct(l, k, n);
        InsertIds(l, k, n);
      }
  }

  /** Lookup finds the node holding `k` exactly when `k` is in the tree. */
  lemma {:induction false} LookupFacts(t: Tree, k: int)
    requires Bst(t) && Distinct(t)
    ensures k !in KeySet(t) ==> Lookup(t, k) == Nil
    ensures k in KeySet(t) ==> Lookup(t, k) in Ids(t)
    ensures k in KeySet(t) ==> Sub(t, Lookup(t, k)).Node? && Sub(t, Lookup(t, k)).key == k
  {
    match t
    case Leaf =>
    case Node(l, j, kk, r) =>
      if kk < k {
        LookupFacts(r, k);
        if k in KeySet(t) {
          assert forall x :: x in KeySet(l) ==> x < kk;
          assert k in KeySet(r);
          SubFacts(r, Lookup(r, k));
        }
      } else if k < kk {
        LookupFacts(l, k);
        if k in KeySet(t) {
          assert forall x :: x in KeySet(r) ==> kk < x;
          assert k in KeySet(l);
          SubFacts(l, Lookup(l, k));
        }
      }
  }

  /** In a search tree with distinct indices the number of nodes, of indices
      and of keys agree: no key is stored twice. */
  lemma SizeIsKeyCount(t: Tree)
    requires Distinct(t) && Bst(t)
    ensures |Ids(t)| == Size(t) && |KeySet(t)| == Size(t)
  {
    IdCount(t);
    KeyCount(t);
  }

  /** Distinct indices: one index per node. */
  lemma {:induction false} IdCount(t: Tree)
    requires Distinct(t)
    ensures |Ids(t)| == Size(t)
  {
    match t
    case Leaf =>
    case Node(l, i, _, r) =>
      IdCount(l);
      IdCount(r);
      assert |Ids(l) + {i}| == |Ids(l)| + 1;
      assert (Ids(l) + {i}) !! Ids(r);
  }

  /** A search tree holds one key per node. */
  lemma {:induction false} KeyCount(t: Tree)
    requires Bst(t)
    ensures |KeySet(t)| == Size(t)
  {
    match t
    case Leaf =>
    case Node(l, _, k, r) =>
      KeyCount(l);
      KeyCount(r);
      assert k !in KeySet(l);
      assert |KeySet(l) + {k}| == |KeySet(l)| + 1;
      assert (KeySet(l) + {k}) !! KeySet(r) by {
        forall x | x in KeySet(l) + {k} ensures x !in KeySet(r) { }
      }
  }

  lemma {:induction false} KeySetIsInOrder(t: Tree)
    ensures forall x :: x in KeySet(t) <==> x in InOrder(t)
  {
    match t
    case Leaf =>
    case Node(l, _, k, r) =>
      KeySetIsInOrder(l);
      KeySetIsInOrder(r);
  }

  /** The search-tree ordering holds exactly when the in-order key sequence
      is strictly increasing. */
  lemma BstIffSorted(t: Tree)
    ensures Bst(t) <==> StrictlySorted(InOrder(t))
  {
    if Bst(t) {
      BstSorted(t);
    }
    if StrictlySorted(InOrder(t)) {
      SortedBst(t);
    }
  }

  lemma {:induction false} BstSorted(t: Tree)
    requires Bst(t)
    ensures StrictlySorted(InOrder(t))
  {
    match t
    case Leaf =>
    case Node(l, _, k, r) =>
      BstSorted(l);
      BstSorted(r);
      KeySetIsInOrder(l);
      KeySetIsInOrder(r);
      var s := InOrder(t);
      var sl, sr := InOrder(l), InOrder(r);
      assert s == sl + [k] + sr;
      forall i, j | 0 <= i < j < |s| ensures s[i] < s[j] {
        if j < |sl| {
        } else if i < |sl| {
          assert s[i] in sl;
          if j > |sl| { assert s[j] == sr[j - |sl| - 1]; assert s[j] in sr; }
        } else if i == |sl| {
          assert s[j] == sr[j - |sl| - 1];
          assert s[j] in sr;
        } else {
          assert s[i] == sr[i - |sl| - 1] && s[j] == sr[j - |sl| - 1];
        }
      }
  }

  lemma {:induction false} SortedBst(t: Tree)
    requires StrictlySorted(InOrder(t))
    ensures Bst(t)
  {
    match t
    case Leaf =>
    case Node(l, _, k, r) =>
      KeySetIsInOrder(l);
      KeySetIsInOrder(r);
      var s := InOrder(t);
      var sl, sr := InOrder(l), InOrder(r);
      assert s == sl + [k] + sr;
      assert StrictlySorted(sl) by {
        forall i, j | 0 <= i < j < |sl| ensures sl[i] < sl[j] { assert s[i] == sl[i] && s[j] == sl[j]; }
      }
      assert StrictlySorted(sr) by {
        forall i, j | 0 <= i < j < |sr| ensures sr[i] < sr[j] {
          assert s[|sl| + 1 + i] == sr[i] && s[|sl| + 1 + j] == sr[j];
        }
      }
      SortedBst(l);
      SortedBst(r);
      forall x | x in KeySet(l) ensures x < k {
        var m :| 0 <= m < |sl| && sl[m] == x;
        assert s[m] == x && s[|sl|] == k;
      }
      forall x | x in KeySet(r) ensures k < x {
        var m :| 0 <= m < |sr| && sr[m] == x;
        assert s[|sl| + 1 + m] == x && s[|sl|] == k;
      }
  }
}
