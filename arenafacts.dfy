/** How the arena of node records relates to the abstract tree it
    represents: which records a subtree depends on, where a node's parent
    link points, and how a local relinking of records realises the
    replacement of a subtree. */
module ArenaFacts {
  import opened Nodes
  import opened Trees
  import opened TreeFacts

  lemma {:induction false} RepBounds(t: Tree, q: int, a: seq<NodeRec>)
    requires Rep(t, q, a)
    ensures forall j :: j in Ids(t) ==> 0 <= j < |a|
  {
    match t
    case Leaf =>
    case Node(l, i, _, r) =>
      RepBounds(l, i, a);
      RepBounds(r, i, a);
  }

  /** A represented tree's root index is `Nil` exactly when it is empty. */
  lemma RootIdNil(t: Tree, q: int, a: seq<NodeRec>)
    requires Rep(t, q, a)
    ensures RootId(t) == Nil <==> t == Leaf
  {
  }

  lemma RootIdNilDown(t: Tree, a: seq<NodeRec>)
    requires RepDown(t, a)
    ensures RootId(t) == Nil <==> t == Leaf
  {
  }

  /** Every link of a represented node names a node of the tree, or is
      `Nil`, or (for the root's parent link) the tree's own parent. */
  lemma {:induction false} LinksClosed(t: Tree, q: int, a: seq<NodeRec>)
    requires Rep(t, q, a)
    ensures forall j :: j in Ids(t) ==>
              0 <= j < |a| && (a[j].left == Nil || a[j].left in Ids(t)) &&
              (a[j].right == Nil || a[j].right in Ids(t)) && (a[j].parent == q || a[j].parent in Ids(t))
  {
    match t
    case Leaf =>
    case Node(l, i, _, r) =>
      LinksClosed(l, i, a);
      LinksClosed(r, i, a);
  }

  /** A non-`Nil` child link of a represented node names the root of the
      matching subtree, and that child's parent link points back. */
  lemma ChildLinks(t: Tree, q: int, a: seq<NodeRec>, p: int)
    requires Rep(t, q, a) && Distinct(t) && p in Ids(t)
    ensures 0 <= p < |a| && Sub(t, p).Node? && Sub(t, p).id == p
    ensures a[p].key == Sub(t, p).key
    ensures a[p].left == RootId(Sub(t, p).left) && a[p].right == RootId(Sub(t, p).right)
    ensures a[p].left != Nil ==>
              Sub(t, p).left.Node? && Sub(t, p).left.id == a[p].left &&
              0 <= a[p].left < |a| && a[a[p].left].parent == p
    ensures a[p].right != Nil ==>
              Sub(t, p).right.Node? && Sub(t, p).right.id == a[p].right &&
              0 <= a[p].right < |a| && a[a[p].right].parent == p
  {
    SubFacts(t, p);
    SubRep(t, q, a, p);
  }

  /** A subtree's representation depends only on the records of its nodes. */
  lemma {:induction false} RepFrame(t: Tree, q: int, a: seq<NodeRec>, b: seq<NodeRec>)
    requires Rep(t, q, a) && Agree(a, b, Ids(t))
    ensures Rep(t, q, b)
  {
    match t
    case Leaf =>
    case Node(l, i, _, r) =>
      RepFrame(l, i, a, b);
      RepFrame(r, i, a, b);
  }

  /** Re-pointing the root's parent link hangs the same subtree elsewhere. */
  lemma RepReparent(t: Tree, q: int, a: seq<NodeRec>, q2: int, b: seq<NodeRec>)
    requires t.Node? && Distinct(t) && Rep(t, q, a)
    requires Agree(a, b, Ids(t) - {t.id})
    requires 0 <= t.id < |b| && b[t.id] == a[t.id].(parent := q2)
    ensures Rep(t, q2, b)
  {
    RepFrame(t.left, t.id, a, b);
    RepFrame(t.right, t.id, a, b);
  }

  lemma {:induction false} SubRep(t: Tree, q: int, a: seq<NodeRec>, i: int)
    requires Rep(t, q, a) && Distinct(t) && i in Ids(t)
    ensures 0 <= i < |a|
    ensures Rep(Sub(t, i), a[i].parent, a)
  {
    RepBounds(t, q, a);
    match t
    case Node(l, j, _, r) =>
      if j == i {
      } else if i in Ids(l) {
        SubRep(l, j, a, i);
      } else {
        SubRep(r, j, a, i);
      }
  }

  /** The root's parent link is the tree's own parent; any other node's
      parent link names a node outside its subtree that has it as a child,
      through exactly one of its two child links. */
  lemma {:induction false} ParentFacts(t: Tree, q: int, a: seq<NodeRec>, i: int)
    requires Rep(t, q, a) && Distinct(t) && i in Ids(t)
    ensures 0 <= i < |a|
    ensures i == RootId(t) ==> a[i].parent == q
    ensures i != RootId(t) ==> a[i].parent in Ids(t) - Ids(Sub(t, i))
    ensures i != RootId(t) ==>
              0 <= a[i].parent < |a| && (a[a[i].parent].left == i) != (a[a[i].parent].right == i)
  {
    RepBounds(t, q, a);
    match t
    case Node(l, j, _, r) =>
      if j == i {
      } else if i in Ids(l) {
        SubFacts(l, i);
        RepBounds(r, j, a);
        if i == RootId(l) {
          assert a[i].parent == j;
        } else {
          ParentFacts(l, j, a, i);
        }
      } else {
        SubFacts(r, i);
        RepBounds(l, j, a);
        if i == RootId(r) {
          assert a[i].parent == j;
        } else {
          ParentFacts(r, j, a, i);
        }
      }
  }

  /** The central relinking lemma. Suppose the arena `b` agrees with `a` on
      every node outside the subtree at `i` except `i`'s parent, whose child
      link to `i` now names the root of `s`, and `b` represents `s` hung
      below that parent. Then `b` represents the whole tree with the
      subtree at `i` replaced by `s`. */
  lemma {:induction false} RepReplace(t: Tree, q: int, a: seq<NodeRec>, b: seq<NodeRec>, i: int, s: Tree)
    requires Rep(t, q, a) && Distinct(t) && i in Ids(t)
    requires 0 <= i < |a|
    requires Rep(s, a[i].parent, b)
    requires Agree(a, b, Ids(t) - Ids(Sub(t, i)) - {a[i].parent})
    requires i != RootId(t) ==>
               0 <= a[i].parent < |a| && 0 <= a[i].parent < |b| &&
               b[a[i].parent] == ReplaceChild(a[a[i].parent], i, RootId(s))
    ensures Rep(ReplaceAt(t, i, s), q, b)
    decreases t, 1
  {
    match t
    case Node(l, j, k, r) =>
      if j == i {
      } else if i in Ids(l) {
        RepReplaceLeft(t, q, a, b, i, s);
      } else {
        RepReplaceRight(t, q, a, b, i, s);
      }
  }

  /** Agreement on a set of records implies agreement on any part of it. */
  lemma AgreeSubset(a: seq<NodeRec>, b: seq<NodeRec>, s: set<int>, s2: set<int>)
    requires Agree(a, b, s) && s2 <= s
    ensures Agree(a, b, s2)
  {
  }

  lemma {:induction false} RepReplaceLeft(t: Tree, q: int, a: seq<NodeRec>, b: seq<NodeRec>, i: int, s: Tree)
    requires Rep(t, q, a) && Distinct(t) && t.Node? && i in Ids(t.left)
    requires 0 <= i < |a|
    requires Rep(s, a[i].parent, b)
    requires Agree(a, b, Ids(t) - Ids(Sub(t, i)) - {a[i].parent})
    requires 0 <= a[i].parent < |a| && 0 <= a[i].parent < |b| &&
      b[a[i].parent] == ReplaceChild(a[a[i].parent], i, RootId(s))
    ensures Rep(ReplaceAt(t, i, s), q, b)
    decreases t, 0
  {
    var Node(l, j, k, r) := t;
    assert i != j;
    var p := a[i].parent;
    SubFacts(l, i);
    ReplaceFacts(l, i, s);
    RepBounds(r, j, a);
    if i == RootId(l) {
      assert p == j;
    } else {
      ParentFacts(l, j, a, i);
    }
    assert Sub(t, i) == Sub(l, i);
    AgreeSubset(a, b, Ids(t) - Ids(Sub(t, i)) - {p}, Ids(l) - Ids(Sub(l, i)) - {p});
    RepReplace(l, j, a, b, i, s);
    assert Agree(a, b, Ids(r));
    RepFrame(r, j, a, b);
    assert ReplaceAt(t, i, s) == Node(ReplaceAt(l, i, s), j, k, r);
  }

  lemma {:induction false} RepReplaceRight(t: Tree, q: int, a: seq<NodeRec>, b: seq<NodeRec>, i: int, s: Tree)
    requires Rep(t, q, a) && Distinct(t) && t.Node? && i in Ids(t.right)
    requires 0 <= i < |a|
    requires Rep(s, a[i].parent, b)
    requires Agree(a, b, Ids(t) - Ids(Sub(t, i)) - {a[i].parent})
    requires 0 <= a[i].parent < |a| && 0 <= a[i].parent < |b| &&
      b[a[i].parent] == ReplaceChild(a[a[i].parent], i, RootId(s))
    ensures Rep(ReplaceAt(t, i, s), q, b)
    decreases t, 0
  {
    var Node(l, j, k, r) := t;
    assert i != j && i !in Ids(l);
    var p := a[i].parent;
    SubFacts(r, i);
    ReplaceFacts(r, i, s);
    RepBounds(l, j, a);
    if i == RootId(r) {
      assert p == j;
    } else {
      ParentFacts(r, j, a, i);
    }
    assert Sub(t, i) == Sub(r, i);
    AgreeSubset(a, b, Ids(t) - Ids(Sub(t, i)) - {p}, Ids(r) - Ids(Sub(r, i)) - {p});
    RepReplace(r, j, a, b, i, s);
    assert Agree(a, b, Ids(l));
    RepFrame(l, j, a, b);
    assert ReplaceAt(t, i, s) == Node(l, j, k, ReplaceAt(r, i, s));
  }

  lemma {:induction false} RepIsRepDown(t: Tree, q: int, a: seq<NodeRec>)
    requires Rep(t, q, a)
    ensures RepDown(t, a)
  {
    match t
    case Leaf =>
    case Node(l, i, _, r) =>
      RepIsRepDown(l, i, a);
      RepIsRepDown(r, i, a);
  }

  lemma {:induction false} RepDownFrame(t: Tree, a: seq<NodeRec>, b: seq<NodeRec>)
    requires RepDown(t, a) && Agree(a, b, Ids(t))
    ensures RepDown(t, b)
  {
    match t
    case Leaf =>
    case Node(l, i, _, r) =>
      RepDownFrame(l, a, b);
      RepDownFrame(r, a, b);
  }

  lemma {:induction false} RepDownBounds(t: Tree, a: seq<NodeRec>)
    requires RepDown(t, a)
    ensures forall j :: j in Ids(t) ==> 0 <= j < |a|
  {
    match t
    case Leaf =>
    case Node(l, i, _, r) =>
      RepDownBounds(l, a);
      RepDownBounds(r, a);
  }
}
