/** Three places where splay_tree.cc, as written, leaves the records in a
    state that no longer represents the tree it should. Each is modelled
    here as written, next to a lemma that shows the discrepancy; the
    corrected behaviour is what `SplayTrees.SplayTree` implements and
    proves. */
module Findings {
  import opened Nodes
  import opened Trees
  import opened TreeFacts
  import opened ArenaFacts
  import opened Rotations
  import opened SplayTrees

  // ---- The right-right zig-zig step (lines 210-212) ----

  /** `x` is the right child of `p`, itself the right child of `g`: the
      configuration whose splay step lines 210-212 handle. */
  ghost predicate RightRight(t: Tree, a: seq<NodeRec>, x: int)
  {
    Rep(t, Nil, a) && Distinct(t) && x in Ids(t) &&
    0 <= x < |a| && 0 <= a[x].parent < |a| && 0 <= a[a[x].parent].parent < |a| &&
    a[a[x].parent].right == x && a[a[a[x].parent].parent].right == a[x].parent
  }

  /** The step as written begins with rotateRight at the grandparent `g`.
      That rotation either has no left child to lift (rotateRight then
      dereferences a null `up`, and its precondition fails) or it lifts
      some other node and leaves `p` hanging from `g`. The intended first
      rotation, rotateLeft at `g`, is always possible here and lifts `p`
      into `g`'s place. */
  lemma ZigZigRightAsWritten(t: Tree, a: seq<NodeRec>, x: int)
    requires RightRight(t, a, x)
    ensures var p := a[x].parent; var g := a[p].parent;
            !RightShaped(a, g) || RotatedRight(a, g)[p].parent == g
    ensures var p := a[x].parent; var g := a[p].parent;
            LeftShaped(a, g) && RotatedLeft(a, g)[p].parent == a[g].parent
  {
    var p := a[x].parent;
    var g := a[p].parent;
    ParentFacts(t, Nil, a, x);
    ParentFacts(t, Nil, a, p);
    LeftShapedInTree(t, a, g);
    RotatedLeftAtUp(a, g);
    if RightShaped(a, g) {
      NotMovedByRotateRight(t, a, g);
      RotatedRightElsewhere(a, g);
    }
  }

  /** The right child of `g` is none of the records rotateRight at `g`
      rewrites. */
  lemma NotMovedByRotateRight(t: Tree, a: seq<NodeRec>, g: int)
    requires Rep(t, Nil, a) && Distinct(t) && g in Ids(t) && RightShaped(a, g)
    requires 0 <= a[g].right < |a|
    ensures var p := a[g].right;
            p != g && p != a[g].left && p != a[a[g].left].right && p != a[g].parent
  {
    var s := Sub(t, g);
    SubFacts(t, g);
    SubRep(t, Nil, a, g);
    ParentFacts(t, Nil, a, g);
    assert s.left.Node? && s.right.Node? && s.right.id in Ids(s.right);
    assert s.left.right.Node? ==> s.left.right.id in Ids(s.left);
  }

  /** The arena after `SplayTree<int> t({3, 1, 4})` has added 3 and 1 and
      attached 4: splay(4) meets the right-right case at a grandparent
      with no left child, where rotateRight dereferences null. */
  lemma ZigZigRightCounterexample()
    ensures var a := [NodeRec(3, Nil, 2, 1), NodeRec(1, Nil, 0, Nil), NodeRec(4, Nil, Nil, 0)];
            var t := Node(Leaf, 1, 1, Node(Leaf, 0, 3, Node(Leaf, 2, 4, Leaf)));
            RightRight(t, a, 2) && Bst(t) && !RightShaped(a, 1)
  {
    var a := [NodeRec(3, Nil, 2, 1), NodeRec(1, Nil, 0, Nil), NodeRec(4, Nil, Nil, 0)];
    var x := Node(Leaf, 2, 4, Leaf);
    var p := Node(Leaf, 0, 3, x);
    assert Rep(x, 0, a);
    assert Rep(p, 1, a);
    assert Rep(Node(Leaf, 1, 1, p), Nil, a);
  }

  // ---- Removing a childless root (lines 123-133) ----

  /** The childless branch of remove as written: the parent's link to
      `i` is cleared (the right one when it names `i`, else the left) and
      `root` keeps its value. */
  ghost function RemoveLeafAsWritten(a: seq<NodeRec>, root: int, i: int): (r: (seq<NodeRec>, int))
    requires 0 <= i < |a| && (a[i].parent != Nil ==> 0 <= a[i].parent < |a|)
    ensures r.1 == root && |r.0| == |a|
    ensures forall j :: 0 <= j < |a| && j != a[i].parent ==> r.0[j] == a[j]
  {
    var p := a[i].parent;
    if p == Nil then (a, root)
    else if a[p].right == i then (a[p := a[p].(right := Nil)], root)
    else (a[p := a[p].(left := Nil)], root)
  }

  /** For a leaf below the root, the branch as written represents the tree
      with that leaf cut off; but when the leaf is the root itself, `root`
      keeps naming the deleted node while the tree is empty. */
  lemma RemoveLeafAsWrittenDangles(t: Tree, a: seq<NodeRec>, i: int)
    requires Rep(t, Nil, a) && Distinct(t) && Bst(t) && i in Ids(t)
    requires 0 <= i < |a| && a[i].left == Nil && a[i].right == Nil
    ensures a[i].parent != Nil ==> 0 <= a[i].parent < |a|
    ensures var (b, r) := RemoveLeafAsWritten(a, RootId(t), i);
            i != RootId(t) ==> Rep(ReplaceAt(t, i, Leaf), Nil, b) && r == RootId(ReplaceAt(t, i, Leaf))
    ensures var (b, r) := RemoveLeafAsWritten(a, RootId(t), i);
            i == RootId(t) ==> ReplaceAt(t, i, Leaf) == Leaf && r == i && i !in Ids(ReplaceAt(t, i, Leaf))
  {
    ParentFacts(t, Nil, a, i);
    CutLeaf(t, a, i);
    if i != RootId(t) {
      UnlinkLeafRep(t, a, i, RemoveLeafAsWritten(a, RootId(t), i).0);
    }
  }

  /** `SplayTree<int> t(5); t.remove(5);`: the single node is a childless
      root, and the root afterwards still names it. */
  lemma RemoveLeafCounterexample()
    ensures var a := [NodeRec(5, Nil, Nil, Nil)];
            Rep(Node(Leaf, 0, 5, Leaf), Nil, a) && RemoveLeafAsWritten(a, 0, 0) == (a, 0)
  {
  }

  // ---- Joining the two halves after removing the root (lines 148-152) ----

  /** Lines 135-152 as written when the root's left child `lhs` has no
      right child: findMax(lhs) is `lhs` itself, whose parent link was
      just cleared, so splay(newRoot) rotates nothing. Both parent links
      are cleared, `lhs` takes `rhs` as its right child, and `root` keeps
      its value. */
  ghost function RemoveRootAsWritten(a: seq<NodeRec>, root: int): (r: (seq<NodeRec>, int))
    requires 0 <= root < |a| && 0 <= a[root].left < |a| && 0 <= a[root].right < |a|
    ensures r.1 == root && |r.0| == |a|
    ensures forall j :: 0 <= j < |a| ==> r.0[j].key == a[j].key
    ensures forall j :: 0 <= j < |a| && j != a[root].left && j != a[root].right ==> r.0[j] == a[j]
  {
    var lhs := a[root].left;
    var rhs := a[root].right;
    var b := a[rhs := a[rhs].(parent := Nil)];
    var c := b[lhs := b[lhs].(parent := Nil)];
    (c[lhs := c[lhs].(right := rhs)], root)
  }

  /** The tree the join should produce: `lhs` with `rhs` as its right
      subtree. The records as written do not represent it, because the
      right child's parent link stays `Nil`, and `root` still names the
      deleted node, which is not in it. */
  lemma RemoveRootAsWrittenBroken(t: Tree, a: seq<NodeRec>)
    requires Rep(t, Nil, a) && Distinct(t) && t.Node? && t.left.Node? && t.right.Node?
    requires t.left.right == Leaf
    ensures 0 <= t.id < |a| && 0 <= a[t.id].left < |a| && 0 <= a[t.id].right < |a|
    ensures var (b, r) := RemoveRootAsWritten(a, t.id);
            var u := Node(t.left.left, t.left.id, t.left.key, t.right);
            !Rep(u, Nil, b) && b[t.right.id].parent == Nil && r == t.id && r !in Ids(u)
  {
    RepBounds(t, Nil, a);
    assert t.left.id in Ids(t.left) && t.right.id in Ids(t.right);
    assert t.id !in Ids(t.left.left);
  }

  /** `SplayTree<int> t({1, 3, 2}); t.remove(2);`: the adds leave 2 at the
      root with children 1 and 3, and 1 has no right child. */
  lemma RemoveRootCounterexample()
    ensures var a := [NodeRec(1, Nil, Nil, 2), NodeRec(3, Nil, Nil, 2), NodeRec(2, 0, 1, Nil)];
            Rep(Node(Node(Leaf, 0, 1, Leaf), 2, 2, Node(Leaf, 1, 3, Leaf)), Nil, a) &&
            RemoveRootAsWritten(a, 2) == ([NodeRec(1, Nil, 1, Nil), NodeRec(3, Nil, Nil, Nil), NodeRec(2, 0, 1, Nil)], 2)
  {
    var a := [NodeRec(1, Nil, Nil, 2), NodeRec(3, Nil, Nil, 2), NodeRec(2, 0, 1, Nil)];
    var b := RemoveRootAsWritten(a, 2).0;
    var expected := [NodeRec(1, Nil, 1, Nil), NodeRec(3, Nil, Nil, Nil), NodeRec(2, 0, 1, Nil)];
    assert |b| == 3 && b[0] == expected[0] && b[1] == expected[1] && b[2] == expected[2];
    assert b == expected;
  }
}
