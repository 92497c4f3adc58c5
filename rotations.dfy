/** The two rotations on the arena. `RotatedRight` and `RotatedLeft` spell
    out, on records, the sequence of link assignments rotateRight and
    rotateLeft perform; the lemmas show that the result represents the
    rotated abstract tree. */
module Rotations {
  import opened Nodes
  import opened Trees
  import opened TreeFacts
  import opened ArenaFacts

  /** The records rotateRight at `i` touches exist and are pairwise
      distinct: `i`, its left child, that child's right child and `i`'s
      parent, which links to `i` through exactly one child link. */
  ghost predicate RightShaped(a: seq<NodeRec>, i: int)
  {
    0 <= i < |a| && 0 <= a[i].left < |a| && a[i].left != i &&
    (var c := a[a[i].left].right;
     c != Nil ==> 0 <= c < |a| && c != i && c != a[i].left) &&
    (var p := a[i].parent;
     p != Nil ==>
       0 <= p < |a| && p != i && p != a[i].left && p != a[a[i].left].right &&
       (a[p].left == i) != (a[p].right == i))
  }

  ghost predicate LeftShaped(a: seq<NodeRec>, i: int)
  {
    0 <= i < |a| && 0 <= a[i].right < |a| && a[i].right != i &&
    (var c := a[a[i].right].left;
     c != Nil ==> 0 <= c < |a| && c != i && c != a[i].right) &&
    (var p := a[i].parent;
     p != Nil ==>
       0 <= p < |a| && p != i && p != a[i].right && p != a[a[i].right].left &&
       (a[p].left == i) != (a[p].right == i))
  }

  /** rotateRight's assignments, in order, on the arena. */
  ghost function RotatedRight(a: seq<NodeRec>, i: int): (b: seq<NodeRec>)
    requires RightShaped(a, i)
    ensures |b| == |a|
    ensures forall j :: 0 <= j < |a| ==> b[j].key == a[j].key
  {
    var u := a[i].left;
    var c := a[u].right;
    var a1 := a[i := a[i].(left := c)];
    var a2 := if c != Nil then a1[c := a1[c].(parent := i)] else a1;
    var p := a2[i].parent;
    var a3 := a2[u := a2[u].(parent := p)];
    var a4 := if p == Nil then a3
              else if a3[p].left == i then a3[p := a3[p].(left := u)]
              else a3[p := a3[p].(right := u)];
    var a5 := a4[u := a4[u].(right := i)];
    a5[i := a5[i].(parent := u)]
  }

  /** rotateLeft's assignments, in order, on the arena. */
  ghost function RotatedLeft(a: seq<NodeRec>, i: int): (b: seq<NodeRec>)
    requires LeftShaped(a, i)
    ensures |b| == |a|
    ensures forall j :: 0 <= j < |a| ==> b[j].key == a[j].key
  {
    var u := a[i].right;
    var c := a[u].left;
    var a1 := a[i := a[i].(right := c)];
    var a2 := if c != Nil then a1[c := a1[c].(parent := i)] else a1;
    var p := a2[i].parent;
    var a3 := a2[u := a2[u].(parent := p)];
    var a4 := if p == Nil then a3
              else if a3[p].right == i then a3[p := a3[p].(right := u)]
              else a3[p := a3[p].(left := u)];
    var a5 := a4[u := a4[u].(left := i)];
    a5[i := a5[i].(parent := u)]
  }

  // What the assignments do to each record, one record per lemma.

  lemma RotatedRightAtNode(a: seq<NodeRec>, i: int)
    requires RightShaped(a, i)
    ensures |RotatedRight(a, i)| == |a|
    ensures RotatedRight(a, i)[i] == a[i].(left := a[a[i].left].right, parent := a[i].left)
  {
  }

  lemma RotatedRightAtUp(a: seq<NodeRec>, i: int)
    requires RightShaped(a, i)
    ensures RotatedRight(a, i)[a[i].left] == a[a[i].left].(right := i, parent := a[i].parent)
  {
  }

  lemma RotatedRightAtInner(a: seq<NodeRec>, i: int)
    requires RightShaped(a, i) && a[a[i].left].right != Nil
    ensures RotatedRight(a, i)[a[a[i].left].right] == a[a[a[i].left].right].(parent := i)
  {
  }

  lemma RotatedRightAtParent(a: seq<NodeRec>, i: int)
    requires RightShaped(a, i) && a[i].parent != Nil
    ensures RotatedRight(a, i)[a[i].parent] == ReplaceChild(a[a[i].parent], i, a[i].left)
  {
  }

  lemma RotatedRightElsewhere(a: seq<NodeRec>, i: int)
    requires RightShaped(a, i)
    ensures forall j ::
              0 <= j < |a| && j != i && j != a[i].left && j != a[a[i].left].right && j != a[i].parent
              ==> RotatedRight(a, i)[j] == a[j]
  {
  }

  lemma RotatedLeftAtNode(a: seq<NodeRec>, i: int)
    requires LeftShaped(a, i)
    ensures |RotatedLeft(a, i)| == |a|
    ensures RotatedLeft(a, i)[i] == a[i].(right := a[a[i].right].left, parent := a[i].right)
  {
  }

  lemma RotatedLeftAtUp(a: seq<NodeRec>, i: int)
    requires LeftShaped(a, i)
    ensures RotatedLeft(a, i)[a[i].right] == a[a[i].right].(left := i, parent := a[i].parent)
  {
  }

  lemma RotatedLeftAtInner(a: seq<NodeRec>, i: int)
    requires LeftShaped(a, i) && a[a[i].right].left != Nil
    ensures RotatedLeft(a, i)[a[a[i].right].left] == a[a[a[i].right].left].(parent := i)
  {
  }

  lemma RotatedLeftAtParent(a: seq<NodeRec>, i: int)
    requires LeftShaped(a, i) && a[i].parent != Nil
    ensures RotatedLeft(a, i)[a[i].parent] == ReplaceChild(a[a[i].parent], i, a[i].right)
  {
  }

  lemma RotatedLeftElsewhere(a: seq<NodeRec>, i: int)
    requires LeftShaped(a, i)
    ensures forall j ::
              0 <= j < |a| && j != i && j != a[i].right && j != a[a[i].right].left && j != a[i].parent
              ==> RotatedLeft(a, i)[j] == a[j]
  {
  }

  /** What rotateRight does to each record, in one place. */
  lemma RotatedRightRecords(a: seq<NodeRec>, i: int)
    requires RightShaped(a, i)
    ensures var b, up, c, p := RotatedRight(a, i), a[i].left, a[a[i].left].right, a[i].parent;
            |b| == |a| && b[up] == a[up].(right := i, parent := p) &&
            b[i] == a[i].(left := c, parent := up) &&
            (c != Nil ==> b[c] == a[c].(parent := i)) &&
            (p != Nil ==> b[p] == ReplaceChild(a[p], i, up)) &&
            forall j :: 0 <= j < |a| && j != i && j != up && j != c && j != p ==> b[j] == a[j]
  {
    RotatedRightAtNode(a, i);
    RotatedRightAtUp(a, i);
    if a[a[i].left].right != Nil {
      RotatedRightAtInner(a, i);
    }
    if a[i].parent != Nil {
      RotatedRightAtParent(a, i);
    }
    RotatedRightElsewhere(a, i);
  }

  lemma RotatedLeftRecords(a: seq<NodeRec>, i: int)
    requires LeftShaped(a, i)
    ensures var b, up, c, p := RotatedLeft(a, i), a[i].right, a[a[i].right].left, a[i].parent;
            |b| == |a| && b[up] == a[up].(left := i, parent := p) &&
            b[i] == a[i].(right := c, parent := up) &&
            (c != Nil ==> b[c] == a[c].(parent := i)) &&
            (p != Nil ==> b[p] == ReplaceChild(a[p], i, up)) &&
            forall j :: 0 <= j < |a| && j != i && j != up && j != c && j != p ==> b[j] == a[j]
  {
    RotatedLeftAtNode(a, i);
    RotatedLeftAtUp(a, i);
    if a[a[i].right].left != Nil {
      RotatedLeftAtInner(a, i);
    }
    if a[i].parent != Nil {
      RotatedLeftAtParent(a, i);
    }
    RotatedLeftElsewhere(a, i);
  }

  /** In a valid arena, a node with a left child is right-shaped. */
  lemma RightShapedInTree(t: Tree, a: seq<NodeRec>, i: int)
    requires Rep(t, Nil, a) && Distinct(t) && i in Ids(t)
    requires 0 <= i < |a| && a[i].left != Nil
    ensures RightShaped(a, i)
  {
    var s := Sub(t, i);
    SubFacts(t, i);
    SubRep(t, Nil, a, i);
    ParentFacts(t, Nil, a, i);
    RepBounds(t, Nil, a);
    assert Distinct(s.left);
    assert s.left.right.Node? ==> s.left.right.id in Ids(s.left.right);
  }

  lemma LeftShapedInTree(t: Tree, a: seq<NodeRec>, i: int)
    requires Rep(t, Nil, a) && Distinct(t) && i in Ids(t)
    requires 0 <= i < |a| && a[i].right != Nil
    ensures LeftShaped(a, i)
  {
    var s := Sub(t, i);
    SubFacts(t, i);
    SubRep(t, Nil, a, i);
    ParentFacts(t, Nil, a, i);
    RepBounds(t, Nil, a);
    assert Distinct(s.right);
    assert s.right.left.Node? ==> s.right.left.id in Ids(s.right.left);
  }

  /** The records of a subtree after a local right rotation: `b` is `a`
      with the rotated node, its left child and the crossing subtree's
      root relinked, and the other records of `s` untouched. */
  lemma RotateRightLocalRep(s: Tree, pi: int, a: seq<NodeRec>, b: seq<NodeRec>)
    requires s.Node? && s.left.Node? && Distinct(s) && Rep(s, pi, a)
    requires |b| == |a| && 0 <= s.left.id < |a|
    requires s.left.right.Node? ==> 0 <= s.left.right.id < |a|
    requires b[s.id] == a[s.id].(left := RootId(s.left.right), parent := s.left.id)
    requires b[s.left.id] == a[s.left.id].(right := s.id, parent := pi)
    requires s.left.right.Node? ==> b[s.left.right.id] == a[s.left.right.id].(parent := s.id)
    requires Agree(a, b, Ids(s) - {s.id, s.left.id, RootId(s.left.right)})
    ensures Rep(RotateRightNode(s), pi, b)
  {
    var Node(Node(x, u, ku, y), i, k, z) := s;
    assert Distinct(s.left);
    RepBounds(s, pi, a);
    assert y.Node? ==> y.id in Ids(y);
    assert Ids(x) <= Ids(s) - {i, u, RootId(y)};
    assert Ids(z) <= Ids(s) - {i, u, RootId(y)};
    RepFrame(x, u, a, b);
    RepFrame(z, i, a, b);
    if y.Node? {
      assert Distinct(y);
      assert Ids(y) - {y.id} <= Ids(s) - {i, u, RootId(y)};
      RepReparent(y, u, a, i, b);
    }
  }

  lemma RotateLeftLocalRep(s: Tree, pi: int, a: seq<NodeRec>, b: seq<NodeRec>)
    requires s.Node? && s.right.Node? && Distinct(s) && Rep(s, pi, a)
    requires |b| == |a| && 0 <= s.right.id < |a|
    requires s.right.left.Node? ==> 0 <= s.right.left.id < |a|
    requires b[s.id] == a[s.id].(right := RootId(s.right.left), parent := s.right.id)
    requires b[s.right.id] == a[s.right.id].(left := s.id, parent := pi)
    requires s.right.left.Node? ==> b[s.right.left.id] == a[s.right.left.id].(parent := s.id)
    requires Agree(a, b, Ids(s) - {s.id, s.right.id, RootId(s.right.left)})
    ensures Rep(RotateLeftNode(s), pi, b)
  {
    var Node(x, i, k, Node(y, u, ku, z)) := s;
    assert Distinct(s.right);
    RepBounds(s, pi, a);
    assert y.Node? ==> y.id in Ids(y);
    assert Ids(x) <= Ids(s) - {i, u, RootId(y)};
    assert Ids(z) <= Ids(s) - {i, u, RootId(y)};
    RepFrame(x, i, a, b);
    RepFrame(z, u, a, b);
    if y.Node? {
      assert Distinct(y);
      assert Ids(y) - {y.id} <= Ids(s) - {i, u, RootId(y)};
      RepReparent(y, u, a, i, b);
    }
  }

  /** rotateRight at `i` on a valid arena yields a valid arena for the
      rotated tree; records outside the tree and all keys are untouched. */
  lemma RotatedRightRep(t: Tree, a: seq<NodeRec>, i: int)
    requires Rep(t, Nil, a) && Distinct(t) && Bst(t) && i in Ids(t) && RightShaped(a, i)
    ensures var b := RotatedRight(a, i);
            |b| == |a| && Rep(RotateRightAt(t, i), Nil, b) &&
            Distinct(RotateRightAt(t, i)) && Bst(RotateRightAt(t, i))
    ensures Ids(RotateRightAt(t, i)) == Ids(t)
    ensures RootId(RotateRightAt(t, i)) == if a[i].parent == Nil then a[i].left else RootId(t)
    ensures forall j :: 0 <= j < |a| ==> RotatedRight(a, i)[j].key == a[j].key
    ensures forall j :: 0 <= j < |a| && j !in Ids(t) ==> RotatedRight(a, i)[j] == a[j]
  {
    RotatedRightFrame(t, a, i);
    var b := RotatedRight(a, i);
    var s := Sub(t, i);
    RotatedRightAtNode(a, i);
    RotatedRightAtUp(a, i);
    if a[a[i].left].right != Nil {
      RotatedRightAtInner(a, i);
    }
    if a[i].parent != Nil {
      RotatedRightAtParent(a, i);
    }
    RotatedRightElsewhere(a, i);
    SubFacts(t, i);
    SubRep(t, Nil, a, i);
    ParentFacts(t, Nil, a, i);
    RepBounds(t, Nil, a);
    assert s.left.Node? && s.left.id == a[i].left && RootId(s.left.right) == a[a[i].left].right;
    assert s.left.right.Node? ==> s.left.right.id in Ids(s.left.right);
    RotateRightLocalRep(s, a[i].parent, a, b);
    RepReplace(t, Nil, a, b, i, RotateRightNode(s));
    RotateRightAtFacts(t, i);
  }

  lemma RotatedLeftRep(t: Tree, a: seq<NodeRec>, i: int)
    requires Rep(t, Nil, a) && Distinct(t) && Bst(t) && i in Ids(t) && LeftShaped(a, i)
    ensures var b := RotatedLeft(a, i);
            |b| == |a| && Rep(RotateLeftAt(t, i), Nil, b) &&
            Distinct(RotateLeftAt(t, i)) && Bst(RotateLeftAt(t, i))
    ensures Ids(RotateLeftAt(t, i)) == Ids(t)
    ensures RootId(RotateLeftAt(t, i)) == if a[i].parent == Nil then a[i].right else RootId(t)
    ensures forall j :: 0 <= j < |a| ==> RotatedLeft(a, i)[j].key == a[j].key
    ensures forall j :: 0 <= j < |a| && j !in Ids(t) ==> RotatedLeft(a, i)[j] == a[j]
  {
    RotatedLeftFrame(t, a, i);
    var b := RotatedLeft(a, i);
    var s := Sub(t, i);
    RotatedLeftAtNode(a, i);
    RotatedLeftAtUp(a, i);
    if a[a[i].right].left != Nil {
      RotatedLeftAtInner(a, i);
    }
    if a[i].parent != Nil {
      RotatedLeftAtParent(a, i);
    }
    RotatedLeftElsewhere(a, i);
    SubFacts(t, i);
    SubRep(t, Nil, a, i);
    ParentFacts(t, Nil, a, i);
    RepBounds(t, Nil, a);
    assert s.right.Node? && s.right.id == a[i].right && RootId(s.right.left) == a[a[i].right].left;
    assert s.right.left.Node? ==> s.right.left.id in Ids(s.right.left);
    RotateLeftLocalRep(s, a[i].parent, a, b);
    RepReplace(t, Nil, a, b, i, RotateLeftNode(s));
    RotateLeftAtFacts(t, i);
  }

  /** A rotation at `i` keeps every key, and touches only records of the
      tree. */
  lemma RotatedRightFrame(t: Tree, a: seq<NodeRec>, i: int)
    requires Rep(t, Nil, a) && Distinct(t) && i in Ids(t) && RightShaped(a, i)
    ensures forall j :: 0 <= j < |a| ==> RotatedRight(a, i)[j].key == a[j].key
    ensures forall j :: 0 <= j < |a| && j !in Ids(t) ==> RotatedRight(a, i)[j] == a[j]
  {
    RotatedRightAtNode(a, i);
    RotatedRightAtUp(a, i);
    if a[a[i].left].right != Nil {
      RotatedRightAtInner(a, i);
    }
    if a[i].parent != Nil {
      RotatedRightAtParent(a, i);
    }
    RotatedRightElsewhere(a, i);
    LinksClosed(t, Nil, a);
    ParentFacts(t, Nil, a, i);
  }

  /** A rotation at `i` keeps every key, and touches only records of the
      tree. */
  lemma RotatedLeftFrame(t: Tree, a: seq<NodeRec>, i: int)
    requires Rep(t, Nil, a) && Distinct(t) && i in Ids(t) && LeftShaped(a, i)
    ensures forall j :: 0 <= j < |a| ==> RotatedLeft(a, i)[j].key == a[j].key
    ensures forall j :: 0 <= j < |a| && j !in Ids(t) ==> RotatedLeft(a, i)[j] == a[j]
  {
    RotatedLeftAtNode(a, i);
    RotatedLeftAtUp(a, i);
    if a[a[i].right].left != Nil {
      RotatedLeftAtInner(a, i);
    }
    if a[i].parent != Nil {
      RotatedLeftAtParent(a, i);
    }
    RotatedLeftElsewhere(a, i);
    LinksClosed(t, Nil, a);
    ParentFacts(t, Nil, a, i);
  }
}
