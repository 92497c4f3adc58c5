/** The destructor's explicit stack, seen as a forest: each stack entry is
    the root of the part of the tree still hanging below it, and the nodes
    yet to be freed are those trees' post-orders, top of the stack first. */
module Forests {
  import opened Nodes
  import opened Trees
  import opened ArenaFacts

  /** What the destructor has done to the arena `a`, starting from `a0`
      whose tree holds the indices `live`: records keep their length, keys
      and parent links, freed records have both child links clear, and
      records outside the tree are untouched. */
  ghost predicate Cleared(a: seq<NodeRec>, a0: seq<NodeRec>, freed: seq<int>, live: set<int>)
  {
    |a| == |a0| &&
    (forall j :: j in freed ==> 0 <= j < |a| && a[j].left == Nil && a[j].right == Nil) &&
    (forall j :: 0 <= j < |a| ==> a[j].key == a0[j].key && a[j].parent == a0[j].parent) &&
    (forall j :: 0 <= j < |a| && j !in live ==> a[j] == a0[j])
  }

  /** Clearing a child link of a node of the tree keeps `Cleared`. */
  lemma ClearedClear(a: seq<NodeRec>, a0: seq<NodeRec>, freed: seq<int>, live: set<int>, x: int, b: seq<NodeRec>)
    requires Cleared(a, a0, freed, live) && x in live && 0 <= x < |a|
    requires b == a[x := a[x].(left := Nil)] || b == a[x := a[x].(right := Nil)]
    ensures Cleared(b, a0, freed, live)
  {
  }

  /** Freeing a node whose child links are clear keeps `Cleared`. */
  lemma ClearedFree(a: seq<NodeRec>, a0: seq<NodeRec>, freed: seq<int>, live: set<int>, x: int)
    requires Cleared(a, a0, freed, live) && 0 <= x < |a| && a[x].left == Nil && a[x].right == Nil
    ensures Cleared(a, a0, freed + [x], live)
  {
  }

  /** Once every node of the tree is freed, the arena is the original one
      with the tree's child links cleared. */
  lemma ClearedAll(a: seq<NodeRec>, a0: seq<NodeRec>, freed: seq<int>, live: set<int>)
    requires Cleared(a, a0, freed, live) && forall j :: j in live ==> j in freed
    ensures |a| == |a0|
    ensures forall j :: 0 <= j < |a| ==>
              a[j] == if j in live then a0[j].(left := Nil, right := Nil) else a0[j]
  {
  }

  /** Children before their parent: the order in which the destructor
      frees the nodes. */
  ghost function PostOrder(t: Tree): seq<int>
  {
    match t
    case Leaf => []
    case Node(l, i, _, r) => PostOrder(l) + PostOrder(r) + [i]
  }

  /** The indices still to be freed, the tree on top of the stack first. */
  ghost function Pending(ts: seq<Tree>): seq<int>
  {
    if ts == [] then [] else PostOrder(ts[|ts| - 1]) + Pending(ts[..|ts| - 1])
  }

  /** The stack entries are the roots of the trees of `ts`. */
  ghost predicate Rooted(ts: seq<Tree>, stack: seq<int>)
  {
    |ts| == |stack| && forall j :: 0 <= j < |ts| ==> ts[j].Node? && ts[j].id == stack[j]
  }

  /** The arena represents every tree of `ts` through its child links. */
  ghost predicate Represented(ts: seq<Tree>, a: seq<NodeRec>)
  {
    forall j :: 0 <= j < |ts| ==> RepDown(ts[j], a) && Distinct(ts[j])
  }

  /** No index occurs in two trees of `ts`. */
  ghost predicate Disjoint(ts: seq<Tree>)
  {
    forall i, j :: 0 <= i < j < |ts| ==> Ids(ts[i]) !! Ids(ts[j])
  }

  ghost predicate Forest(ts: seq<Tree>, stack: seq<int>, a: seq<NodeRec>)
  {
    Rooted(ts, stack) && Represented(ts, a) && Disjoint(ts)
  }

  /** The forest after the top node's left child is pushed and its left
      link cleared. */
  ghost function PushedLeft(ts: seq<Tree>): seq<Tree>
    requires |ts| > 0 && ts[|ts| - 1].Node?
  {
    var t := ts[|ts| - 1];
    ts[..|ts| - 1] + [Node(Leaf, t.id, t.key, t.right)] + [t.left]
  }

  /** The forest after the top node's right child is pushed and its right
      link cleared; its left link is already clear. */
  ghost function PushedRight(ts: seq<Tree>): seq<Tree>
    requires |ts| > 0 && ts[|ts| - 1].Node?
  {
    var t := ts[|ts| - 1];
    ts[..|ts| - 1] + [Node(Leaf, t.id, t.key, Leaf)] + [t.right]
  }

  /** Every tree of the forest holds a node, so at least one index is
      pending per stack entry. */
  lemma {:induction false} PendingLength(ts: seq<Tree>)
    requires forall j :: 0 <= j < |ts| ==> ts[j].Node?
    ensures |ts| <= |Pending(ts)|
    decreases |ts|
  {
    if ts != [] {
      PendingLength(ts[..|ts| - 1]);
    }
  }

  /** The post-order of a tree lists each of its indices exactly once. */
  lemma PostOrderIds(t: Tree)
    requires Distinct(t)
    ensures forall x :: x in PostOrder(t) <==> x in Ids(t)
    ensures NoDuplicates(PostOrder(t))
  {
    PostOrderMembers(t);
    PostOrderNoDuplicates(t);
  }

  lemma {:induction false} PostOrderMembers(t: Tree)
    ensures forall x :: x in PostOrder(t) <==> x in Ids(t)
  {
    match t
    case Leaf =>
    case Node(l, _, _, r) =>
      PostOrderMembers(l);
      PostOrderMembers(r);
  }

  lemma {:induction false} PostOrderNoDuplicates(t: Tree)
    requires Distinct(t)
    ensures NoDuplicates(PostOrder(t))
  {
    match t
    case Leaf =>
    case Node(l, i, _, r) =>
      PostOrderNoDuplicates(l);
      PostOrderNoDuplicates(r);
      PostOrderMembers(l);
      PostOrderMembers(r);
      NoDuplicatesConcat(PostOrder(l), PostOrder(r), i);
  }

  /** No index occurs twice. */
  ghost predicate NoDuplicates(s: seq<int>)
  {
    forall p, q :: 0 <= p < q < |s| ==> s[p] != s[q]
  }

  lemma NoDuplicatesConcat(u: seq<int>, v: seq<int>, x: int)
    requires NoDuplicates(u) && NoDuplicates(v) && x !in u && x !in v
    requires forall y :: y in u ==> y !in v
    ensures NoDuplicates(u + v + [x])
  {
    var s := u + v + [x];
    forall p, q | 0 <= p < q < |s| ensures s[p] != s[q] {
      if q < |u| {
        assert s[p] == u[p] && s[q] == u[q];
      } else if q < |u| + |v| {
        assert s[q] == v[q - |u|];
        if p >= |u| {
          assert s[p] == v[p - |u|];
        } else {
          assert s[p] == u[p] && s[p] in u && s[q] in v;
        }
      } else {
        assert s[q] == x;
        assert s[p] in u || s[p] in v;
      }
    }
  }

  /** The top node is pending. */
  lemma TopPending(ts: seq<Tree>)
    requires |ts| > 0 && ts[|ts| - 1].Node?
    ensures ts[|ts| - 1].id in Pending(ts)
  {
    var t := ts[|ts| - 1];
    assert PostOrder(t)[|PostOrder(t)| - 1] == t.id;
  }

  lemma SnocLast(ts: seq<Tree>)
    requires |ts| > 0
    ensures ts[..|ts| - 1] + [ts[|ts| - 1]] == ts
  {
  }

  lemma PendingSnoc(ts: seq<Tree>, u: Tree)
    ensures Pending(ts + [u]) == PostOrder(u) + Pending(ts)
  {
    assert (ts + [u])[..|ts|] == ts;
  }

  /** Dropping the top entry keeps a forest. */
  lemma ForestPrefix(ts: seq<Tree>, stack: seq<int>, a: seq<NodeRec>)
    requires Forest(ts, stack, a) && |ts| > 0
    ensures Forest(ts[..|ts| - 1], stack[..|ts| - 1], a)
  {
  }

  /** Pushing a represented tree that shares no index with the forest. */
  lemma ForestExtend(ts: seq<Tree>, stack: seq<int>, a: seq<NodeRec>, u: Tree)
    requires Forest(ts, stack, a)
    requires u.Node? && RepDown(u, a) && Distinct(u)
    requires forall j :: 0 <= j < |ts| ==> Ids(ts[j]) !! Ids(u)
    ensures Forest(ts + [u], stack + [u.id], a)
  {
  }

  /** Changing a record that no tree of the forest holds keeps it represented. */
  lemma RepresentedFrame(ts: seq<Tree>, a: seq<NodeRec>, x: int, b: seq<NodeRec>)
    requires Represented(ts, a) && 0 <= x < |a| && |b| == |a|
    requires forall k :: 0 <= k < |a| && k != x ==> b[k] == a[k]
    requires forall j :: 0 <= j < |ts| ==> x !in Ids(ts[j])
    ensures Represented(ts, b)
  {
    forall j | 0 <= j < |ts| ensures RepDown(ts[j], b) {
      RepDownBounds(ts[j], a);
      RepDownFrame(ts[j], a, b);
    }
  }

  /** A child subtree of the top tree, reached through a link the step
      leaves alone, is still represented after the step. */
  lemma ChildFrame(t: Tree, a: seq<NodeRec>, x: int, b: seq<NodeRec>)
    requires RepDown(t, a) && x !in Ids(t) && |b| == |a|
    requires forall k :: 0 <= k < |a| && k != x ==> b[k] == a[k]
    ensures RepDown(t, b)
  {
    RepDownBounds(t, a);
    RepDownFrame(t, a, b);
  }

  /** Clearing the left link of a tree's root splits it into that left
      subtree and the root with what remains; both are represented, they
      are disjoint and together they keep the post-order. */
  lemma SplitTopLeft(t: Tree, a: seq<NodeRec>, b: seq<NodeRec>)
    requires RepDown(t, a) && Distinct(t) && t.Node? && a[t.id].left != Nil
    requires b == a[t.id := a[t.id].(left := Nil)]
    ensures t.left.Node? && a[t.id].left == t.left.id
    ensures RepDown(t.left, b) && Distinct(t.left)
    ensures RepDown(Node(Leaf, t.id, t.key, t.right), b) && Distinct(Node(Leaf, t.id, t.key, t.right))
    ensures Ids(t.left) !! Ids(Node(Leaf, t.id, t.key, t.right))
    ensures Ids(t.left) <= Ids(t) && Ids(Node(Leaf, t.id, t.key, t.right)) <= Ids(t)
    ensures PostOrder(t.left) + PostOrder(Node(Leaf, t.id, t.key, t.right)) == PostOrder(t)
  {
    RootIdNilDown(t.left, a);
    ChildFrame(t.left, a, t.id, b);
    ChildFrame(t.right, a, t.id, b);
    PostOrderSplitLeft(t);
  }

  /** Detaching the left subtree: its post-order run comes first. */
  lemma PostOrderSplitLeft(t: Tree)
    requires t.Node?
    ensures PostOrder(t.left) + PostOrder(Node(Leaf, t.id, t.key, t.right)) == PostOrder(t)
  {
    assert PostOrder(Node(Leaf, t.id, t.key, t.right)) == PostOrder(t.right) + [t.id];
  }

  lemma SplitTopRight(t: Tree, a: seq<NodeRec>, b: seq<NodeRec>)
    requires RepDown(t, a) && Distinct(t) && t.Node? && a[t.id].left == Nil && a[t.id].right != Nil
    requires b == a[t.id := a[t.id].(right := Nil)]
    ensures t.right.Node? && a[t.id].right == t.right.id
    ensures RepDown(t.right, b) && Distinct(t.right)
    ensures RepDown(Node(Leaf, t.id, t.key, Leaf), b)
    ensures Ids(t.right) !! Ids(Node(Leaf, t.id, t.key, Leaf))
    ensures Ids(t.right) <= Ids(t) && Ids(Node(Leaf, t.id, t.key, Leaf)) <= Ids(t)
    ensures PostOrder(t.right) + PostOrder(Node(Leaf, t.id, t.key, Leaf)) == PostOrder(t)
  {
    RootIdNilDown(t.left, a);
    RootIdNilDown(t.right, a);
    ChildFrame(t.left, a, t.id, b);
    ChildFrame(t.right, a, t.id, b);
    PostOrderSplitRight(t);
  }

  /** Detaching the right subtree of a node without a left one. */
  lemma PostOrderSplitRight(t: Tree)
    requires t.Node? && t.left == Leaf
    ensures PostOrder(t.right) + PostOrder(Node(Leaf, t.id, t.key, Leaf)) == PostOrder(t)
  {
    var r := PostOrder(t.right);
    assert PostOrder(Node(Leaf, t.id, t.key, Leaf)) == [t.id];
    assert PostOrder(t) == [] + r + [t.id];
    assert [] + r == r;
  }

  /** Replacing the top tree by `u` and then `v`, which split it, keeps
      the forest. */
  lemma ForestSplitTop(ts: seq<Tree>, u: Tree, v: Tree, stack: seq<int>, a: seq<NodeRec>, b: seq<NodeRec>)
    requires Forest(ts, stack, a) && |ts| > 0 && |b| == |a|
    requires 0 <= stack[|ts| - 1] < |a| && forall k :: 0 <= k < |a| && k != stack[|ts| - 1] ==> b[k] == a[k]
    requires u.Node? && u.id == stack[|ts| - 1] && v.Node?
    requires RepDown(u, b) && Distinct(u) && RepDown(v, b) && Distinct(v)
    requires Ids(v) !! Ids(u) && Ids(u) <= Ids(ts[|ts| - 1]) && Ids(v) <= Ids(ts[|ts| - 1])
    ensures Forest(ts[..|ts| - 1] + [u] + [v], stack + [v.id], b)
  {
    var n := |ts| - 1;
    ReplaceTop(ts, u, stack, a, b);
    var pu := ts[..n] + [u];
    forall j | 0 <= j < |pu| ensures Ids(pu[j]) !! Ids(v) {
      if j < n {
        assert pu[j] == ts[j] && Ids(ts[j]) !! Ids(ts[n]);
      } else {
        assert pu[j] == u;
      }
    }
    ForestExtend(pu, stack, b, v);
  }

  /** Replacing the top tree by a represented part of it, with the same
      root, keeps the forest; the one record that changed is that root's. */
  lemma ReplaceTop(ts: seq<Tree>, u: Tree, stack: seq<int>, a: seq<NodeRec>, b: seq<NodeRec>)
    requires Forest(ts, stack, a) && |ts| > 0 && |b| == |a|
    requires 0 <= stack[|ts| - 1] < |a| && forall k :: 0 <= k < |a| && k != stack[|ts| - 1] ==> b[k] == a[k]
    requires u.Node? && u.id == stack[|ts| - 1] && RepDown(u, b) && Distinct(u)
    requires Ids(u) <= Ids(ts[|ts| - 1])
    ensures Forest(ts[..|ts| - 1] + [u], stack, b)
  {
    var n := |ts| - 1;
    var pre := ts[..n];
    var t := ts[n];
    ForestPrefix(ts, stack, a);
    forall j | 0 <= j < n ensures t.id !in Ids(pre[j]) {
      assert pre[j] == ts[j] && Ids(ts[j]) !! Ids(t);
    }
    RepresentedFrame(pre, a, t.id, b);
    ForestExtend(pre, stack[..n], b, u);
    assert stack[..n] + [u.id] == stack;
  }

  /** ... and keeps the pending indices. */
  lemma PendingSplit(pre: seq<Tree>, t: Tree, u: Tree, v: Tree)
    requires PostOrder(v) + PostOrder(u) == PostOrder(t)
    ensures Pending(pre + [u] + [v]) == Pending(pre + [t])
  {
    calc {
      Pending(pre + [u] + [v]);
    == { PendingSnoc(pre + [u], v); }
      PostOrder(v) + Pending(pre + [u]);
    == { PendingSnoc(pre, u); }
      PostOrder(v) + (PostOrder(u) + Pending(pre));
    ==
      PostOrder(t) + Pending(pre);
    == { PendingSnoc(pre, t); }
      Pending(pre + [t]);
    }
  }

  /** Clearing the top node's left link and pushing that child keeps the
      forest, the pending indices and their order. */
  lemma PushLeftStep(ts: seq<Tree>, stack: seq<int>, a: seq<NodeRec>, b: seq<NodeRec>)
    requires Forest(ts, stack, a) && |ts| > 0
    requires 0 <= stack[|ts| - 1] < |a| && a[stack[|ts| - 1]].left != Nil
    requires b == a[stack[|ts| - 1] := a[stack[|ts| - 1]].(left := Nil)]
    ensures Forest(PushedLeft(ts), stack + [a[stack[|ts| - 1]].left], b)
    ensures Pending(PushedLeft(ts)) == Pending(ts)
  {
    var n := |ts| - 1;
    var t := ts[n];
    SplitTopLeft(t, a, b);
    ForestSplitTop(ts, Node(Leaf, t.id, t.key, t.right), t.left, stack, a, b);
    PendingSplit(ts[..n], t, Node(Leaf, t.id, t.key, t.right), t.left);
    SnocLast(ts);
  }

  lemma PushRightStep(ts: seq<Tree>, stack: seq<int>, a: seq<NodeRec>, b: seq<NodeRec>)
    requires Forest(ts, stack, a) && |ts| > 0
    requires 0 <= stack[|ts| - 1] < |a| && a[stack[|ts| - 1]].left == Nil && a[stack[|ts| - 1]].right != Nil
    requires b == a[stack[|ts| - 1] := a[stack[|ts| - 1]].(right := Nil)]
    ensures Forest(PushedRight(ts), stack + [a[stack[|ts| - 1]].right], b)
    ensures Pending(PushedRight(ts)) == Pending(ts)
  {
    var n := |ts| - 1;
    var t := ts[n];
    SplitTopRight(t, a, b);
    ForestSplitTop(ts, Node(Leaf, t.id, t.key, Leaf), t.right, stack, a, b);
    PendingSplit(ts[..n], t, Node(Leaf, t.id, t.key, Leaf), t.right);
    SnocLast(ts);
  }

  /** Moving the popped index to the freed list keeps their concatenation. */
  lemma PopPending(freed: seq<int>, pending: seq<int>, rest: seq<int>, x: int)
    requires pending == [x] + rest
    ensures (freed + [x]) + rest == freed + pending
  {
  }

  /** Popping a top node without children frees exactly that node. */
  lemma PopStep(ts: seq<Tree>, stack: seq<int>, a: seq<NodeRec>)
    requires Forest(ts, stack, a) && |ts| > 0
    requires 0 <= stack[|ts| - 1] < |a|
    requires a[stack[|ts| - 1]].left == Nil && a[stack[|ts| - 1]].right == Nil
    ensures Forest(ts[..|ts| - 1], stack[..|ts| - 1], a)
    ensures Pending(ts) == [stack[|ts| - 1]] + Pending(ts[..|ts| - 1])
  {
    var t := ts[|ts| - 1];
    RootIdNilDown(t.left, a);
    RootIdNilDown(t.right, a);
    assert t.left == Leaf && t.right == Leaf && t.id == stack[|ts| - 1];
    assert PostOrder(t) == [t.id];
    ForestPrefix(ts, stack, a);
  }

  /** The destructor's loop invariant, for the tree `t0` held by arena `a0`:
      the stack is a forest over the arena `a`, the freed indices followed
      by the pending ones are the post-order of `t0`, and `a` is `a0` with
      some child links of `t0`'s nodes cleared. */
  ghost predicate DestroyInv(ts: seq<Tree>, stack: seq<int>, a: seq<NodeRec>, freed: seq<int>,
                             a0: seq<NodeRec>, t0: Tree)
  {
    Forest(ts, stack, a) && freed + Pending(ts) == PostOrder(t0) && |ts| <= |Pending(ts)| &&
    Cleared(a, a0, freed, Ids(t0))
  }

  lemma DestroyStart(t0: Tree, a0: seq<NodeRec>)
    requires RepDown(t0, a0) && Distinct(t0) && t0.Node?
    ensures DestroyInv([t0], [t0.id], a0, [], a0, t0)
  {
    assert [t0][..0] == [];
    PendingLength([t0]);
  }

  /** The step that pushes the top node's left child. */
  lemma DestroyPushLeft(ts: seq<Tree>, stack: seq<int>, a: seq<NodeRec>, freed: seq<int>,
                        a0: seq<NodeRec>, t0: Tree, b: seq<NodeRec>)
    requires DestroyInv(ts, stack, a, freed, a0, t0) && Distinct(t0) && |stack| > 0
    requires 0 <= stack[|stack| - 1] < |a| && a[stack[|stack| - 1]].left != Nil
    requires b == a[stack[|stack| - 1] := a[stack[|stack| - 1]].(left := Nil)]
    ensures DestroyInv(PushedLeft(ts), stack + [a[stack[|stack| - 1]].left], b, freed, a0, t0)
    ensures Pending(PushedLeft(ts)) == Pending(ts) && |PushedLeft(ts)| == |ts| + 1
  {
    PushLeftStep(ts, stack, a, b);
    TopPending(ts);
    PostOrderIds(t0);
    ClearedClear(a, a0, freed, Ids(t0), stack[|stack| - 1], b);
    PendingLength(PushedLeft(ts));
  }

  /** The step that pushes the top node's right child. */
  lemma DestroyPushRight(ts: seq<Tree>, stack: seq<int>, a: seq<NodeRec>, freed: seq<int>,
                         a0: seq<NodeRec>, t0: Tree, b: seq<NodeRec>)
    requires DestroyInv(ts, stack, a, freed, a0, t0) && Distinct(t0) && |stack| > 0
    requires 0 <= stack[|stack| - 1] < |a| && a[stack[|stack| - 1]].left == Nil
    requires a[stack[|stack| - 1]].right != Nil
    requires b == a[stack[|stack| - 1] := a[stack[|stack| - 1]].(right := Nil)]
    ensures DestroyInv(PushedRight(ts), stack + [a[stack[|stack| - 1]].right], b, freed, a0, t0)
    ensures Pending(PushedRight(ts)) == Pending(ts) && |PushedRight(ts)| == |ts| + 1
  {
    PushRightStep(ts, stack, a, b);
    TopPending(ts);
    PostOrderIds(t0);
    ClearedClear(a, a0, freed, Ids(t0), stack[|stack| - 1], b);
    PendingLength(PushedRight(ts));
  }

  /** The step that pops and frees a top node without children. */
  lemma DestroyPop(ts: seq<Tree>, stack: seq<int>, a: seq<NodeRec>, freed: seq<int>,
                   a0: seq<NodeRec>, t0: Tree)
    requires DestroyInv(ts, stack, a, freed, a0, t0) && |stack| > 0
    requires 0 <= stack[|stack| - 1] < |a|
    requires a[stack[|stack| - 1]].left == Nil && a[stack[|stack| - 1]].right == Nil
    ensures DestroyInv(ts[..|ts| - 1], stack[..|stack| - 1], a, freed + [stack[|stack| - 1]], a0, t0)
    ensures |Pending(ts[..|ts| - 1])| + 1 == |Pending(ts)|
  {
    PopStep(ts, stack, a);
    PopPending(freed, Pending(ts), Pending(ts[..|ts| - 1]), stack[|stack| - 1]);
    ClearedFree(a, a0, freed, Ids(t0), stack[|stack| - 1]);
    PendingLength(ts[..|ts| - 1]);
  }

  /** With the stack empty, every node of `t0` is freed, in post-order. */
  lemma DestroyEnd(ts: seq<Tree>, stack: seq<int>, a: seq<NodeRec>, freed: seq<int>,
                   a0: seq<NodeRec>, t0: Tree)
    requires DestroyInv(ts, stack, a, freed, a0, t0) && Distinct(t0) && stack == []
    ensures freed == PostOrder(t0) && |a| == |a0|
    ensures forall j :: 0 <= j < |a| ==>
              a[j] == if j in Ids(t0) then a0[j].(left := Nil, right := Nil) else a0[j]
  {
    PostOrderIds(t0);
    ClearedAll(a, a0, freed, Ids(t0));
  }
}
