/** The splay tree: an arena of linked node records with a root index.
    The ghost field `T` is the abstract tree the arena represents; `Valid`
    ties them together and states the search-tree ordering. */
module SplayTrees {
  import opened Nodes
  import opened Trees
  import opened TreeFacts
  import opened ArenaFacts
  import opened Rotations
  import opened Forests

  /** Outcome of `Remove`: the new root, or the failure that the source
      signals by throwing. */
  datatype RemoveResult = Removed(newRoot: int) | KeyNotFound

  /** Between arenas `a` and `b`: the same length, every record keeps its
      key, and records outside `live` are unchanged. */
  ghost predicate Untouched(a: seq<NodeRec>, b: seq<NodeRec>, live: set<int>)
  {
    |b| == |a| &&
    (forall j :: 0 <= j < |a| ==> b[j].key == a[j].key) &&
    (forall j :: 0 <= j < |a| && j !in live ==> b[j] == a[j])
  }

  lemma UntouchedTrans(a: seq<NodeRec>, b: seq<NodeRec>, c: seq<NodeRec>, live: set<int>)
    requires Untouched(a, b, live) && Untouched(b, c, live)
    ensures Untouched(a, c, live)
  {
  }

  /** No record of `a` holds a different key in `b`, which may be longer:
      links change, keys never do. */
  ghost predicate KeysKept(a: seq<NodeRec>, b: seq<NodeRec>)
  {
    |a| <= |b| && forall j :: 0 <= j < |a| ==> b[j].key == a[j].key
  }

  lemma KeysKeptTrans(a: seq<NodeRec>, b: seq<NodeRec>, c: seq<NodeRec>)
    requires KeysKept(a, b) && KeysKept(b, c)
    ensures KeysKept(a, c)
  {
  }

  /** Overwriting one record with the same key keeps every key. */
  lemma KeysKeptRelink(a: seq<NodeRec>, j: int, r: NodeRec)
    requires 0 <= j < |a| && r.key == a[j].key
    ensures KeysKept(a, a[j := r])
  {
  }

  /** Rearranging keeps every key. */
  lemma KeysKeptUntouched(a: seq<NodeRec>, b: seq<NodeRec>, live: set<int>)
    requires Untouched(a, b, live)
    ensures KeysKept(a, b)
  {
  }

  /** Appending a new record for `k` below `i` and linking `i` to it keeps
      every old record's key. */
  lemma HungKeys(a: seq<NodeRec>, b: seq<NodeRec>, i: int, k: int)
    requires 0 <= i < |a|
    requires b == (a + [NewNode(k, i)])[i := a[i].(left := |a|)] ||
             b == (a + [NewNode(k, i)])[i := a[i].(right := |a|)]
    ensures |b| == |a| + 1 && b[|a|].key == k && KeysKept(a, b)
  {
  }

  /** Hanging a new record, appended at index `|a|`, as the missing
      left child of node `i` represents the tree with that leaf added. */
  lemma AttachLeftRep(t: Tree, a: seq<NodeRec>, i: int, k: int, b: seq<NodeRec>)
    requires Rep(t, Nil, a) && Distinct(t) && i in Ids(t) && Sub(t, i).Node?
    requires 0 <= i < |a| && a[i].left == Nil
    requires b == (a + [NewNode(k, i)])[i := a[i].(left := |a|)]
    ensures Sub(t, i).left == Leaf
    ensures Rep(ReplaceAt(t, i, Node(Node(Leaf, |a|, k, Leaf), i, Sub(t, i).key, Sub(t, i).right)), Nil, b)
  {
    var s := Sub(t, i);
    var n := |a|;
    ChildLinks(t, Nil, a, i);
    SubRep(t, Nil, a, i);
    RootIdNil(s.left, i, a);
    RepBounds(s.right, i, a);
    SubFacts(t, i);
    assert Agree(a, b, Ids(s.right));
    RepFrame(s.right, i, a, b);
    var s2 := Node(Node(Leaf, n, k, Leaf), i, s.key, s.right);
    assert Rep(s2, a[i].parent, b);
    RepBounds(t, Nil, a);
    ParentFacts(t, Nil, a, i);
    RepReplace(t, Nil, a, b, i, s2);
  }

  /** The mirror image of `AttachLeftRep`. */
  lemma AttachRightRep(t: Tree, a: seq<NodeRec>, i: int, k: int, b: seq<NodeRec>)
    requires Rep(t, Nil, a) && Distinct(t) && i in Ids(t) && Sub(t, i).Node?
    requires 0 <= i < |a| && a[i].right == Nil
    requires b == (a + [NewNode(k, i)])[i := a[i].(right := |a|)]
    ensures Sub(t, i).right == Leaf
    ensures Rep(ReplaceAt(t, i, Node(Sub(t, i).left, i, Sub(t, i).key, Node(Leaf, |a|, k, Leaf))), Nil, b)
  {
    var s := Sub(t, i);
    var n := |a|;
    ChildLinks(t, Nil, a, i);
    SubRep(t, Nil, a, i);
    RootIdNil(s.right, i, a);
    RepBounds(s.left, i, a);
    SubFacts(t, i);
    assert Agree(a, b, Ids(s.left));
    RepFrame(s.left, i, a, b);
    var s2 := Node(s.left, i, s.key, Node(Leaf, n, k, Leaf));
    assert Rep(s2, a[i].parent, b);
    RepBounds(t, Nil, a);
    ParentFacts(t, Nil, a, i);
    RepReplace(t, Nil, a, b, i, s2);
  }

  /** When the search for absent key `k` stops at node `i` with no left
      child, hanging the new record there yields a valid arena for the
      tree with `k` inserted, holding exactly one more node. */
  lemma InsertedLeft(t: Tree, a: seq<NodeRec>, i: int, k: int, b: seq<NodeRec>)
    requires Rep(t, Nil, a) && Distinct(t) && Bst(t) && i in Ids(t) && Sub(t, i).Node?
    requires forall j :: j in Ids(t) ==> 0 <= j < |a|
    requires 0 <= i < |a| && a[i].left == Nil && k < a[i].key
    requires BstInsert(t, k, |a|) == ReplaceAt(t, i, BstInsert(Sub(t, i), k, |a|))
    requires b == (a + [NewNode(k, i)])[i := a[i].(left := |a|)]
    ensures Rep(BstInsert(t, k, |a|), Nil, b) && Distinct(BstInsert(t, k, |a|)) && Bst(BstInsert(t, k, |a|))
    ensures RootId(BstInsert(t, k, |a|)) == RootId(t)
    ensures k !in KeySet(t) && KeySet(BstInsert(t, k, |a|)) == KeySet(t) + {k}
    ensures Ids(BstInsert(t, k, |a|)) == Ids(t) + {|a|}
  {
    AttachLeftRep(t, a, i, k, b);
    ChildLinks(t, Nil, a, i);
    ReplaceFacts(t, i, BstInsert(Sub(t, i), k, |a|));
    BstInsertFacts(t, k, |a|);
  }

  lemma InsertedRight(t: Tree, a: seq<NodeRec>, i: int, k: int, b: seq<NodeRec>)
    requires Rep(t, Nil, a) && Distinct(t) && Bst(t) && i in Ids(t) && Sub(t, i).Node?
    requires forall j :: j in Ids(t) ==> 0 <= j < |a|
    requires 0 <= i < |a| && a[i].right == Nil && a[i].key < k
    requires BstInsert(t, k, |a|) == ReplaceAt(t, i, BstInsert(Sub(t, i), k, |a|))
    requires b == (a + [NewNode(k, i)])[i := a[i].(right := |a|)]
    ensures Rep(BstInsert(t, k, |a|), Nil, b) && Distinct(BstInsert(t, k, |a|)) && Bst(BstInsert(t, k, |a|))
    ensures RootId(BstInsert(t, k, |a|)) == RootId(t)
    ensures k !in KeySet(t) && KeySet(BstInsert(t, k, |a|)) == KeySet(t) + {k}
    ensures Ids(BstInsert(t, k, |a|)) == Ids(t) + {|a|}
  {
    AttachRightRep(t, a, i, k, b);
    ChildLinks(t, Nil, a, i);
    ReplaceFacts(t, i, BstInsert(Sub(t, i), k, |a|));
    BstInsertFacts(t, k, |a|);
  }

  /** Cutting off a childless node removes exactly its index and its key
      and keeps a search tree; the tree becomes empty when it is the root. */
  lemma CutLeaf(t: Tree, a: seq<NodeRec>, i: int)
    requires Rep(t, Nil, a) && Distinct(t) && Bst(t) && i in Ids(t)
    requires 0 <= i < |a| && a[i].left == Nil && a[i].right == Nil
    ensures Distinct(ReplaceAt(t, i, Leaf)) && Bst(ReplaceAt(t, i, Leaf))
    ensures Ids(ReplaceAt(t, i, Leaf)) == Ids(t) - {i}
    ensures KeySet(ReplaceAt(t, i, Leaf)) == KeySet(t) - {a[i].key}
    ensures RootId(ReplaceAt(t, i, Leaf)) == if i == RootId(t) then Nil else RootId(t)
  {
    ChildLinks(t, Nil, a, i);
    SubRep(t, Nil, a, i);
    RootIdNil(Sub(t, i).left, i, a);
    RootIdNil(Sub(t, i).right, i, a);
    ReplaceFacts(t, i, Leaf);
    KeysReplace(t, i, Leaf);
  }

  /** Clearing the parent's link to a childless non-root node (the right
      link when it is that one, else the left) represents the tree with
      that node cut off. */
  lemma UnlinkLeafRep(t: Tree, a: seq<NodeRec>, i: int, b: seq<NodeRec>)
    requires Rep(t, Nil, a) && Distinct(t) && i in Ids(t)
    requires 0 <= i < |a| && a[i].left == Nil && a[i].right == Nil
    requires a[i].parent != Nil && 0 <= a[i].parent < |a|
    requires b == if a[a[i].parent].right == i then a[a[i].parent := a[a[i].parent].(right := Nil)]
                  else a[a[i].parent := a[a[i].parent].(left := Nil)]
    ensures Rep(ReplaceAt(t, i, Leaf), Nil, b)
  {
    ParentFacts(t, Nil, a, i);
    SubFacts(t, i);
    RepBounds(t, Nil, a);
    RepReplace(t, Nil, a, b, i, Leaf);
  }

  /** Clearing the parent links of both children of the root leaves two
      separate trees, each hanging from `Nil`. */
  lemma DetachRep(t: Tree, a: seq<NodeRec>, b: seq<NodeRec>)
    requires Rep(t, Nil, a) && Distinct(t) && t.Node? && t.left.Node? && t.right.Node?
    requires 0 <= t.left.id < |a| && 0 <= t.right.id < |a|
    requires b == a[t.right.id := a[t.right.id].(parent := Nil)][t.left.id := a[t.left.id].(parent := Nil)]
    ensures Rep(t.left, Nil, b) && Rep(t.right, Nil, b)
  {
    RepBounds(t.left, t.id, a);
    RepBounds(t.right, t.id, a);
    assert Agree(a, b, Ids(t.left) - {t.left.id});
    assert Agree(a, b, Ids(t.right) - {t.right.id});
    RepReparent(t.left, t.id, a, Nil, b);
    RepReparent(t.right, t.id, a, Nil, b);
  }

  /** A search tree whose root holds its largest key has no right subtree. */
  lemma MaxHasNoRight(t: Tree)
    requires Bst(t) && t.Node?
    requires forall x :: x in KeySet(t) ==> x <= t.key
    ensures t.right == Leaf
  {
    if t.right.Node? {
      assert t.right.key in KeySet(t);
    }
  }

  /** Hanging tree `r` as the right subtree of the root of `t`, which has
      none, links both records and represents the joined tree. */
  lemma JoinRep(t: Tree, r: Tree, a: seq<NodeRec>, b: seq<NodeRec>)
    requires Rep(t, Nil, a) && Distinct(t) && t.Node? && t.right == Leaf
    requires Rep(r, Nil, a) && Distinct(r) && r.Node? && Ids(t) !! Ids(r)
    requires b == a[t.id := a[t.id].(right := r.id)][r.id := a[r.id].(parent := t.id)]
    ensures Rep(Node(t.left, t.id, t.key, r), Nil, b)
  {
    RepBounds(t, Nil, a);
    RepBounds(r, Nil, a);
    assert Agree(a, b, Ids(t.left));
    RepFrame(t.left, t.id, a, b);
    assert Agree(a, b, Ids(r) - {r.id});
    RepReparent(r, Nil, a, t.id, b);
  }

  /** Clearing the parent link of a subtree's root makes it a tree of its own. */
  lemma LiftRep(s: Tree, q: int, a: seq<NodeRec>, b: seq<NodeRec>)
    requires Rep(s, q, a) && Distinct(s) && s.Node? && 0 <= s.id < |a|
    requires b == a[s.id := a[s.id].(parent := Nil)]
    ensures Rep(s, Nil, b)
  {
    RepBounds(s, q, a);
    assert Agree(a, b, Ids(s) - {s.id});
    RepReparent(s, q, a, Nil, b);
  }

  /** Joining a search tree whose root has no right subtree with a search
      tree of larger keys, as that right subtree, keeps a search tree over
      the union of the nodes and the keys. */
  lemma JoinFacts(t: Tree, r: Tree)
    requires Distinct(t) && Bst(t) && t.Node? && t.right == Leaf
    requires Distinct(r) && Bst(r) && Ids(t) !! Ids(r)
    requires forall x, y :: x in KeySet(t) && y in KeySet(r) ==> x < y
    ensures Distinct(Node(t.left, t.id, t.key, r)) && Bst(Node(t.left, t.id, t.key, r))
    ensures Ids(Node(t.left, t.id, t.key, r)) == Ids(t) + Ids(r)
    ensures KeySet(Node(t.left, t.id, t.key, r)) == KeySet(t) + KeySet(r)
  {
    assert t.key in KeySet(t);
  }

  /** The two subtrees of a search tree's root: disjoint search trees that
      together hold every node and key but the root's, the left one's keys
      all below the right one's. */
  lemma SplitRoot(t: Tree)
    requires Distinct(t) && Bst(t) && t.Node?
    ensures Distinct(t.left) && Bst(t.left) && Distinct(t.right) && Bst(t.right)
    ensures Ids(t.left) !! Ids(t.right)
    ensures Ids(t.left) + Ids(t.right) == Ids(t) - {t.id}
    ensures KeySet(t.left) + KeySet(t.right) == KeySet(t) - {t.key}
    ensures forall x, y :: x in KeySet(t.left) && y in KeySet(t.right) ==> x < y
  {
  }

  /** Adding key `k` either leaves the nodes as they are (when `k` was
      present) or appends one: a tree that holds every record, one per
      key, keeps doing so. */
  lemma CompactGrow(ids: set<int>, n: int, ks: set<int>, ids2: set<int>, n2: int, ks2: set<int>, k: int)
    requires n >= 0 && (forall j :: j in ids <==> 0 <= j < n) && n == |ks|
    requires ks2 == ks + {k}
    requires k in ks ==> ids2 == ids && n2 == n
    requires k !in ks ==> ids2 == ids + {n} && n2 == n + 1
    ensures (forall j :: j in ids2 <==> 0 <= j < n2) && n2 == |ks2|
  {
  }

  /** The one-node tree every constructor starts from: record 0 holds the
      key and no links. */
  lemma SingleNode(k: int)
    ensures var t, a := Node(Leaf, 0, k, Leaf), [NewNode(k, Nil)];
            Rep(t, Nil, a) && Distinct(t) && Bst(t) && RootId(t) == 0 &&
            Ids(t) == {0} && KeySet(t) == {k} && |KeySet(t)| == |a|
  {
  }

  /** The keys of a sequence, as a set. */
  ghost function Elements(keys: seq<int>): set<int>
  {
    set x | x in keys
  }

  lemma ElementsSnoc(keys: seq<int>, i: int)
    requires 0 <= i < |keys|
    ensures Elements(keys[..i + 1]) == Elements(keys[..i]) + {keys[i]}
  {
    assert keys[..i + 1] == keys[..i] + [keys[i]];
  }

  lemma UnionStep(ks: set<int>, e: set<int>, e2: set<int>, x: int)
    requires e2 == e + {x}
    ensures ks + e + {x} == ks + e2
  {
  }

  lemma ElementsAll(keys: seq<int>)
    ensures Elements(keys[..|keys|]) == Elements(keys)
  {
    assert keys[..|keys|] == keys;
  }

  lemma ElementsCons(keys: seq<int>)
    requires |keys| > 0
    ensures Elements(keys) == {keys[0]} + Elements(keys[1..])
  {
    assert keys == [keys[0]] + keys[1..];
  }

  /** The vector the demonstration program builds from has six distinct
      keys, so `FromVector` on it keeps six records. */
  lemma DemoVectorKeys()
    ensures Elements([0, 1, 2, 98, 99, 7, 2, 0]) == {0, 1, 2, 7, 98, 99}
    ensures |Elements([0, 1, 2, 98, 99, 7, 2, 0])| == 6
  {
    var e := Elements([0, 1, 2, 98, 99, 7, 2, 0]);
    assert forall x :: x in e <==> x in {0, 1, 2, 7, 98, 99};
    assert e == {0, 1, 2, 7, 98, 99};
  }

  class SplayTree {
    var nodes: seq<NodeRec>
    var root: int
    /** The abstract tree hanging from `root`. Records not in `T` are freed. */
    ghost var T: Tree

    ghost predicate Valid()
      reads this
    {
      Rep(T, Nil, nodes) && Distinct(T) && Bst(T) && root == RootId(T) &&
      (forall j :: j in Ids(T) ==> 0 <= j < |nodes|)
    }

    /** Since the pre-state, the tree has only been rearranged: it is still
        valid, holds the same nodes, keys and in-order key sequence, no
        record changed its key and records outside the tree are untouched. */
    twostate predicate Rearranged()
      reads this
    {
      Valid() && Ids(T) == old(Ids(T)) && KeySet(T) == old(KeySet(T)) && InOrder(T) == old(InOrder(T)) &&
      Untouched(old(nodes), nodes, Ids(T))
    }

    /** A tree holding the single key `key`. */
    constructor (key: int)
      ensures Valid() && KeySet(T) == {key} && Ids(T) == {0} && root == 0
    {
      nodes := [NewNode(key, Nil)];
      root := 0;
      T := Node(Leaf, 0, key, Leaf);
    }

    /** The default tree: the single key 0. */
    constructor Default()
      ensures Valid() && KeySet(T) == {0} && Ids(T) == {0} && root == 0
    {
      nodes := [NewNode(0, Nil)];
      root := 0;
      T := Node(Leaf, 0, 0, Leaf);
    }

    /** Every record of the arena belongs to the tree: nothing has been
        unlinked yet. */
    ghost predicate Compact()
      reads this
    {
      forall j :: j in Ids(T) <==> 0 <= j < |nodes|
    }

    /** A valid, non-empty tree that holds every record, one per key: what
        the sequence constructors keep while they add keys. */
    ghost predicate Packed()
      reads this
    {
      Valid() && root != Nil && Compact() && |nodes| == |KeySet(T)|
    }

    /** The tree built from a non-empty array: its first key becomes the
        root, the others are added in order. */
    constructor FromArray(a: array<int>)
      requires a.Length > 0
      ensures Packed() && KeySet(T) == Elements(a[..])
    {
      nodes := [NewNode(a[0], Nil)];
      root := 0;
      T := Node(Leaf, 0, a[0], Leaf);
      new;
      SingleNode(a[0]);
      AddAll(a[1..]);
      ElementsCons(a[..]);
    }

    /** The tree built from a non-empty vector, as `FromArray`. */
    constructor FromVector(keys: seq<int>)
      requires |keys| > 0
      ensures Packed() && KeySet(T) == Elements(keys)
    {
      nodes := [NewNode(keys[0], Nil)];
      root := 0;
      T := Node(Leaf, 0, keys[0], Leaf);
      new;
      SingleNode(keys[0]);
      AddAll(keys[1..]);
      ElementsCons(keys);
    }

    /** One step of the sequence constructors: add adds the key and
        creates a node only when the key is new. */
    method AddOne(k: int)
      requires Packed()
      modifies this
      ensures Packed() && KeySet(T) == old(KeySet(T)) + {k}
    {
      ghost var ids, n, ks := Ids(T), |nodes|, KeySet(T);
      var _ := Add(k);
      CompactGrow(ids, n, ks, Ids(T), |nodes|, KeySet(T), k);
    }

    /** Adds the keys one after another, as both sequence constructors do;
        a key already present creates no node. */
    method AddAll(keys: seq<int>)
      requires Packed()
      modifies this
      ensures Packed() && KeySet(T) == old(KeySet(T)) + Elements(keys)
    {
      ghost var ks := KeySet(T);
      var i := 0;
      while i < |keys|
        invariant 0 <= i <= |keys| && Packed()
        invariant KeySet(T) == ks + Elements(keys[..i])
      {
        AddOne(keys[i]);
        ElementsSnoc(keys, i);
        UnionStep(ks, Elements(keys[..i]), Elements(keys[..i + 1]), keys[i]);
        i := i + 1;
      }
      ElementsAll(keys);
    }

    /** The link assignments of rotateRight, in the source's order. */
    method RelinkRight(i: int) returns (up: int)
      requires RightShaped(nodes, i)
      modifies this
      ensures nodes == RotatedRight(old(nodes), i) && T == old(T)
      ensures up == old(nodes)[i].left
      ensures root == if old(nodes)[i].parent == Nil then up else old(root)
    {
      ghost var a := nodes;
      var ns := nodes;
      up := ns[i].left;
      var b := ns[up].right;
      ns := ns[i := ns[i].(left := b)];
      if b != Nil {
        ns := ns[b := ns[b].(parent := i)];
      }
      var pi := ns[i].parent;
      ns := ns[up := ns[up].(parent := pi)];
      if pi != Nil {
        if ns[pi].left == i {
          ns := ns[pi := ns[pi].(left := up)];
        } else {
          ns := ns[pi := ns[pi].(right := up)];
        }
      } else {
        root := up;
      }
      ns := ns[up := ns[up].(right := i)];
      ns := ns[i := ns[i].(parent := up)];
      assert ns == RotatedRight(a, i);
      nodes := ns;
    }

    /** rotateRight: the left child `up` of node `i` takes `i`'s place, `i`
        becomes `up`'s right child and `up`'s former right subtree moves
        under `i` as its left subtree. */
    method RotateRight(i: int) returns (up: int)
      requires Valid() && i in Ids(T) && nodes[i].left != Nil
      modifies this
      ensures Rearranged() && T == RotateRightAt(old(T), i)
      ensures up == old(nodes)[i].left && 0 <= up < |nodes|
      ensures nodes[up] == old(nodes)[up].(right := i, parent := old(nodes)[i].parent)
      ensures nodes[i] == old(nodes)[i].(left := old(nodes)[up].right, parent := up)
      ensures var c := old(nodes)[up].right;
              c != Nil ==> 0 <= c < |nodes| && nodes[c] == old(nodes)[c].(parent := i)
      ensures root == if old(nodes)[i].parent == Nil then up else old(root)
      ensures var p := old(nodes)[i].parent;
              p != Nil ==> 0 <= p < |nodes| && nodes[p] == ReplaceChild(old(nodes)[p], i, up)
      ensures forall j ::
                0 <= j < |nodes| && j != i && j != up && j != old(nodes)[up].right && j != old(nodes)[i].parent
                ==> nodes[j] == old(nodes)[j]
    {
      ghost var a := nodes;
      RightShapedInTree(T, nodes, i);
      up := RelinkRight(i);
      ghost var pi := a[i].parent;
      RotatedRightRep(T, a, i);
      RotatedRightRecords(a, i);
      SubFacts(T, i);
      SubRep(T, Nil, a, i);
      RotateRightAtFacts(T, i);
      T := RotateRightAt(T, i);
    }

    /** The link assignments of rotateLeft, in the source's order. */
    method RelinkLeft(i: int) returns (up: int)
      requires LeftShaped(nodes, i)
      modifies this
      ensures nodes == RotatedLeft(old(nodes), i) && T == old(T)
      ensures up == old(nodes)[i].right
      ensures root == if old(nodes)[i].parent == Nil then up else old(root)
    {
      ghost var a := nodes;
      var ns := nodes;
      up := ns[i].right;
      var b := ns[up].left;
      ns := ns[i := ns[i].(right := b)];
      if b != Nil {
        ns := ns[b := ns[b].(parent := i)];
      }
      var pi := ns[i].parent;
      ns := ns[up := ns[up].(parent := pi)];
      if pi != Nil {
        if ns[pi].right == i {
          ns := ns[pi := ns[pi].(right := up)];
        } else {
          ns := ns[pi := ns[pi].(left := up)];
        }
      } else {
        root := up;
      }
      ns := ns[up := ns[up].(left := i)];
      ns := ns[i := ns[i].(parent := up)];
      assert ns == RotatedLeft(a, i);
      nodes := ns;
    }

    /** rotateLeft: the mirror image of `RotateRight`. */
    method RotateLeft(i: int) returns (up: int)
      requires Valid() && i in Ids(T) && nodes[i].right != Nil
      modifies this
      ensures Rearranged() && T == RotateLeftAt(old(T), i)
      ensures up == old(nodes)[i].right && 0 <= up < |nodes|
      ensures nodes[up] == old(nodes)[up].(left := i, parent := old(nodes)[i].parent)
      ensures nodes[i] == old(nodes)[i].(right := old(nodes)[up].left, parent := up)
      ensures var c := old(nodes)[up].left;
              c != Nil ==> 0 <= c < |nodes| && nodes[c] == old(nodes)[c].(parent := i)
      ensures root == if old(nodes)[i].parent == Nil then up else old(root)
      ensures var p := old(nodes)[i].parent;
              p != Nil ==> 0 <= p < |nodes| && nodes[p] == ReplaceChild(old(nodes)[p], i, up)
      ensures forall j ::
                0 <= j < |nodes| && j != i && j != up && j != old(nodes)[up].left && j != old(nodes)[i].parent
                ==> nodes[j] == old(nodes)[j]
    {
      ghost var a := nodes;
      LeftShapedInTree(T, nodes, i);
      up := RelinkLeft(i);
      ghost var pi := a[i].parent;
      RotatedLeftRep(T, a, i);
      RotatedLeftRecords(a, i);
      SubFacts(T, i);
      SubRep(T, Nil, a, i);
      RotateLeftAtFacts(T, i);
      T := RotateLeftAt(T, i);
    }


    /** splay: rotates node `x` up until it is the root, by zig-zig and
        zig-zag double rotations and a final single zig when its parent is
        the root. */
    method Splay(x: int)
      requires Valid() && x in Ids(T)
      modifies this
      ensures Rearranged() && root == x && 0 <= x < |nodes| && nodes[x].parent == Nil
      ensures old(nodes)[x].parent == Nil ==> nodes == old(nodes) && T == old(T)
    {
      var node := x;
      while nodes[node].parent != Nil
        invariant Rearranged() && node == x && x in Ids(T)
        invariant old(nodes)[x].parent == Nil ==> nodes == old(nodes) && T == old(T)
        decreases Depth(T, x)
      {
        assert old(nodes)[x].parent != Nil;
        LinksClosed(T, Nil, nodes);
        var p := nodes[node].parent;
        if nodes[p].parent == Nil {
          ghost var mid := nodes;
          node := Zig(node);
          UntouchedTrans(old(nodes), mid, nodes, Ids(T));
          break;
        }
        var g := nodes[p].parent;
        if nodes[p].left == node {
          if nodes[g].left == p {
            ghost var mid := nodes;
            node := ZigZigLeft(node);
            UntouchedTrans(old(nodes), mid, nodes, Ids(T));
          } else {
            ghost var mid := nodes;
            node := ZigZagLeft(node);
            UntouchedTrans(old(nodes), mid, nodes, Ids(T));
          }
          continue;
        }
        if nodes[g].right == p {
          ghost var mid := nodes;
          node := ZigZigRight(node);
          UntouchedTrans(old(nodes), mid, nodes, Ids(T));
        } else {
          ghost var mid := nodes;
          node := ZigZagRight(node);
          UntouchedTrans(old(nodes), mid, nodes, Ids(T));
        }
      }
      ParentFacts(T, Nil, nodes, x);
    }

    /** zig: the parent of `x` is the root; one rotation makes `x` the root. */
    method Zig(x: int) returns (n: int)
      requires Valid() && x in Ids(T)
      requires var p := nodes[x].parent; p != Nil && 0 <= p < |nodes| && nodes[p].parent == Nil
      modifies this
      ensures Rearranged() && n == x && x in Ids(T) && nodes[x].parent == Nil
    {
      var p := nodes[x].parent;
      ParentFacts(T, Nil, nodes, x);
      ChildLinks(T, Nil, nodes, p);
      if nodes[p].left == x {
        n := RotateRight(p);
      } else {
        n := RotateLeft(p);
      }
    }

    /** zig-zig: `x` is the left child of a left child; two right rotations, first at the grandparent. */
    method ZigZigLeft(x: int) returns (n: int)
      requires Valid() && x in Ids(T)
      requires var p := nodes[x].parent;
               p != Nil && 0 <= p < |nodes| && nodes[p].left == x &&
               (var g := nodes[p].parent; g != Nil && 0 <= g < |nodes| && nodes[g].left == p)
      modifies this
      ensures Rearranged() && n == x && x in Ids(T)
      ensures Depth(T, x) + 2 == old(Depth(T, x))
    {
      var p := nodes[x].parent;
      var g := nodes[p].parent;
      ParentFacts(T, Nil, nodes, x);
      ParentFacts(T, Nil, nodes, p);
      ChildLinks(T, Nil, nodes, p);
      ChildLinks(T, Nil, nodes, g);
      SubLeftChild(T, g);
      RotateRightAtLifts(T, g, x);
      var up := RotateRight(nodes[p].parent);
      ChildLinks(T, Nil, nodes, up);
      ghost var before := nodes;
      nodes := nodes[x := nodes[x].(parent := up)];
      assert nodes == before;
      RotateRightAtLifts(T, up, x);
      n := RotateRight(nodes[x].parent);
    }

    /** zig-zag: `x` is the left child of a right child; a right rotation at the parent, then a left rotation at the grandparent. */
    method ZigZagLeft(x: int) returns (n: int)
      requires Valid() && x in Ids(T)
      requires var p := nodes[x].parent;
               p != Nil && 0 <= p < |nodes| && nodes[p].left == x &&
               (var g := nodes[p].parent; g != Nil && 0 <= g < |nodes| && nodes[g].left != p)
      modifies this
      ensures Rearranged() && n == x && x in Ids(T)
      ensures Depth(T, x) + 2 == old(Depth(T, x))
    {
      var p := nodes[x].parent;
      var g := nodes[p].parent;
      ParentFacts(T, Nil, nodes, x);
      ParentFacts(T, Nil, nodes, p);
      ChildLinks(T, Nil, nodes, p);
      ChildLinks(T, Nil, nodes, g);
      RotateRightAtLifts(T, p, x);
      n := RotateRight(nodes[x].parent);
      ChildLinks(T, Nil, nodes, g);
      RotateLeftAtLifts(T, g, n);
      n := RotateLeft(nodes[n].parent);
    }

    /** zig-zig: `x` is the right child of a right child; two left rotations, first at the grandparent. */
    method ZigZigRight(x: int) returns (n: int)
      requires Valid() && x in Ids(T)
      requires var p := nodes[x].parent;
               p != Nil && 0 <= p < |nodes| && nodes[p].left != x &&
               (var g := nodes[p].parent; g != Nil && 0 <= g < |nodes| && nodes[g].right == p)
      modifies this
      ensures Rearranged() && n == x && x in Ids(T)
      ensures Depth(T, x) + 2 == old(Depth(T, x))
    {
      var p := nodes[x].parent;
      var g := nodes[p].parent;
      ParentFacts(T, Nil, nodes, x);
      ParentFacts(T, Nil, nodes, p);
      ChildLinks(T, Nil, nodes, p);
      ChildLinks(T, Nil, nodes, g);
      SubRightChild(T, g);
      RotateLeftAtLifts(T, g, x);
      var up := RotateLeft(nodes[p].parent);
      ChildLinks(T, Nil, nodes, up);
      ghost var before := nodes;
      nodes := nodes[x := nodes[x].(parent := up)];
      assert nodes == before;
      RotateLeftAtLifts(T, up, x);
      n := RotateLeft(nodes[x].parent);
    }

    /** zig-zag: `x` is the right child of a left child; a left rotation at the parent, then a right rotation at the grandparent. */
    method ZigZagRight(x: int) returns (n: int)
      requires Valid() && x in Ids(T)
      requires var p := nodes[x].parent;
               p != Nil && 0 <= p < |nodes| && nodes[p].left != x &&
               (var g := nodes[p].parent; g != Nil && 0 <= g < |nodes| && nodes[g].right != p)
      modifies this
      ensures Rearranged() && n == x && x in Ids(T)
      ensures Depth(T, x) + 2 == old(Depth(T, x))
    {
      var p := nodes[x].parent;
      var g := nodes[p].parent;
      ParentFacts(T, Nil, nodes, x);
      ParentFacts(T, Nil, nodes, p);
      ChildLinks(T, Nil, nodes, p);
      ChildLinks(T, Nil, nodes, g);
      RotateLeftAtLifts(T, p, x);
      n := RotateLeft(nodes[x].parent);
      ChildLinks(T, Nil, nodes, g);
      RotateRightAtLifts(T, g, n);
      n := RotateRight(nodes[n].parent);
    }


    /** The subtree hanging from `node` (empty for `Nil`). */
    ghost function Below(node: int): Tree
      reads this
    {
      if node == Nil then Leaf else Sub(T, node)
    }

    /** find: the iterative descent from `node`. The result is the node of
        that subtree holding `k`, or `Nil` when the subtree does not hold
        `k`. Nothing is splayed and nothing changes. */
    method FindFrom(k: int, node: int) returns (r: int)
      requires Valid() && (node == Nil || node in Ids(T))
      ensures r == Lookup(Below(node), k)
      ensures r == Nil <==> k !in KeySet(Below(node))
      ensures r != Nil ==> r in Ids(Below(node)) && 0 <= r < |nodes| && nodes[r].key == k
    {
      if node != Nil {
        SubFacts(T, node);
      }
      LookupFacts(Below(node), k);
      RepBounds(T, Nil, nodes);
      var cur := node;
      ghost var sub := Below(node);
      while cur != Nil
        invariant cur != Nil ==> cur in Ids(T) && sub == Sub(T, cur)
        invariant cur == Nil ==> sub == Leaf
        invariant Ids(sub) <= Ids(Below(node))
        invariant Lookup(sub, k) == Lookup(Below(node), k)
        decreases sub
      {
        ChildLinks(T, Nil, nodes, cur);
        SubFacts(T, cur);
        var c := Compare(nodes[cur].key, k);
        if c == 0 {
          return cur;
        } else if c == -1 {
          if nodes[cur].left == Nil {
            return Nil;
          }
          SubLeftChild(T, cur);
          cur := nodes[cur].left;
          sub := sub.left;
        } else {
          if nodes[cur].right == Nil {
            return Nil;
          }
          SubRightChild(T, cur);
          cur := nodes[cur].right;
          sub := sub.right;
        }
      }
      return Nil;
    }

    /** The public find: the descent from the root, without splaying. */
    method Find(k: int) returns (r: int)
      requires Valid()
      ensures r == Lookup(T, k)
      ensures r == Nil <==> k !in KeySet(T)
      ensures r != Nil ==> r in Ids(T) && 0 <= r < |nodes| && nodes[r].key == k
    {
      assert Below(root) == T;
      r := FindFrom(k, root);
    }

    /** find_recursive: compares `k` with the key at `node` itself and hands
        the search to the iterative descent from the matching child. */
    method FindRecursive(k: int, node: int) returns (r: int)
      requires Valid() && (node == Nil || node in Ids(T))
      ensures r == Lookup(Below(node), k)
      ensures r == Nil <==> k !in KeySet(Below(node))
    {
      if node == Nil {
        LookupFacts(Below(node), k);
        return Nil;
      }
      ChildLinks(T, Nil, nodes, node);
      var c := Compare(nodes[node].key, k);
      if c == 0 {
        SubFacts(T, node);
        return node;
      } else if c == -1 {
        if nodes[node].left != Nil {
          SubLeftChild(T, node);
        }
        r := FindFrom(k, nodes[node].left);
      } else {
        if nodes[node].right != Nil {
          SubRightChild(T, node);
        }
        r := FindFrom(k, nodes[node].right);
      }
      SubFacts(T, node);
      LookupFacts(Below(node), k);
    }

    /** findMax: follows right links from node `i` of subtree `t` down to
        the node with no right child, which holds the largest key of `t`. */
    function FindMax(i: int, ghost t: Tree, ghost q: int): (m: int)
      reads this
      requires Rep(t, q, nodes) && Bst(t) && t.Node? && t.id == i
      ensures m in Ids(t) && 0 <= m < |nodes| && nodes[m].right == Nil
      ensures nodes[m].key in KeySet(t)
      ensures forall y :: y in KeySet(t) ==> y <= nodes[m].key
      decreases t
    {
      if nodes[i].right != Nil then
        var m := FindMax(nodes[i].right, t.right, i);
        assert nodes[m].key in KeySet(t.right);
        m
      else
        RootIdNil(t.right, i, nodes);
        i
    }


    /** add: descends from the root as a search does. A node already
        holding the key is splayed to the root; otherwise a new node is
        hung where the search fell off the tree and splayed to the root.
        An empty tree stays empty (the descent never starts). */
    method Add(k: int) returns (r: int)
      requires Valid()
      modifies this
      ensures Valid() && r == root
      ensures old(root) == Nil ==> nodes == old(nodes) && T == old(T)
      ensures old(root) != Nil ==>
                KeySet(T) == old(KeySet(T)) + {k} &&
                0 <= root < |nodes| && nodes[root].key == k && nodes[root].parent == Nil
      ensures old(root) != Nil && k in old(KeySet(T)) ==>
                Ids(T) == old(Ids(T)) && |nodes| == old(|nodes|)
      ensures old(root) != Nil && k !in old(KeySet(T)) ==>
                Ids(T) == old(Ids(T)) + {old(|nodes|)} && |nodes| == old(|nodes|) + 1
      ensures old(root) != Nil && k in old(KeySet(T)) ==> root == old(Lookup(T, k))
      ensures old(root) != Nil && k !in old(KeySet(T)) ==> root == old(|nodes|)
      ensures KeysKept(old(nodes), nodes)
    {
      ghost var n := |nodes|;
      ghost var sub := T;
      var node := root;
      while node != Nil
        invariant Valid() && T == old(T) && nodes == old(nodes) && root == old(root)
        invariant old(root) != Nil ==> node != Nil
        invariant node != Nil ==>
                    node in Ids(T) && sub == Sub(T, node) && Lookup(T, k) == Lookup(sub, k) &&
                    BstInsert(T, k, n) == ReplaceAt(T, node, BstInsert(sub, k, n))
        decreases sub
      {
        ChildLinks(T, Nil, nodes, node);
        SubFacts(T, node);
        var c := Compare(nodes[node].key, k);
        if c == 0 {
          BstInsertFacts(T, k, n);
          LookupFacts(T, k);
          Splay(node);
          KeysKeptUntouched(old(nodes), nodes, Ids(T));
          r := root;
          return;
        } else if c == -1 {
          if nodes[node].left == Nil {
            var created := |nodes|;
            nodes := (nodes + [NewNode(k, node)])[node := nodes[node].(left := created)];
            HungKeys(old(nodes), nodes, node, k);
            InsertedLeft(T, old(nodes), node, k, nodes);
            T := BstInsert(T, k, n);
            ghost var hung := nodes;
            Splay(created);
            KeysKeptUntouched(hung, nodes, Ids(T));
            KeysKeptTrans(old(nodes), hung, nodes);
            r := root;
            return;
          }
          SubLeftChild(T, node);
          ReplaceAtLeftChild(T, node, BstInsert(sub.left, k, n));
          node := nodes[node].left;
          sub := sub.left;
        } else {
          if nodes[node].right == Nil {
            var created := |nodes|;
            nodes := (nodes + [NewNode(k, node)])[node := nodes[node].(right := created)];
            HungKeys(old(nodes), nodes, node, k);
            InsertedRight(T, old(nodes), node, k, nodes);
            T := BstInsert(T, k, n);
            ghost var hung := nodes;
            Splay(created);
            KeysKeptUntouched(hung, nodes, Ids(T));
            KeysKeptTrans(old(nodes), hung, nodes);
            r := root;
            return;
          }
          SubRightChild(T, node);
          ReplaceAtRightChild(T, node, BstInsert(sub.right, k, n));
          node := nodes[node].right;
          sub := sub.right;
        }
      }
      r := root;
    }

    /** The first branch of remove: a node without children is unlinked
        from its parent (the parent's right link is checked first) and
        freed, with no splay. A childless root leaves the tree empty. */
    method RemoveLeaf(i: int)
      requires Valid() && i in Ids(T) && nodes[i].left == Nil && nodes[i].right == Nil
      modifies this
      ensures Valid() && T == ReplaceAt(old(T), i, Leaf)
      ensures Ids(T) == old(Ids(T)) - {i} && KeySet(T) == old(KeySet(T)) - {old(nodes)[i].key}
      ensures |nodes| == old(|nodes|)
      ensures KeysKept(old(nodes), nodes)
    {
      CutLeaf(T, nodes, i);
      ParentFacts(T, Nil, nodes, i);
      var p := nodes[i].parent;
      if p != Nil {
        if nodes[p].right == i {
          nodes := nodes[p := nodes[p].(right := Nil)];
        } else {
          nodes := nodes[p := nodes[p].(left := Nil)];
        }
        UnlinkLeafRep(T, old(nodes), i, nodes);
      } else {
        root := Nil;
      }
      T := ReplaceAt(T, i, Leaf);
    }

    /** The last lines of remove: the largest node of the (left) tree is
        splayed to its root, where it has no right child, and the detached
        right subtree `R`, rooted at `rhs`, is hung there. */
    method JoinMax(rhs: int, ghost R: Tree)
      requires Valid() && root != Nil
      requires Rep(R, Nil, nodes) && Distinct(R) && Bst(R) && R.Node? && R.id == rhs
      requires Ids(T) !! Ids(R)
      requires forall x, y :: x in KeySet(T) && y in KeySet(R) ==> x < y
      modifies this
      ensures Valid() && root != Nil && |nodes| == old(|nodes|)
      ensures Ids(T) == old(Ids(T)) + Ids(R) && KeySet(T) == old(KeySet(T)) + KeySet(R)
      ensures root in old(Ids(T)) && 0 <= root < |nodes| && nodes[root].key in old(KeySet(T))
      ensures forall y :: y in old(KeySet(T)) ==> y <= nodes[root].key
      ensures T.Node? && T.right == R
      ensures KeysKept(old(nodes), nodes)
    {
      var m := FindMax(root, T, Nil);
      ghost var mid := nodes;
      Splay(m);
      RepBounds(R, Nil, mid);
      assert Agree(mid, nodes, Ids(R));
      RepFrame(R, Nil, mid, nodes);
      MaxHasNoRight(T);
      ghost var before := nodes;
      KeysKeptUntouched(mid, before, Ids(T));
      KeysKeptRelink(nodes, m, nodes[m].(right := rhs));
      nodes := nodes[m := nodes[m].(right := rhs)];
      ghost var linked := nodes;
      KeysKeptRelink(nodes, rhs, nodes[rhs].(parent := m));
      nodes := nodes[rhs := nodes[rhs].(parent := m)];
      KeysKeptTrans(mid, before, linked);
      KeysKeptTrans(mid, linked, nodes);
      JoinRep(T, R, before, nodes);
      JoinFacts(T, R);
      T := Node(T.left, m, T.key, R);
    }

    /** remove after its splay: the root is freed and its subtrees are
        joined. With one subtree, that subtree becomes the tree; with two,
        both are detached and `JoinMax` joins them. */
    method RemoveRoot()
      requires Valid() && root != Nil && 0 <= root < |nodes|
      requires nodes[root].left != Nil || nodes[root].right != Nil
      modifies this
      ensures Valid() && root != Nil && |nodes| == old(|nodes|)
      ensures Ids(T) == old(Ids(T)) - {old(root)}
      ensures KeySet(T) == old(KeySet(T)) - {old(nodes)[old(root)].key}
      ensures old(nodes)[old(root)].left == Nil ==> root == old(nodes)[old(root)].right && T == old(T).right
      ensures old(nodes)[old(root)].right == Nil ==> root == old(nodes)[old(root)].left && T == old(T).left
      ensures old(nodes)[old(root)].left != Nil && old(nodes)[old(root)].right != Nil ==>
                root in old(Ids(T.left)) && 0 <= root < |nodes| && nodes[root].key in old(KeySet(T.left)) &&
                (forall y :: y in old(KeySet(T.left)) ==> y <= nodes[root].key) &&
                T.Node? && T.right == old(T.right)
      ensures KeysKept(old(nodes), nodes)
    {
      var i := root;
      RootIdNil(T, Nil, nodes);
      ChildLinks(T, Nil, nodes, i);
      SplitRoot(T);
      var lhs := nodes[i].left;
      var rhs := nodes[i].right;
      if lhs == Nil {
        RootIdNil(T.left, i, nodes);
        LiftRep(T.right, i, nodes, nodes[rhs := nodes[rhs].(parent := Nil)]);
        KeysKeptRelink(nodes, rhs, nodes[rhs].(parent := Nil));
        root := rhs;
        nodes := nodes[rhs := nodes[rhs].(parent := Nil)];
        T := T.right;
        return;
      }
      if rhs == Nil {
        RootIdNil(T.right, i, nodes);
        LiftRep(T.left, i, nodes, nodes[lhs := nodes[lhs].(parent := Nil)]);
        KeysKeptRelink(nodes, lhs, nodes[lhs].(parent := Nil));
        nodes := nodes[lhs := nodes[lhs].(parent := Nil)];
        root := lhs;
        T := T.left;
        return;
      }
      KeysKeptRelink(nodes, rhs, nodes[rhs].(parent := Nil));
      nodes := nodes[rhs := nodes[rhs].(parent := Nil)];
      ghost var detached := nodes;
      KeysKeptRelink(nodes, lhs, nodes[lhs].(parent := Nil));
      nodes := nodes[lhs := nodes[lhs].(parent := Nil)];
      KeysKeptTrans(old(nodes), detached, nodes);
      DetachRep(T, old(nodes), nodes);
      ghost var split := nodes;
      RepBounds(T, Nil, old(nodes));
      ghost var R := T.right;
      root := lhs;
      T := T.left;
      JoinMax(rhs, R);
      KeysKeptTrans(old(nodes), split, nodes);
    }

    /** remove(node): a childless node is cut off where it is; any other
        node is first splayed to the root and removed there. */
    method RemoveNode(i: int)
      requires Valid() && i in Ids(T)
      modifies this
      ensures Valid() && |nodes| == old(|nodes|)
      ensures Ids(T) == old(Ids(T)) - {i} && KeySet(T) == old(KeySet(T)) - {old(nodes)[i].key}
      ensures old(nodes)[i].left == Nil && old(nodes)[i].right == Nil ==> T == ReplaceAt(old(T), i, Leaf)
      ensures old(nodes)[i].left != Nil || old(nodes)[i].right != Nil ==> root != Nil
      ensures KeysKept(old(nodes), nodes)
    {
      if nodes[i].left == Nil && nodes[i].right == Nil {
        RemoveLeaf(i);
        return;
      }
      ChildLinks(T, Nil, nodes, i);
      SubFacts(T, i);
      ghost var w := if nodes[i].left != Nil then nodes[i].left else nodes[i].right;
      assert w in Ids(Sub(T, i)) && w != i;
      Splay(i);
      RootIdNil(T, Nil, nodes);
      ChildLinks(T, Nil, nodes, i);
      RepBounds(T, Nil, nodes);
      assert w in Ids(T.left) || w in Ids(T.right);
      RemoveRoot();
    }

    /** remove(key): finds the node holding `key`, without splaying, and
        removes it. A missing key is the error the source throws; the tree
        is then unchanged. */
    method Remove(k: int) returns (res: RemoveResult)
      requires Valid()
      modifies this
      ensures Valid() && |nodes| == old(|nodes|)
      ensures res == KeyNotFound <==> k !in old(KeySet(T))
      ensures res == KeyNotFound ==> nodes == old(nodes) && T == old(T) && root == old(root)
      ensures res.Removed? ==>
                res.newRoot == root && KeySet(T) == old(KeySet(T)) - {k} &&
                Ids(T) == old(Ids(T)) - {old(Lookup(T, k))}
      ensures KeysKept(old(nodes), nodes)
    {
      var removed := Find(k);
      if removed == Nil {
        return KeyNotFound;
      }
      RemoveNode(removed);
      return Removed(root);
    }

    /** ~SplayTree: frees every node with an explicit stack. While the top
        node has a left child, or else a right child, that child is pushed
        and the link to it cleared; a top node with neither is popped and
        freed. `freed` lists the indices in the order they are freed. */
    method Destroy() returns (freed: seq<int>)
      requires Valid() && root != Nil
      modifies this
      ensures freed == PostOrder(old(T))
      ensures (forall j :: j in freed <==> j in old(Ids(T))) && NoDuplicates(freed)
      ensures |nodes| == old(|nodes|)
      ensures forall j :: 0 <= j < |nodes| ==>
                nodes[j] == if j in old(Ids(T)) then old(nodes)[j].(left := Nil, right := Nil) else old(nodes)[j]
    {
      RootIdNil(T, Nil, nodes);
      RepIsRepDown(T, Nil, nodes);
      var stack := [root];
      ghost var ts := [T];
      freed := [];
      DestroyStart(T, nodes);
      while |stack| > 0
        invariant DestroyInv(ts, stack, nodes, freed, old(nodes), T) && T == old(T)
        decreases 2 * |Pending(ts)| - |ts|
      {
        var node := stack[|stack| - 1];
        RepDownBounds(ts[|ts| - 1], nodes);
        ghost var before := nodes;
        ghost var above := stack;
        if nodes[node].left != Nil {
          stack := stack + [nodes[node].left];
          nodes := nodes[node := nodes[node].(left := Nil)];
          DestroyPushLeft(ts, above, before, freed, old(nodes), T, nodes);
          ts := PushedLeft(ts);
          continue;
        }
        if nodes[node].right != Nil {
          stack := stack + [nodes[node].right];
          nodes := nodes[node := nodes[node].(right := Nil)];
          DestroyPushRight(ts, above, before, freed, old(nodes), T, nodes);
          ts := PushedRight(ts);
          continue;
        }
        DestroyPop(ts, stack, nodes, freed, old(nodes), T);
        stack := stack[..|stack| - 1];
        freed := freed + [node];
        ts := ts[..|ts| - 1];
      }
      DestroyEnd(ts, stack, nodes, freed, old(nodes), T);
      PostOrderIds(T);
    }
  }

  /** The demonstration program's loop of finds: each key, present in the
      tree, is found, in order. */
  method FindAll(t: SplayTree, keys: seq<int>) returns (found: seq<int>)
    requires t.Valid() && forall j :: 0 <= j < |keys| ==> keys[j] in KeySet(t.T)
    ensures |found| == |keys|
    ensures forall j :: 0 <= j < |keys| ==>
              found[j] != Nil && 0 <= found[j] < |t.nodes| && t.nodes[found[j]].key == keys[j]
  {
    found := [];
    var i := 0;
    while i < |keys|
      invariant 0 <= i <= |keys| && |found| == i
      invariant forall j :: 0 <= j < i ==>
                  found[j] != Nil && 0 <= found[j] < |t.nodes| && t.nodes[found[j]].key == keys[j]
    {
      var f := t.Find(keys[i]);
      found := found + [f];
      i := i + 1;
    }
  }

  /** The demonstration program's tree, built from its vector: six
      records, one per distinct key. */
  method DemoTree(a: seq<int>) returns (t: SplayTree)
    requires a == [0, 1, 2, 98, 99, 7, 2, 0]
    ensures fresh(t) && t.Valid() && KeySet(t.T) == {0, 1, 2, 7, 98, 99} && |t.nodes| == 6
  {
    t := new SplayTree.FromVector(a);
    DemoVectorKeys();
  }

  /** remove on a key the tree holds, as the demonstration program calls
      it: no error, and the root it returns is a record unless the tree is
      now empty. */
  method RemoveKey(t: SplayTree, k: int) returns (r: int)
    requires t.Valid() && k in KeySet(t.T)
    modifies t
    ensures t.Valid() && KeySet(t.T) == old(KeySet(t.T)) - {k} && |t.nodes| == old(|t.nodes|)
    ensures r == t.root && (KeySet(t.T) != {} ==> r != Nil)
  {
    var res := t.Remove(k);
    RootIdNil(t.T, Nil, t.nodes);
    r := res.newRoot;
  }

  /** The keys left after the demonstration program removes 0 and then 1. */
  lemma DemoRemovedKeys()
    ensures {0, 1, 2, 7, 98, 99} - {0} == {1, 2, 7, 98, 99}
    ensures {1, 2, 7, 98, 99} - {1} == {2, 7, 98, 99}
  {
  }

  /** The keys the demonstration program looks up: positions 2 to 6 of
      its array. */
  lemma DemoArrayKeys(a: seq<int>)
    requires a == [0, 1, 2, 98, 99, 7, 2, 0]
    ensures a[2..7] == [2, 98, 99, 7, 2]
  {
  }

  /** The demonstration program, without its output. The tree built from
      the vector keeps one record per distinct key, six in all. Removing 0
      and then 1 succeeds each time and leaves a non-empty tree, whose
      root's key the program prints. Each key at positions 2 to 6 of the
      array is then found. */
  method Demo() returns (t: SplayTree, roots: seq<int>, found: seq<int>)
    ensures t.Valid() && KeySet(t.T) == {2, 7, 98, 99} && |t.nodes| == 6
    ensures |roots| == 2 && roots[0] != Nil && roots[1] != Nil
    ensures |found| == 5
    ensures forall j :: 0 <= j < 5 ==>
              found[j] != Nil && 0 <= found[j] < |t.nodes| && t.nodes[found[j]].key == [2, 98, 99, 7, 2][j]
  {
    var a := [0, 1, 2, 98, 99, 7, 2, 0];
    t := DemoTree(a);
    DemoRemovedKeys();
    var r0 := RemoveKey(t, 0);
    var r1 := RemoveKey(t, 1);
    roots := [r0, r1];
    DemoArrayKeys(a);
    found := FindAll(t, a[2..7]);
  }
}
