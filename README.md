# Splay tree over an arena of node records

This project models `splay_tree.cc`, a splay tree over totally ordered
keys whose nodes are linked by `left`, `right` and `parent` links,
with a `root` link in the tree object. The model keeps the program's
imperative shape:

- **The heap.** It becomes an arena `nodes: seq<NodeRec>` inside the
  class `SplayTrees.SplayTree`. A link is an index into the arena,
  and the null link is `Nil` (-1).
  - `new Node<T>(key, parent)` appends a record.
  - `delete` leaves the record in the arena and unlinks it from the tree.
- **The tree's meaning.** A ghost field `T: Tree` gives it, as an
  inductive tree whose nodes carry their arena index.
  - `Valid()` says that the records represent `T` exactly: each child
    link names the subtree's root, and each parent link points back.
    It also says that `T` is a binary search tree with distinct indices,
    and that `root` is `T`'s root.
- **The methods.** Every method that changes links does so with the
  source's own sequence of assignments. Each states its new state in
  terms of `T`:
  - a rotation replaces a subtree by its rotated form;
  - add inserts into the search tree;
  - remove cuts a leaf or joins the two halves.
- **The properties** are proved about those abstract operations:
  - in-order key sequence;
  - key set;
  - node count;
  - depths;
  - post-order.

Keys are `int`, the instantiation the demonstration program uses. The
modules are:

| module | file | contents |
|---|---|---|
| `Nodes` | nodes.dfy | the node record and `compare` |
| `Trees` | trees.dfy | the abstract tree, subtrees, replacement, rotation, search-tree insertion, lookup, and the arena representation predicates |
| `TreeFacts` | treefacts.dfy | lemmas about the abstract tree |
| `ArenaFacts` | arenafacts.dfy | how arena records relate to subtrees, and how a local relinking realises a subtree replacement |
| `Rotations` | rotations.dfy | rotateRight and rotateLeft as operations on records, and why they represent the rotated tree |
| `Forests` | forests.dfy | the destructor's stack as a forest of subtrees still to free |
| `SplayTrees` | splaytree.dfy | the class with all operations |
| `Findings` | findings.dfy | the three defects below, modelled as written |

## Model

| member | source | states |
|---|---|---|
| Nodes.NewNode | splay_tree.cc:9-17 | a new node holds its key and parent and has no children |
| Nodes.Compare | splay_tree.cc:19-28 | the result is 1 exactly when the node's key is below `k`; it is -1 exactly when `k` is below the node's key; it is 0 exactly when they are equal |
| SplayTrees.SplayTree.constructor | splay_tree.cc:34-36 | a valid tree whose only key is `key`, held in record 0, the root |
| SplayTrees.SplayTree.Default | splay_tree.cc:38-40 | a valid tree whose only key is 0 |
| SplayTrees.SplayTree.FromArray | splay_tree.cc:42-49 | for a non-empty array: a valid tree whose key set is the set of the array's elements; the arena holds exactly one record per distinct key, all of them in the tree |
| SplayTrees.SplayTree.FromVector | splay_tree.cc:51-56 | the same, for a non-empty vector |
| SplayTrees.SplayTree.AddAll | splay_tree.cc:46-48 | adding the keys in turn grows the key set by exactly those keys and keeps one record per key |
| SplayTrees.SplayTree.AddOne | splay_tree.cc:47 | one add keeps one record per key and adds exactly that key |
| SplayTrees.DemoVectorKeys | splay_tree.cc:277 | the demonstration vector {0,1,2,98,99,7,2,0} has exactly the six distinct keys {0,1,2,7,98,99} |
| SplayTrees.DemoTree | splay_tree.cc:277-278 | the tree built from the demonstration vector is valid, holds those six keys and has exactly six records |
| SplayTrees.RemoveKey | splay_tree.cc:279-280 | remove on a key the tree holds raises no error, takes exactly that key out, and returns the root, which is a record unless the tree is now empty |
| SplayTrees.DemoRemovedKeys | splay_tree.cc:279-280 | removing 0 and then 1 from the demonstration keys leaves {2, 7, 98, 99} |
| SplayTrees.FindAll | splay_tree.cc:281-283 | finding each of a list of keys the tree holds returns, in order, a record holding each key |
| SplayTrees.DemoArrayKeys | splay_tree.cc:272-282 | the keys looked up, positions 2 to 6 of the array, are 2, 98, 99, 7 and 2 |
| SplayTrees.Demo | splay_tree.cc:270-285 | the demonstration program: the built tree keeps six records. Both removals succeed and return a non-empty tree's root, so the `->key` reads are safe. Afterwards the tree holds {2, 7, 98, 99}, and every find returns a record holding the key sought |
| SplayTrees.SplayTree.Add | splay_tree.cc:97-120 | the result is the root, as the public add at lines 58-61 returns it. On a non-empty tree, the key set grows by exactly `k`, and the record holding `k` ends as the parentless root. Which record that is depends on the key. A present key: the record the lookup finds, with no new record and the same nodes. An absent key: the one appended record, which joins the tree. No record changes its key. On an empty tree nothing changes |
| TreeFacts.BstInsertFacts | splay_tree.cc:97-120 | descending by `compare` and attaching a leaf in the empty slot keeps the search order; it adds exactly `k` to the key set; it adds the new index only when `k` was absent; it keeps the root |
| SplayTrees.InsertedLeft | splay_tree.cc:104-107 | attaching the new record as the left child of a node without one represents the inserted tree with the same root |
| SplayTrees.InsertedRight | splay_tree.cc:112-115 | the same for the right slot |
| SplayTrees.SplayTree.Find | splay_tree.cc:72-74 | public find returns the record holding `k`, or `Nil` exactly when `k` is absent. It changes nothing: no splay, no link and no root |
| SplayTrees.SplayTree.FindFrom | splay_tree.cc:155-174 | the iterative search from a node returns the lookup in that node's subtree: `Nil` exactly when the key is absent from it, and otherwise a record of the subtree holding the key |
| SplayTrees.SplayTree.FindRecursive | splay_tree.cc:176-188 | find_recursive returns the same lookup as the iterative search. Following the source, it hands the child to the iterative find |
| TreeFacts.LookupFacts | splay_tree.cc:155-174 | on a search tree, the lookup is `Nil` exactly when the key is absent, and otherwise the index of the node holding the key |
| SplayTrees.SplayTree.FindMax | splay_tree.cc:262-267 | findMax returns a node of the subtree without a right child, whose key is the largest key of the subtree |
| SplayTrees.SplayTree.RelinkRight | splay_tree.cc:220-239 | the assignments of rotateRight, in order, produce `RotatedRight` of the records; they return the old left child, and make it the root when the rotated node had no parent |
| SplayTrees.SplayTree.RotateRight | splay_tree.cc:220-239 | rotateRight turns `T` into its right rotation at the node, and the tree stays valid with the same nodes, keys and in-order sequence. `up` takes the node's place: as root, or as the parent's child through the same link. The node becomes `up`'s right child with `up` as parent; the crossing subtree's root gets the node as parent; no other record changes |
| SplayTrees.SplayTree.RelinkLeft | splay_tree.cc:241-260 | the same for rotateLeft |
| SplayTrees.SplayTree.RotateLeft | splay_tree.cc:241-260 | the mirror image of `RotateRight` |
| Rotations.RotatedRightRep | splay_tree.cc:220-239 | on a valid arena, the records after rotateRight represent the right-rotated tree, which has the same indices and is still a search tree; the root changes only when the rotated node was the root; keys and records outside the tree are untouched |
| Rotations.RotatedLeftRep | splay_tree.cc:241-260 | the mirror image |
| Rotations.RotatedRight | splay_tree.cc:221-237 | rotateRight's assignments, in order, on the records: the arena keeps its length and every record its key |
| Rotations.RotatedLeft | splay_tree.cc:242-258 | the same for rotateLeft's assignments |
| Rotations.RotatedRightRecords | splay_tree.cc:221-237 | record by record: the node, its left child, the crossing child and the parent get exactly the links the assignments give them, and nothing else changes |
| Rotations.RotatedLeftRecords | splay_tree.cc:242-258 | the mirror image |
| TreeFacts.RotateRightAtFacts | splay_tree.cc:220-239 | a right rotation at any node keeps the indices, the key set and the in-order key sequence; it keeps the search order and distinct indices |
| TreeFacts.RotateLeftAtFacts | splay_tree.cc:241-260 | the same for a left rotation |
| TreeFacts.RotateRightAtLifts | splay_tree.cc:220-239 | a right rotation moves the left child and everything in its left subtree up exactly one level |
| TreeFacts.RotateLeftAtLifts | splay_tree.cc:241-260 | a left rotation moves the right child and its right subtree up one level |
| SplayTrees.SplayTree.Splay | splay_tree.cc:190-218 | splay only rearranges: the same nodes, keys and in-order sequence, and records outside the tree untouched. Afterwards the node is the root and has no parent. A node already without a parent changes nothing. The loop's measure is the node's depth |
| SplayTrees.SplayTree.Zig | splay_tree.cc:192-199 | when the parent is the root, one rotation of the parent makes the node parentless, and only rearranges |
| SplayTrees.SplayTree.ZigZigLeft | splay_tree.cc:200-203 | left-left zig-zig: two right rotations reduce the node's depth by exactly 2, and only rearrange |
| SplayTrees.SplayTree.ZigZagLeft | splay_tree.cc:204-207 | left child of a right child: the two rotations reduce the node's depth by exactly 2 |
| SplayTrees.SplayTree.ZigZigRight | splay_tree.cc:210-212 | right-right zig-zig with the intended rotateLeft twice (see Findings): depth reduced by exactly 2 |
| SplayTrees.SplayTree.ZigZagRight | splay_tree.cc:213-216 | right child of a left child: the two rotations reduce the node's depth by exactly 2 |
| SplayTrees.SplayTree.Remove | splay_tree.cc:63-70 | the result is `KeyNotFound` exactly when `k` is absent (the source throws), and then nothing changes. Otherwise it returns the root, the key set loses exactly `k`, and the tree loses exactly the node that held it. No record changes its key |
| SplayTrees.SplayTree.RemoveNode | splay_tree.cc:122-153 | removing a node of the tree keeps the tree valid and removes exactly that node and its key, and no record changes its key. A leaf is cut off without splaying; otherwise the tree stays non-empty |
| SplayTrees.SplayTree.RemoveLeaf | splay_tree.cc:123-133 | a childless node is cut off: the parent's right link when it names the node, else the left. The tree becomes `T` with that leaf replaced by an empty tree. A childless root empties the tree, with `root` set to `Nil` (see Findings) |
| SplayTrees.SplayTree.RemoveRoot | splay_tree.cc:135-152 | at the splayed root with at least one child, the tree loses exactly the root and its key, stays valid and non-empty, and keeps its arena size. Without a left child, the right child becomes the root and its subtree the tree (lines 138-141); without a right child, the left child does (lines 143-146). With both, the root is a node of the left subtree holding its largest key, and the right subtree hangs to its right unchanged. No record changes its key |
| SplayTrees.SplayTree.JoinMax | splay_tree.cc:148-152 | given a right half `R` whose keys are all above the tree's: the joined tree is valid and non-empty, with exactly the nodes and keys of both halves. Its root is the old tree's node with the largest key, and `R` is its right subtree. Validity includes `R`'s parent link to the new root (see Findings). No record changes its key |
| SplayTrees.MaxHasNoRight | splay_tree.cc:150-152 | a search tree's root holding its maximum key has no right subtree: the slot the right half goes into is free |
| SplayTrees.JoinFacts | splay_tree.cc:150-152 | hanging a tree whose keys are all larger from the free right slot gives a search tree with both halves' nodes and keys |
| SplayTrees.SplitRoot | splay_tree.cc:135-149 | the two subtrees of the root are disjoint search trees, together holding every node and key except the root's, with every left key below every right key |
| SplayTrees.CutLeaf | splay_tree.cc:123-133 | cutting a leaf off keeps a search tree with distinct indices, without exactly that index and key; the root becomes `Nil` exactly when the leaf was the root |
| SplayTrees.SplayTree.Destroy | splay_tree.cc:76-94 | the destructor frees the nodes in post-order, each node of the tree exactly once, and nothing else. Every freed record has both child links cleared, and every other record is unchanged. The loop's measure decreases with each push and each pop |
| Forests.DestroyPushLeft | splay_tree.cc:81-85 | pushing the left child and clearing the link keeps the stack a forest of disjoint subtrees that still has to be freed; the pending post-order is unchanged and the stack grows by one |
| Forests.DestroyPushRight | splay_tree.cc:86-90 | the same for the right child, once the left link is clear |
| Forests.DestroyPop | splay_tree.cc:91-92 | a top node without children is freed next in post-order, and the pending post-order shrinks by one |
| Forests.DestroyEnd | splay_tree.cc:76-94 | when the stack is empty, every node of the tree has been freed, in post-order |
| Forests.PostOrderIds | splay_tree.cc:76-94 | the post-order lists each node of a tree exactly once |
| TreeFacts.BstIffSorted | splay_tree.cc:19-28 | a tree is a search tree by the order `compare` uses exactly when its in-order key sequence is strictly increasing |
| TreeFacts.SizeIsKeyCount | splay_tree.cc:97-120 | in a search tree with distinct indices, there are as many nodes as distinct keys |
| TreeFacts.KeySetIsInOrder | splay_tree.cc:97-120 | the key set is the set of the in-order sequence's elements |
| TreeFacts.KeysReplace | splay_tree.cc:122-153 | replacing a subtree by a search tree over some of its keys keeps the search order and removes exactly the missing keys |
| ArenaFacts.RepReplace | splay_tree.cc:122-153 | relinking the parent of a subtree to the root of a new subtree, with records elsewhere unchanged, represents the whole tree with that subtree replaced |
| ArenaFacts.ParentFacts | splay_tree.cc:124-129 | the root's parent link is the tree's parent. Any other node's parent is outside the node's subtree and links to the node through exactly one child link |
| Findings.ZigZigRightAsWritten | splay_tree.cc:210-212 | in every right-right configuration, rotateRight at the grandparent either has no left child to lift or leaves the parent below the grandparent. The intended rotateLeft always lifts the parent into the grandparent's place |
| Findings.ZigZigRightCounterexample | splay_tree.cc:210-212 | after keys 3, 1 and 4 have been added and before splaying 4, the configuration is right-right with a grandparent that has no left child |
| Findings.RemoveLeafAsWritten | splay_tree.cc:123-133 | the leaf branch as written: only the parent's record changes, and `root` keeps its value |
| Findings.RemoveLeafAsWrittenDangles | splay_tree.cc:123-133 | the leaf branch as written is right for a non-root leaf. For a childless root it leaves `root` naming the deleted node while the tree is empty |
| Findings.RemoveLeafCounterexample | splay_tree.cc:123-133 | the single-node tree: after removal as written, the root still names the deleted record |
| Findings.RemoveRootAsWritten | splay_tree.cc:138-152 | the two-child branch as written, where `findMax(lhs)` is `lhs` and the splay rotates nothing: only the two children's records change, no key changes, and `root` keeps its value |
| Findings.RemoveRootAsWrittenBroken | splay_tree.cc:135-152 | when the left half's root has no right child, the records as written do not represent the joined tree. The right child's parent link stays `Nil`, and `root` still names the deleted node |
| Findings.RemoveRootCounterexample | splay_tree.cc:148-152 | the tree {1, 2, 3} rooted at 2, which the adds of 1, 3 and 2 produce: the join as written gives these exact records and root |

## Left out

- Output to `std::cout` is not modelled. `SplayTrees.Demo` follows `main`'s calls without printing; what it states is about the corrected model.
- Memory management is not modelled. `new` appends a record to the arena. `delete` is not modelled as freeing: a deleted record stays in the arena and simply stops belonging to `T`.
- Template genericity is not modelled: keys are `int`, the instantiation the source uses. The array constructor's compile-time length `N` becomes the array's length.
- The thrown `std::exception` becomes the result `KeyNotFound`.
- The sequence constructors and `Destroy` require non-empty input, as the source does.
  - `FromArray` and `FromVector` require a non-empty input because the source reads `keys[0]` unguarded.
  - `Destroy` requires a non-empty tree because the destructor dereferences `root` unguarded. In the source, removing a childless root leaves `root` dangling rather than null (the second finding below). An empty tree exists only in the model, through the corrected `RemoveLeaf`.
- SplayTrees.SplayTree.ZigZigRight: models the intended step, rotateLeft at the grandparent and then at the parent, not the code as written. Findings.ZigZigRightAsWritten states what the written code does.
- SplayTrees.SplayTree.RemoveLeaf: sets `root` to `Nil` when the removed leaf is the root, which the source omits.
- SplayTrees.SplayTree.JoinMax and SplayTrees.SplayTree.RemoveRoot add two things the source omits:
  - the right half's parent link is set to the new root;
  - `root` is set to the left half before that half's maximum is splayed.
- Behaviours of the source that the model keeps:
  - public find does not splay;
  - removing a leaf below the root does not splay;
  - add on an empty tree changes nothing, because its loop does not run.

## Findings

| source | as written | input that shows it | evidently intended | confidence | as-written member | corrected member |
|---|---|---|---|---|---|---|
| splay_tree.cc:210-212 | the right-right zig-zig calls rotateRight on the grandparent and then on the node it lifted | `SplayTree<int>` built from {3, 1, 4}: splaying 4 meets 1 → 3 → 4 down the right links, and rotateRight(1) dereferences the null left child | rotateLeft on the grandparent, then on the parent, mirroring lines 201-203 | not executed | Findings.ZigZigRightAsWritten, Findings.ZigZigRightCounterexample | SplayTrees.SplayTree.ZigZigRight |
| splay_tree.cc:123-133 | removing a childless node never updates `root` | `SplayTree<int> t(5); t.remove(5);` leaves `root` naming the deleted node | set `root` to null when the removed leaf is the root | not executed | Findings.RemoveLeafAsWrittenDangles, Findings.RemoveLeafCounterexample | SplayTrees.SplayTree.RemoveLeaf |
| splay_tree.cc:148-152 | the join clears `rhs->parent` and never sets it to the new root. When `findMax(lhs)` is `lhs`, nothing reassigns `root` | the tree built from {1, 3, 2}, then `remove(2)`: 3 has no parent link and `root` names the deleted node | set `rhs->parent` to the new root, and make `lhs` the root before splaying its maximum | not executed | Findings.RemoveRootAsWrittenBroken, Findings.RemoveRootCounterexample | SplayTrees.SplayTree.RemoveRoot |
