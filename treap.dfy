/**
 * The treap of src/treap.js as a mutable object over a node arena.
 *
 * A node is an index into five parallel sequences (`left`, `right`, `parent`,
 * `key`, `priority`), the fields the source keeps on each node object. Index 0
 * is the shared sentinel NIL, whose priority -1 ranks below every real
 * priority (real priorities are naturals). Nodes are never reclaimed: a
 * detached node keeps its slot, so a handle stays meaningful after erasure.
 *
 * The ghost field `tree` is the abstract shape; `Valid` ties it to the links
 * and states the treap invariants: BST order on keys (duplicates allowed),
 * max-heap order on priorities, and mutually consistent child/parent links.
 */
module Treaps {
  import opened BinaryTrees
  import opened TreeOrder
  import opened TreeHeap
  import opened NodeLinks
  import opened TreeWalks
  import opened NodeSplice
  import opened TreeRemoval

  /** Why an operation throws: `MissingKey` is the error `insert` raises for a
      payload without an own `key` property; `TypeError` is a dereference of
      the null links of the sentinel NIL. */
  datatype Error = MissingKey | TypeError

  datatype Result<T> = Success(value: T) | Failure(error: Error)

  /** The payload given to `insert`: `key` is None when the payload has no
      own `key` property. Other payload fields are opaque and not modelled. */
  datatype Payload = Payload(key: Option<int>)

  datatype Option<T> = None | Some(value: T)

  /** Attaching a detached node at an empty hole where its key fits: the
      links, the node order and the in-order sequence afterwards. */
  lemma AttachLeaf(leaf: Path, n: nat, root: nat, g: Links, K: seq<int>, toLeft: bool)
    requires Linked(Plug(leaf, Nil), root, NIL, g) && Unique(Plug(leaf, Nil)) && Ordered(Plug(leaf, Nil), K)
    requires IsSlot(g, n) && n !in Nodes(Plug(leaf, Nil)) && g.left[n] == NIL && g.right[n] == NIL
    requires leaf != [] ==> (toLeft <==> leaf[0].HoleLeft?)
    requires Fits(leaf, KeyAt(K, n), K)
    ensures ParentId(leaf) < |g.left| && ParentId(leaf) < |g.right| && (ParentId(leaf) == NIL <==> leaf == [])
    ensures var t := Plug(leaf, Node(Nil, n, Nil));
      Linked(t, if leaf == [] then n else root, NIL, Attached(g, ParentId(leaf), n, toLeft)) &&
      Unique(t) && Ordered(t, K)
    ensures Inorder(Plug(leaf, Node(Nil, n, Nil))) == Pre(leaf) + [n] + Post(leaf)
  {
    Decompose(leaf, Nil, root, g);
    if leaf != [] {
      assert ParentId(leaf) in PathNodes(leaf);
    }
    AttachLinks(leaf, n, root, g, toLeft);
    AttachLeafOrdered(leaf, n, K);
    PlugLeafInorder(leaf, n);
  }

  /** The links `g` from `root` represent `t`, the five arena sequences have one
      entry per node, and every real priority is a natural. */
  ghost predicate Represents(t: Tree, root: nat, g: Links, K: seq<int>, Pr: seq<int>)
  {
    |g.left| == |g.right| == |g.parent| == |K| == |Pr| >= 1 &&
    Pr[NIL] == -1 && (forall i :: NIL < i < |Pr| ==> Pr[i] >= 0) &&
    Linked(t, root, NIL, g) && Unique(t)
  }

  lemma RotateLeftShape(path: Path, s: Tree, root: nat, g: Links, K: seq<int>, Pr: seq<int>)
    requires Represents(Plug(path, s), root, g, K, Pr) && s.Node? && s.right.Node?
    ensures IsSlot(g, s.id) && IsSlot(g, g.right[s.id]) && g.left[g.right[s.id]] < |g.parent|
    ensures g.parent[s.id] < |g.left| && g.parent[s.id] < |g.right|
    ensures g.right[s.id] == s.right.id && (g.parent[s.id] == NIL <==> path == [])
    ensures g.right[s.id] != s.id && g.left[g.right[s.id]] != s.id
    ensures Represents(Plug(path, RotL(s)), if path == [] then s.right.id else root, RotatedLeft(g, s.id), K, Pr)
    ensures Inorder(Plug(path, RotL(s))) == Inorder(Plug(path, s))
    ensures SameOutside(g, RotatedLeft(g, s.id), Nodes(Plug(path, s)))
  {
    RotateLeftLinks(path, s, root, g);
    PlugRotL(path, s);
    Decompose(path, s, root, g);
    PlugPush(HoleRight(s.id, s.left), path, [], s.right);
    ChildLinks([HoleRight(s.id, s.left)] + path, s.right, root, g);
    assert s.right.id in Nodes(s.right);
    if s.right.left.Node? {
      assert s.right.left.id in Nodes(s.right);
    }
  }

  lemma RotateRightShape(path: Path, s: Tree, root: nat, g: Links, K: seq<int>, Pr: seq<int>)
    requires Represents(Plug(path, s), root, g, K, Pr) && s.Node? && s.left.Node?
    ensures IsSlot(g, s.id) && IsSlot(g, g.left[s.id]) && g.right[g.left[s.id]] < |g.parent|
    ensures g.parent[s.id] < |g.left| && g.parent[s.id] < |g.right|
    ensures g.left[s.id] == s.left.id && (g.parent[s.id] == NIL <==> path == [])
    ensures g.left[s.id] != s.id && g.right[g.left[s.id]] != s.id
    ensures Represents(Plug(path, RotR(s)), if path == [] then s.left.id else root, RotatedRight(g, s.id), K, Pr)
    ensures Inorder(Plug(path, RotR(s))) == Inorder(Plug(path, s))
    ensures SameOutside(g, RotatedRight(g, s.id), Nodes(Plug(path, s)))
  {
    RotateRightLinks(path, s, root, g);
    PlugRotR(path, s);
    Decompose(path, s, root, g);
    PlugPush(HoleLeft(s.id, s.right), path, [], s.left);
    ChildLinks([HoleLeft(s.id, s.right)] + path, s.left, root, g);
    assert s.left.id in Nodes(s.left);
    if s.left.right.Node? {
      assert s.left.right.id in Nodes(s.left);
    }
  }

  /** Deleting a node `s.id` with at most one child: the child (or NIL)
      takes its place through `_transplant`. The node leaves the tree and the
      in-order sequence, its own links untouched, and both orders survive. */
  lemma SplicedOut(path: Path, s: Tree, root: nat, g: Links, K: seq<int>, Pr: seq<int>)
    requires Represents(Plug(path, s), root, g, K, Pr) && Ordered(Plug(path, s), K) && Heap(Plug(path, s), Pr)
    requires s.Node? && (s.left == Nil || s.right == Nil)
    ensures IsSlot(g, s.id) && g.parent[s.id] < |g.left| && g.parent[s.id] < |g.right|
    ensures g.left[s.id] == RootId(s.left) && g.right[s.id] == RootId(s.right)
    ensures RootId(s.left) < |g.parent| && RootId(s.right) < |g.parent|
    ensures g.parent[s.id] == NIL <==> path == []
    ensures var c := if s.left == Nil then s.right else s.left;
      var h := Transplanted(g, s.id, RootId(c));
      Represents(Plug(path, c), if path == [] then RootId(c) else root, h, K, Pr) &&
      IsSlot(h, s.id) && h.left[s.id] == g.left[s.id] && h.right[s.id] == g.right[s.id] && h.parent[s.id] == g.parent[s.id]
    ensures var c := if s.left == Nil then s.right else s.left;
      Ordered(Plug(path, c), K) && Heap(Plug(path, c), Pr) && Inorder(c) == Inorder(s.left) + Inorder(s.right) &&
      s.id !in Nodes(Plug(path, c))
  {
    var c := if s.left == Nil then s.right else s.left;
    Site(path, s, root, g);
    SpliceLinks(path, s, root, g);
    SpliceShape(path, s, Pr);
    RemoveRoot(path, s, c, K);
    RemovedNode(path, s, c);
  }

  /** A fresh detached node appended to the arena leaves the tree and both
      orders as they were; its slot is not in the tree. */
  lemma Grown(t: Tree, root: nat, g: Links, K: seq<int>, Pr: seq<int>, k: int, prio: nat)
    requires Represents(t, root, g, K, Pr) && Ordered(t, K) && Heap(t, Pr)
    ensures var g' := Links(g.left + [NIL], g.right + [NIL], g.parent + [NIL]);
      Represents(t, root, g', K + [k], Pr + [prio]) && Ordered(t, K + [k]) && Heap(t, Pr + [prio]) &&
      |g.left| !in Nodes(t) && IsSlot(g', |g.left|)
  {
    var g' := Links(g.left + [NIL], g.right + [NIL], g.parent + [NIL]);
    LinkedSlots(t, root, NIL, g);
    LinkedFrame(t, root, NIL, g, g');
    OrderedFrame(t, K, K + [k]);
    HeapFrame(t, Pr, Pr + [prio]);
  }

  /** Raising the priority of a node of the tree keeps the arena well
      formed and starts a rise at that node. */
  lemma Elevated(path: Path, s: Tree, root: nat, g: Links, K: seq<int>, Pr: seq<int>, v: int)
    requires Represents(Plug(path, s), root, g, K, Pr) && Heap(Plug(path, s), Pr) && s.Node?
    requires s.id < |Pr| ==> Pr[s.id] <= v
    ensures NIL < s.id < |Pr|
    ensures Represents(Plug(path, s), root, g, K, Pr[s.id := v]) && Rising(path, s, Pr[s.id := v])
  {
    Site(path, s, root, g);
    RaiseRising(path, s, Pr, v);
  }

  /** A new key for a node outside the tree disturbs neither the arena nor
      the key order of the tree. */
  lemma Rekeyed(t: Tree, root: nat, g: Links, K: seq<int>, Pr: seq<int>, n: nat, k: int)
    requires Represents(t, root, g, K, Pr) && Ordered(t, K) && n < |K| && n !in Nodes(t)
    ensures Represents(t, root, g, K[n := k], Pr) && Ordered(t, K[n := k])
  {
    OrderedFrame(t, K, K[n := k]);
  }

  /** The node to delete, at position `path`: its slot and parent link, and
      its key fitting at its place. */
  lemma DeleteSite(path: Path, s: Tree, root: nat, g: Links, K: seq<int>, Pr: seq<int>)
    requires Represents(Plug(path, s), root, g, K, Pr) && Ordered(Plug(path, s), K) && s.Node?
    ensures IsSlot(g, s.id) && s.id < |K| && g.parent[s.id] == ParentId(path)
    ensures (root == s.id <==> path == []) && (ParentId(path) == NIL <==> path == [])
    ensures Fits(path, K[s.id], K) && s.id !in PathNodes(path)
  {
    Position(path, s, root, g);
    Decompose(path, s, root, g);
    FitsAtNode(path, s, K);
  }

  /** The key of `n`, off the path, changes to `k`: the bounds the climb
      starts from. */
  lemma RekeyFits(path: Path, K: seq<int>, n: nat, k: int)
    requires n < |K| && Fits(path, K[n], K) && n !in PathNodes(path)
    ensures k < K[n] ==> AtLeast(Post(path), k, K[n := k]) && (path != [] ==> AtLeast(Post(path[1..]), k, K[n := k]))
    ensures K[n] <= k ==> AtMost(Pre(path), k, K[n := k]) && (path != [] ==> AtMost(Pre(path[1..]), k, K[n := k]))
  {
    FitsFrame(path, K[n], K, K[n := k]);
    ClimbStart(path, K[n], k, K[n := k]);
  }

  /** Where the walk of `changeKey` may start: a key `k0` fitting at the
      hole of `path` is replaced by `k`; a smaller `k` is still at most every
      node after the hole and after the hole's parent's subtree, a larger or
      equal one still at least every node before them. */
  lemma ClimbStart(path: Path, k0: int, k: int, K: seq<int>)
    requires Fits(path, k0, K)
    ensures k < k0 ==> AtLeast(Post(path), k, K) && (path != [] ==> AtLeast(Post(path[1..]), k, K))
    ensures k0 <= k ==> AtMost(Pre(path), k, K) && (path != [] ==> AtMost(Pre(path[1..]), k, K))
  {
    if path != [] {
      assert Pre(path) == Pre(path[1..]) + Before(path[0]);
      assert Post(path) == After(path[0]) + Post(path[1..]);
      AtMostJoin(Pre(path[1..]), Before(path[0]), k0, K);
      AtLeastJoin(After(path[0]), Post(path[1..]), k0, K);
    }
  }

  /** The start of a climb: the root link and the current node's slot. */
  lemma ClimbFrom(path: Path, s: Tree, root: nat, g: Links, K: seq<int>, Pr: seq<int>)
    requires Represents(Plug(path, s), root, g, K, Pr) && (s.Nil? ==> path == [])
    ensures root == RootId(Plug(path, s)) && RootId(s) < |K|
  {
    LinkedRoot(Plug(path, s), root, NIL, g);
    if s.Node? {
      Site(path, s, root, g);
    }
  }

  /** One step of a climb from a node other than the root: its parent link
      leads to the node of the innermost frame. */
  lemma ClimbUp(path: Path, s: Tree, root: nat, g: Links, K: seq<int>, Pr: seq<int>)
    requires Represents(Plug(path, s), root, g, K, Pr) && (s.Nil? ==> path == []) && RootId(s) != root
    ensures path != [] && s.Node? && IsSlot(g, s.id) && g.parent[s.id] == path[0].id && NIL < path[0].id < |K|
    ensures Plug(path[1..], Fill(path[0], s)) == Plug(path, s) && RootId(Fill(path[0], s)) == path[0].id
    ensures Pre(path) == Pre(path[1..]) + Before(path[0]) && Post(path) == After(path[0]) + Post(path[1..])
  {
    LinkedRoot(Plug(path, s), root, NIL, g);
    Site(path, s, root, g);
    Position(path, s, root, g);
  }

  /** Where a climb stops below the root, the node's key bounds the nodes
      before and after its subtree. */
  lemma ClimbEnd(path: Path, s: Tree, root: nat, g: Links, K: seq<int>, Pr: seq<int>)
    requires Represents(Plug(path, s), root, g, K, Pr) && Ordered(Plug(path, s), K) && (s.Nil? ==> path == [])
    ensures RootId(s) == root ==> path == []
    ensures RootId(s) != root ==> s.Node? && Fits(path, KeyAt(K, s.id), K)
  {
    LinkedRoot(Plug(path, s), root, NIL, g);
    if s.Node? {
      Position(path, s, root, g);
      FitsAtNode(path, s, K);
    }
  }

  /** A detached real node whose links are all NIL is a treap on its own. */
  lemma Lone(t: Tree, root: nat, g: Links, K: seq<int>, Pr: seq<int>, n: nat)
    requires Represents(t, root, g, K, Pr) && IsSlot(g, n)
    requires g.left[n] == NIL && g.right[n] == NIL && g.parent[n] == NIL
    ensures var u := Node(Nil, n, Nil);
      Represents(u, n, g, K, Pr) && Ordered(u, K) && Heap(u, Pr) && Inorder(u) == [n]
  {
  }

  /** The links just before the successor `m` replaces `n`: when `m` is not
      `n`'s right child (`detach`), it has given way to its own right child
      and taken over `n`'s right subtree. */
  ghost function BeforePromotion(g: Links, n: nat, m: nat, detach: bool): (h: Links)
    ensures |h.left| == |g.left| && |h.right| == |g.right| && |h.parent| == |g.parent|
  {
    if detach && m < |g.right| then TakeRight(Transplanted(g, m, g.right[m]), n, m) else g
  }

  /** Deleting a node `s.id` with two children: its successor `u.id` sits at
      the bottom of the left spine `spine` of the right subtree. The links
      after the successor has taken the node's place represent the tree with
      the successor there; the node is out of the tree with its own links
      untouched, and heap order can be broken only at the successor. */
  lemma SuccessorShape(path: Path, s: Tree, spine: Path, u: Tree, root: nat, g: Links, K: seq<int>, Pr: seq<int>)
    requires Represents(Plug(path, s), root, g, K, Pr) && Ordered(Plug(path, s), K) && Heap(Plug(path, s), Pr)
    requires s.Node? && s.left.Node? && s.right == Plug(spine, u) && LeftSpine(spine) && u.Node? && u.left == Nil
    ensures IsSlot(g, s.id) && IsSlot(g, u.id) && s.id != u.id
    ensures g.right[u.id] < |g.parent| && g.parent[u.id] != NIL && g.parent[u.id] < |g.left| && g.parent[u.id] < |g.right|
    ensures (g.parent[u.id] == s.id <==> spine == []) && (g.parent[s.id] == NIL <==> path == [])
    ensures spine != [] ==> Transplanted(g, u.id, g.right[u.id]).right[s.id] < |g.parent|
    ensures var g2 := BeforePromotion(g, s.id, u.id, spine != []);
      IsSlot(g2, s.id) && g2.parent[s.id] == g.parent[s.id] && g.parent[s.id] < |g.left| && g.parent[s.id] < |g.right| &&
      Transplanted(g2, s.id, u.id).left[s.id] < |g.parent|
    ensures var c, h := Node(s.left, u.id, Plug(spine, u.right)), Promoted(BeforePromotion(g, s.id, u.id, spine != []), s.id, u.id);
      Represents(Plug(path, c), if path == [] then u.id else root, h, K, Pr) &&
      IsSlot(h, s.id) && h.left[s.id] == g.left[s.id] && h.right[s.id] == g.right[s.id] && h.parent[s.id] == g.parent[s.id]
    ensures var c := Node(s.left, u.id, Plug(spine, u.right));
      Ordered(Plug(path, c), K) && Sinking(path, c, Pr) && Inorder(c) == Inorder(s.left) + Inorder(s.right) &&
      s.id !in Nodes(Plug(path, c))
  {
    SuccessorSite(path, s, spine, u, root, g);
    SuccessorOrder(path, s, spine, u, K, Pr);
    if spine != [] {
      DetachedSuccessor(path, s, spine, u, root, g);
    } else {
      AdjacentSuccessor(path, s, root, g);
    }
  }

  /** Tree-level effect of promoting the successor. */
  lemma SuccessorOrder(path: Path, s: Tree, spine: Path, u: Tree, K: seq<int>, Pr: seq<int>)
    requires Unique(Plug(path, s)) && Ordered(Plug(path, s), K) && Heap(Plug(path, s), Pr)
    requires s.Node? && s.left.Node? && s.right == Plug(spine, u) && LeftSpine(spine) && u.Node? && u.left == Nil
    ensures var c := Node(s.left, u.id, Plug(spine, u.right));
      Ordered(Plug(path, c), K) && Sinking(path, c, Pr) && Inorder(c) == Inorder(s.left) + Inorder(s.right) &&
      s.id !in Nodes(Plug(path, c))
  {
    var c := Node(s.left, u.id, Plug(spine, u.right));
    PromoteShape(path, s, spine, u.id, u.right, Pr);
    RemoveRoot(path, s, c, K);
    RemovedNode(path, s, c);
  }

  /** Where the node and its successor sit in the links. */
  lemma SuccessorSite(path: Path, s: Tree, spine: Path, u: Tree, root: nat, g: Links)
    requires Linked(Plug(path, s), root, NIL, g) && Unique(Plug(path, s))
    requires s.Node? && s.left.Node? && s.right == Plug(spine, u) && u.Node? && u.left == Nil
    ensures IsSlot(g, s.id) && IsSlot(g, u.id) && s.id != u.id
    ensures g.right[u.id] < |g.parent| && g.parent[u.id] != NIL && g.parent[u.id] < |g.left| && g.parent[u.id] < |g.right|
    ensures (g.parent[u.id] == s.id <==> spine == []) && (g.parent[s.id] == NIL <==> path == [])
    ensures g.parent[s.id] < |g.left| && g.parent[s.id] < |g.right|
  {
    var P := spine + ([HoleRight(s.id, s.left)] + path);
    SuccessorPlace(path, s, spine, u);
    Site(P, u, root, g);
    Site(path, s, root, g);
  }

  lemma DetachedSuccessor(path: Path, s: Tree, spine: Path, u: Tree, root: nat, g: Links)
    requires Linked(Plug(path, s), root, NIL, g) && Unique(Plug(path, s))
    requires s.Node? && s.left.Node? && s.right == Plug(spine, u) && spine != [] && u.Node? && u.left == Nil
    ensures IsSlot(g, s.id) && IsSlot(g, u.id)
    ensures Transplanted(g, u.id, g.right[u.id]).right[s.id] < |g.parent|
    ensures var g2 := BeforePromotion(g, s.id, u.id, true);
      IsSlot(g2, s.id) && g2.parent[s.id] == g.parent[s.id] && Transplanted(g2, s.id, u.id).left[s.id] < |g.parent|
    ensures var c, h := Node(s.left, u.id, Plug(spine, u.right)), Promoted(BeforePromotion(g, s.id, u.id, true), s.id, u.id);
      Linked(Plug(path, c), if path == [] then u.id else root, NIL, h) && Unique(Plug(path, c)) &&
      IsSlot(h, s.id) && h.left[s.id] == g.left[s.id] && h.right[s.id] == g.right[s.id] && h.parent[s.id] == g.parent[s.id]
  {
    var n, m, mr := s.id, u.id, u.right;
    SuccessorLeaves(path, s, spine, u, root, g);
    var g1 := Transplanted(g, m, g.right[m]);
    var s1 := Node(s.left, n, Plug(spine, mr));
    Site(path, s1, root, g1);
    SubstituteLinks(path, s1, m, root, g1);
    PlugNodes(path, s1);
    assert s1.right.id in Nodes(s1);
    TakeRightFacts(g1, n, m, g1.right[n]);
    var g2 := TakeRight(g1, n, m);
    var q := g.parent[n];
    if q != NIL {
      assert q in PathNodes(path);
    }
    TransplantedFacts(g2, n, m, q);
  }

  /** A successor below the node's right child first gives way to its own
      right child; the node's own links stay as they were. */
  lemma SuccessorLeaves(path: Path, s: Tree, spine: Path, u: Tree, root: nat, g: Links)
    requires Linked(Plug(path, s), root, NIL, g) && Unique(Plug(path, s))
    requires s.Node? && s.left.Node? && s.right == Plug(spine, u) && spine != [] && u.Node? && u.left == Nil
    ensures IsSlot(g, s.id) && IsSlot(g, u.id) && g.right[u.id] < |g.parent|
    ensures var g1, s1 := Transplanted(g, u.id, g.right[u.id]), Node(s.left, s.id, Plug(spine, u.right));
      Linked(Plug(path, s1), root, NIL, g1) && Unique(Plug(path, s1)) && s1.right.Node? &&
      IsSlot(g1, u.id) && u.id !in Nodes(Plug(path, s1)) && IsSlot(g1, s.id) &&
      g1.left[s.id] == g.left[s.id] && g1.right[s.id] == g.right[s.id] && g1.parent[s.id] == g.parent[s.id]
  {
    var n, m, mr := s.id, u.id, u.right;
    var P := spine + ([HoleRight(n, s.left)] + path);
    SuccessorPlace(path, s, spine, u);
    Site(path, s, root, g);
    SpliceLinks(P, u, root, g);
    if mr.Node? {
      assert mr.id in Nodes(u);
    }
  }

  lemma AdjacentSuccessor(path: Path, s: Tree, root: nat, g: Links)
    requires Linked(Plug(path, s), root, NIL, g) && Unique(Plug(path, s))
    requires s.Node? && s.left.Node? && s.right.Node? && s.right.left == Nil
    ensures IsSlot(g, s.id) && g.parent[s.id] < |g.left| && g.parent[s.id] < |g.right|
    ensures Transplanted(g, s.id, s.right.id).left[s.id] < |g.parent|
    ensures var c, h := Node(s.left, s.right.id, s.right.right), Promoted(g, s.id, s.right.id);
      Linked(Plug(path, c), if path == [] then s.right.id else root, NIL, h) && Unique(Plug(path, c)) &&
      IsSlot(h, s.id) && h.left[s.id] == g.left[s.id] && h.right[s.id] == g.right[s.id] && h.parent[s.id] == g.parent[s.id]
  {
    Site(path, s, root, g);
    PromoteLinks(path, s, root, g);
    TransplantedFacts(g, s.id, s.right.id, g.parent[s.id]);
  }

  class Treap {
    var root: nat
    var left: seq<nat>
    var right: seq<nat>
    var parent: seq<nat>
    var key: seq<int>
    var priority: seq<int>
    ghost var tree: Tree

    ghost function Arena(): Links
      reads this
    {
      Links(left, right, parent)
    }

    /** The links represent `tree`, and every real priority is a natural. */
    ghost predicate Shaped()
      reads this
    {
      Represents(tree, root, Arena(), key, priority)
    }

    /** The treap invariants. */
    ghost predicate Valid()
      reads this
    {
      Shaped() && Ordered(tree, key) && Heap(tree, priority)
    }

    /** The in-order node sequence of the treap. */
    ghost function Contents(): seq<nat>
      reads this
    {
      Inorder(tree)
    }

    constructor ()
      ensures Valid() && Contents() == [] && root == NIL
    {
      root := NIL;
      left, right, parent := [NIL], [NIL], [NIL];
      key, priority := [0], [-1];
      tree := Nil;
    }

    /** The priority read through a link equals the abstract priority. */
    lemma PriorityRead(t: Tree, x: nat, p: nat)
      requires Shaped() && Linked(t, x, p, Arena())
      ensures x < |priority| && priority[x] == Prio(t, priority)
    {
    }

    // -------------------------------------------------------------------
    // Structural primitives (src/treap.js:190-243)

    /** Rotation to the left at `x`: its right child takes its place. */
    method RotateLeft(x: nat, ghost path: Path, ghost s: Tree)
      requires Shaped() && tree == Plug(path, s) && s.Node? && s.id == x && s.right.Node?
      modifies this
      ensures Shaped() && tree == Plug(path, RotL(s))
      ensures key == old(key) && priority == old(priority)
      ensures SameOutside(old(Arena()), Arena(), Nodes(old(tree)))
      ensures root == (if path == [] then s.right.id else old(root))
      ensures Contents() == old(Contents())
    {
      ghost var g := Arena();
      RotateLeftShape(path, s, root, g, key, priority);
      RelinkLeft(x);
      tree := Plug(path, RotL(s));
    }

    /** The link edits of `_rotateLeft` at `x`. */
    method RelinkLeft(x: nat)
      requires IsSlot(Arena(), x) && IsSlot(Arena(), right[x]) && left[right[x]] < |parent|
      requires right[x] != x && left[right[x]] != x
      requires parent[x] < |left| && parent[x] < |right|
      modifies this
      ensures Arena() == RotatedLeft(old(Arena()), x)
      ensures root == (if old(parent[x]) == NIL then old(right[x]) else old(root))
      ensures key == old(key) && priority == old(priority) && tree == old(tree)
    {
      ghost var g := Arena();
      var child := right[x];
      right := right[x := left[child]];
      if left[child] != NIL {
        parent := parent[left[child] := x];
      }
      parent := parent[child := parent[x]];
      if parent[x] == NIL {
        root := child;
      } else if x == left[parent[x]] {
        left := left[parent[x] := child];
      } else {
        right := right[parent[x] := child];
      }
      left := left[child := x];
      parent := parent[x := child];
      assert Arena() == RotatedLeft(g, x);
    }

    /** Rotation to the right at `x`: its left child takes its place. */
    method RotateRight(x: nat, ghost path: Path, ghost s: Tree)
      requires Shaped() && tree == Plug(path, s) && s.Node? && s.id == x && s.left.Node?
      modifies this
      ensures Shaped() && tree == Plug(path, RotR(s))
      ensures key == old(key) && priority == old(priority)
      ensures SameOutside(old(Arena()), Arena(), Nodes(old(tree)))
      ensures root == (if path == [] then s.left.id else old(root))
      ensures Contents() == old(Contents())
    {
      ghost var g := Arena();
      RotateRightShape(path, s, root, g, key, priority);
      RelinkRight(x);
      tree := Plug(path, RotR(s));
    }

    /** The link edits of `_rotateRight` at `x`. */
    method RelinkRight(x: nat)
      requires IsSlot(Arena(), x) && IsSlot(Arena(), left[x]) && right[left[x]] < |parent|
      requires left[x] != x && right[left[x]] != x
      requires parent[x] < |left| && parent[x] < |right|
      modifies this
      ensures Arena() == RotatedRight(old(Arena()), x)
      ensures root == (if old(parent[x]) == NIL then old(left[x]) else old(root))
      ensures key == old(key) && priority == old(priority) && tree == old(tree)
    {
      ghost var g := Arena();
      var child := left[x];
      left := left[x := right[child]];
      if right[child] != NIL {
        parent := parent[right[child] := x];
      }
      parent := parent[child := parent[x]];
      if parent[x] == NIL {
        root := child;
      } else if x == left[parent[x]] {
        left := left[parent[x] := child];
      } else {
        right := right[parent[x] := child];
      }
      right := right[child := x];
      parent := parent[x := child];
      assert Arena() == RotatedRight(g, x);
    }

    // -------------------------------------------------------------------
    // Heap repair (src/treap.js:173-181)

    /** Lifts node `n` by rotations while it outranks its parent. */
    method HeapFixUp(n: nat, ghost path: Path, ghost s: Tree)
      requires Shaped() && Ordered(tree, key) && tree == Plug(path, s) && s.Node? && s.id == n
      requires Rising(path, s, priority)
      modifies this
      ensures Valid() && Contents() == old(Contents())
      ensures key == old(key) && priority == old(priority)
    {
      ghost var p, t := path, s;
      Position(p, t, root, Arena());
      while n != root && priority[n] > priority[parent[n]]
        invariant Shaped() && Ordered(tree, key) && tree == Plug(p, t) && t.Node? && t.id == n
        invariant Rising(p, t, priority)
        invariant IsSlot(Arena(), n) && parent[n] == ParentId(p) && (root == n <==> p == [])
        invariant p != [] ==> IsSlot(Arena(), p[0].id) && (p[0].HoleLeft? <==> left[p[0].id] == n)
        invariant Contents() == old(Contents()) && key == old(key) && priority == old(priority)
        decreases |p|
      {
        p, t := RiseOnce(n, p, t);
      }
      RiseDone(p, t, priority);
    }

    /** The body of the loop of `_heapFixUp`: one rotation at `n`'s parent
        lifts `n` one level. */
    method RiseOnce(n: nat, ghost p: Path, ghost t: Tree) returns (ghost p': Path, ghost t': Tree)
      requires Shaped() && Ordered(tree, key) && tree == Plug(p, t) && t.Node? && t.id == n
      requires Rising(p, t, priority)
      requires IsSlot(Arena(), n) && parent[n] == ParentId(p) && root != n && p != []
      requires IsSlot(Arena(), p[0].id) && (p[0].HoleLeft? <==> left[p[0].id] == n)
      requires priority[n] > priority[parent[n]]
      modifies this
      ensures Shaped() && Ordered(tree, key) && tree == Plug(p', t') && t'.Node? && t'.id == n
      ensures Rising(p', t', priority) && |p'| < |p|
      ensures IsSlot(Arena(), n) && parent[n] == ParentId(p') && (root == n <==> p' == [])
      ensures p' != [] ==> IsSlot(Arena(), p'[0].id) && (p'[0].HoleLeft? <==> left[p'[0].id] == n)
      ensures Contents() == old(Contents()) && key == old(key) && priority == old(priority)
    {
      RiseStep(p, t, priority);
      ghost var lifted := Lifted(p[0], t);
      if n == left[parent[n]] {
        RotateRight(parent[n], p[1..], Fill(p[0], t));
      } else {
        RotateLeft(parent[n], p[1..], Fill(p[0], t));
      }
      p', t' := p[1..], lifted;
      Position(p', t', root, Arena());
    }

    // -------------------------------------------------------------------
    // Plain BST insertion (src/treap.js:245-264)

    /** Inserts the detached node `n` as a leaf below `start`, the root of
        `sub` at position `path`: the descent goes left on a smaller key and
        right otherwise. The caller vouches that `n`'s key fits at `path`. */
    method TreeInsert(start: nat, n: nat, ghost path: Path, ghost sub: Tree) returns (ghost leaf: Path)
      requires Shaped() && Ordered(tree, key)
      requires tree == Plug(path, sub) && RootId(sub) == start && (start == NIL ==> path == [])
      requires NIL < n < |left| && n !in Nodes(tree) && left[n] == NIL && right[n] == NIL
      requires Fits(path, key[n], key)
      modifies this
      ensures Shaped() && Ordered(tree, key) && key == old(key) && priority == old(priority)
      ensures Plug(leaf, Nil) == old(tree) && tree == Plug(leaf, Node(Nil, n, Nil))
      ensures old(Contents()) == Pre(leaf) + Post(leaf) && Contents() == Pre(leaf) + [n] + Post(leaf)
      ensures AtMost(Pre(leaf), key[n], key)
      ensures path == [] ==> Above(Post(leaf), key[n], key)
    {
      ghost var g, K, T := Arena(), key, tree;
      var p := NIL;
      var cur := start;
      ghost var down: Path := [];
      ghost var t := sub;
      var k := key[n];
      assert down + path == path;
      while cur != NIL
        invariant Linked(T, root, NIL, g) && Unique(T) && Ordered(T, K)
        invariant T == Plug(down + path, t) && RootId(t) == cur
        invariant Fits(down + path, k, K)
        invariant p == ParentId(down) && (down == [] ==> cur == start)
        invariant down != [] ==> (down[0].HoleLeft? <==> k < KeyAt(K, p))
        invariant path == [] ==> Above(Post(down), k, K)
        invariant left == g.left && right == g.right && key == K
        modifies {}
        decreases t
      {
        ChildLinks(down + path, t, root, g);
        ghost var f := DescendFrame(t, k, K);
        DescendInsert(down, path, t, k, K);
        p := cur;
        if k < key[cur] {
          t, cur := t.left, left[cur];
        } else {
          t, cur := t.right, right[cur];
        }
        down := [f] + down;
      }
      Decompose(down + path, t, root, g);
      assert t == Nil;
      leaf := down + path;
      if path == [] {
        assert leaf == down;
      }
      PlugNilInorder(leaf);
      AttachAt(p, n, leaf);
    }

    /** The attaching half of `TreeInsert`: hangs `n` below `p`, where the
        descent ended, on the side its key selects; NIL makes `n` the root. */
    method AttachAt(p: nat, n: nat, ghost leaf: Path)
      requires Shaped() && Ordered(tree, key) && tree == Plug(leaf, Nil) && ParentId(leaf) == p
      requires NIL < n < |left| && n !in Nodes(tree) && left[n] == NIL && right[n] == NIL
      requires leaf != [] ==> (leaf[0].HoleLeft? <==> KeyAt(key, n) < KeyAt(key, p))
      requires Fits(leaf, KeyAt(key, n), key)
      modifies this
      ensures Shaped() && Ordered(tree, key) && key == old(key) && priority == old(priority)
      ensures tree == Plug(leaf, Node(Nil, n, Nil)) && Contents() == Pre(leaf) + [n] + Post(leaf)
    {
      ghost var g := Arena();
      AttachLeaf(leaf, n, root, g, key, KeyAt(key, n) < KeyAt(key, p));
      ghost var h := Attached(g, p, n, KeyAt(key, n) < KeyAt(key, p));
      parent := parent[n := p];
      if p == NIL {
        root := n;
      } else if key[n] < key[p] {
        left := left[p := n];
      } else {
        right := right[p := n];
      }
      assert Arena() == h;
      tree := Plug(leaf, Node(Nil, n, Nil));
    }
    // -------------------------------------------------------------------
    // Cursor walks (src/treap.js:20-40, 118-141)

    /** The leftmost node below `x`: the first node of its subtree in
        in-order, reached along a left spine. The sentinel's links are null
        in the source, so a walk started at NIL throws. */
    method TreeMin(x: nat, ghost path: Path, ghost s: Tree) returns (r: Result<nat>, ghost spine: Path, ghost u: Tree)
      requires Shaped() && tree == Plug(path, s) && RootId(s) == x
      ensures x == NIL ==> r == Failure(TypeError)
      ensures x != NIL ==> r.Success? && Inorder(s) != [] && r.value == Inorder(s)[0]
      ensures r.Success? ==> LeftSpine(spine) && s == Plug(spine, u) && u.Node? && u.id == r.value && u.left == Nil
    {
      if x == NIL {
        return Failure(TypeError), [], Nil;
      }
      Decompose(path, s, root, Arena());
      var cur := x;
      spine, u := [], s;
      assert spine + path == path;
      ChildLinks(spine + path, u, root, Arena());
      while left[cur] != NIL
        invariant LeftSpine(spine) && s == Plug(spine, u) && u.Node? && u.id == cur
        invariant tree == Plug(spine + path, u)
        invariant IsSlot(Arena(), cur) && left[cur] == RootId(u.left) && (u.left == Nil <==> left[cur] == NIL)
        decreases u
      {
        SpineLeft(spine, u);
        PlugPush(HoleLeft(u.id, u.right), spine, path, u.left);
        spine := [HoleLeft(u.id, u.right)] + spine;
        cur := left[cur];
        u := u.left;
        ChildLinks(spine + path, u, root, Arena());
      }
      LeftmostFirst(spine, u);
      r := Success(cur);
    }

    /** The rightmost node below `x`: the last node of its subtree in in-order. */
    method TreeMax(x: nat, ghost path: Path, ghost s: Tree) returns (r: Result<nat>, ghost spine: Path, ghost u: Tree)
      requires Shaped() && tree == Plug(path, s) && RootId(s) == x
      ensures x == NIL ==> r == Failure(TypeError)
      ensures x != NIL ==> r.Success? && Inorder(s) != [] && r.value == Last(Inorder(s))
      ensures r.Success? ==> RightSpine(spine) && s == Plug(spine, u) && u.Node? && u.id == r.value && u.right == Nil
    {
      if x == NIL {
        return Failure(TypeError), [], Nil;
      }
      Decompose(path, s, root, Arena());
      var cur := x;
      spine, u := [], s;
      assert spine + path == path;
      ChildLinks(spine + path, u, root, Arena());
      while right[cur] != NIL
        invariant RightSpine(spine) && s == Plug(spine, u) && u.Node? && u.id == cur
        invariant tree == Plug(spine + path, u)
        invariant IsSlot(Arena(), cur) && right[cur] == RootId(u.right) && (u.right == Nil <==> right[cur] == NIL)
        decreases u
      {
        SpineRight(spine, u);
        PlugPush(HoleRight(u.id, u.left), spine, path, u.right);
        spine := [HoleRight(u.id, u.left)] + spine;
        cur := right[cur];
        u := u.right;
        ChildLinks(spine + path, u, root, Arena());
      }
      RightmostLast(spine, u);
      r := Success(cur);
    }

    /** The node after the `i`-th node `x` in in-order, NIL after the last. */
    method TreeSuccessor(x: nat, ghost i: nat) returns (r: Result<nat>)
      requires Shaped() && (x == NIL || (i < |Contents()| && Contents()[i] == x))
      ensures x == NIL ==> r == Failure(TypeError)
      ensures x != NIL ==> r == Success(if i + 1 < |Contents()| then Contents()[i + 1] else NIL)
    {
      if x == NIL {
        // NIL.right is null, so the source calls treeMin(null), which throws.
        return Failure(TypeError);
      }
      ghost var path, s := Where(tree, i);
      Position(path, s, root, Arena());
      ChildLinks(path, s, root, Arena());
      if right[x] != NIL {
        PlugPush(HoleRight(x, s.left), path, [], s.right);
        NextBelow(path, s);
        ghost var spine, u;
        r, spine, u := TreeMin(right[x], [HoleRight(x, s.left)] + path, s.right);
        return;
      }
      r := AscendRight(x, i, path, s);
    }

    /** The upward half of `treeSuccessor` from a node `x` without a right
        child: climbs while coming from a right child; the parent reached
        then follows `x` in in-order. */
    method AscendRight(x: nat, ghost i: nat, ghost path: Path, ghost s: Tree) returns (r: Result<nat>)
      requires Shaped() && i < |Contents()| && Contents()[i] == x
      requires tree == Plug(path, s) && s.Node? && s.id == x && s.right == Nil
      requires |Pre(path)| + |Inorder(s.left)| == i
      ensures r == Success(if i + 1 < |Contents()| then Contents()[i + 1] else NIL)
    {
      Position(path, s, root, Arena());
      var cur, up := x, parent[x];
      ghost var p, t := path, s;
      assert Inorder(t) == Inorder(s.left) + [x];
      while up != NIL && cur == right[up]
        invariant p != [] ==> IsSlot(Arena(), up) && (p[0].HoleRight? <==> right[up] == cur)
        invariant tree == Plug(p, t) && t.Node? && t.id == cur && up == ParentId(p)
        invariant |Pre(p)| + |Inorder(t)| == i + 1 && Last(Inorder(t)) == x
        decreases |p|
      {
        UpFromRight(p, t);
        t, p := Fill(p[0], t), p[1..];
        Position(p, t, root, Arena());
        cur, up := up, parent[up];
      }
      if up != NIL {
        NextAbove(p, t);
      }
      r := Success(up);
    }

    /** The node before the `i`-th node `x` in in-order, NIL before the first. */
    method TreePredecessor(x: nat, ghost i: nat) returns (r: Result<nat>)
      requires Shaped() && (x == NIL || (i < |Contents()| && Contents()[i] == x))
      ensures x == NIL ==> r == Failure(TypeError)
      ensures x != NIL ==> r == Success(if i > 0 then Contents()[i - 1] else NIL)
    {
      if x == NIL {
        // NIL.left is null, so the source calls treeMax(null), which throws.
        return Failure(TypeError);
      }
      ghost var path, s := Where(tree, i);
      Position(path, s, root, Arena());
      ChildLinks(path, s, root, Arena());
      if left[x] != NIL {
        PlugPush(HoleLeft(x, s.right), path, [], s.left);
        PrevBelow(path, s);
        ghost var spine, u;
        r, spine, u := TreeMax(left[x], [HoleLeft(x, s.right)] + path, s.left);
        return;
      }
      r := AscendLeft(x, i, path, s);
    }

    /** The upward half of `treePredecessor` from a node `x` without a left
        child: climbs while coming from a left child; the parent reached
        then precedes `x` in in-order. */
    method AscendLeft(x: nat, ghost i: nat, ghost path: Path, ghost s: Tree) returns (r: Result<nat>)
      requires Shaped() && i < |Contents()| && Contents()[i] == x
      requires tree == Plug(path, s) && s.Node? && s.id == x && s.left == Nil
      requires |Pre(path)| + |Inorder(s.left)| == i
      ensures r == Success(if i > 0 then Contents()[i - 1] else NIL)
    {
      Position(path, s, root, Arena());
      var cur, up := x, parent[x];
      ghost var p, t := path, s;
      assert Inorder(t) == [x] + Inorder(s.right);
      while up != NIL && cur == left[up]
        invariant p != [] ==> IsSlot(Arena(), up) && (p[0].HoleLeft? <==> left[up] == cur)
        invariant tree == Plug(p, t) && t.Node? && t.id == cur && up == ParentId(p)
        invariant |Pre(p)| == i && Inorder(t)[0] == x
        decreases |p|
      {
        UpFromLeft(p, t);
        t, p := Fill(p[0], t), p[1..];
        Position(p, t, root, Arena());
        cur, up := up, parent[up];
      }
      if up != NIL {
        PrevAbove(p, t);
      }
      r := Success(up);
    }

    /** Searches below `start` for a node with key `k`, going left on a
        smaller key and right otherwise; NIL when the subtree has no such key. */
    method TreeFind(start: nat, k: int, ghost path: Path, ghost sub: Tree) returns (x: nat)
      requires Shaped() && Ordered(tree, key) && tree == Plug(path, sub) && RootId(sub) == start
      ensures x == NIL <==> KeyAbsent(Nodes(sub), k, key)
      ensures x != NIL ==> x in Nodes(sub) && x < |key| && key[x] == k
    {
      Decompose(path, sub, root, Arena());
      ghost var p, t := path, sub;
      x := start;
      while x != NIL && key[x] != k
        invariant tree == Plug(p, t) && RootId(t) == x && Nodes(t) <= Nodes(sub)
        invariant KeyAbsent(Nodes(t), k, key) ==> KeyAbsent(Nodes(sub), k, key)
        invariant x != NIL ==> t.Node? && IsSlot(Arena(), x)
        decreases t
      {
        ChildLinks(p, t, root, Arena());
        SearchSkips(p, t, k, key);
        if k < key[x] {
          PlugPush(HoleLeft(x, t.right), p, [], t.left);
          p, t := [HoleLeft(x, t.right)] + p, t.left;
          x := left[x];
        } else {
          PlugPush(HoleRight(x, t.left), p, [], t.right);
          p, t := [HoleRight(x, t.left)] + p, t.right;
          x := right[x];
        }
      }
    }

    // -------------------------------------------------------------------
    // Deletion (src/treap.js:190-201, 271-306)

    /** `_transplant(u, v)`: `v` takes `u`'s place under `u`'s parent, or as
        the root, and `v`'s parent link becomes `u`'s even when `v` is NIL.
        The caller restores the treap invariants. */
    method Transplant(u: nat, v: nat)
      requires IsSlot(Arena(), u) && v < |parent| && parent[u] < |left| && parent[u] < |right|
      modifies this
      ensures Arena() == Transplanted(old(Arena()), u, v)
      ensures root == (if old(parent[u]) == NIL then v else old(root))
      ensures key == old(key) && priority == old(priority) && tree == old(tree)
    {
      if parent[u] == NIL {
        root := v;
      } else if u == left[parent[u]] {
        left := left[parent[u] := v];
      } else {
        right := right[parent[u] := v];
      }
      parent := parent[v := parent[u]];
    }

    /** The priorities of a node and of its children, read through the links. */
    lemma ChildPriorities(path: Path, s: Tree)
      requires Shaped() && tree == Plug(path, s) && s.Node?
      ensures IsSlot(Arena(), s.id) && priority[s.id] == PriAt(priority, s.id) && priority[s.id] >= 0
      ensures left[s.id] < |priority| && right[s.id] < |priority|
      ensures priority[left[s.id]] == Prio(s.left, priority) && priority[right[s.id]] == Prio(s.right, priority)
      ensures Prio(s.left, priority) >= -1 && Prio(s.right, priority) >= -1
    {
      Site(path, s, root, Arena());
    }

    /** One step of the sink: the child of higher priority is lifted above
        `x` by a rotation at `x`, and `x` moves one level down, into frame
        `f` below its former position. */
    method SinkStep(x: nat, ghost P: Path, ghost u: Tree) returns (ghost f: Frame, ghost u': Tree)
      requires Shaped() && Ordered(tree, key) && tree == Plug(P, u) && u.Node? && u.id == x
      requires Sinking(P, u, priority)
      requires IsSlot(Arena(), x) && priority[x] == PriAt(priority, x) && priority[x] >= 0
      requires left[x] < |priority| && right[x] < |priority|
      requires priority[left[x]] == Prio(u.left, priority) && priority[right[x]] == Prio(u.right, priority)
      requires Prio(u.left, priority) >= -1 && Prio(u.right, priority) >= -1
      requires priority[x] < priority[left[x]] || priority[x] < priority[right[x]]
      modifies this
      ensures Shaped() && Ordered(tree, key) && key == old(key) && priority == old(priority)
      ensures tree == Plug([f] + P, u') && u'.Node? && u'.id == x && Sinking([f] + P, u', priority)
      ensures Inorder(Fill(f, u')) == Inorder(u) && |Inorder(u')| < |Inorder(u)|
      ensures Nodes(tree) == Nodes(old(tree)) && SameOutside(old(Arena()), Arena(), Nodes(old(tree)))
    {
      f, u' := SinkMove(P, u, priority);
      if priority[left[x]] > priority[right[x]] {
        RotateRight(x, P, u);
      } else {
        RotateLeft(x, P, u);
      }
      PlugPush(f, P, [], u');
      SameNodes(tree, old(tree));
    }

    /** Sinks node `x` by rotations while a child outranks it, lifting the
        child of higher priority each time. */
    method SinkDown(x: nat, ghost path: Path, ghost s: Tree) returns (ghost t: Tree)
      requires Shaped() && Ordered(tree, key) && tree == Plug(path, s) && s.Node? && s.id == x
      requires Sinking(path, s, priority)
      modifies this
      ensures Valid() && tree == Plug(path, t) && Inorder(t) == Inorder(s) && Nodes(tree) == Nodes(old(tree))
      ensures key == old(key) && priority == old(priority)
      ensures SameOutside(old(Arena()), Arena(), Nodes(old(tree)))
    {
      ghost var down: Path, u := [], s;
      ChildPriorities(path, s);
      assert [] + path == path;
      while priority[x] < priority[left[x]] || priority[x] < priority[right[x]]
        invariant Shaped() && Ordered(tree, key) && key == old(key) && priority == old(priority)
        invariant tree == Plug(down + path, u) && u.Node? && u.id == x && Sinking(down + path, u, priority)
        invariant Inorder(Plug(down, u)) == Inorder(s) && Nodes(tree) == Nodes(old(tree))
        invariant SameOutside(old(Arena()), Arena(), Nodes(old(tree)))
        invariant IsSlot(Arena(), x) && priority[x] == PriAt(priority, x) && priority[x] >= 0
        invariant left[x] < |priority| && right[x] < |priority|
        invariant priority[left[x]] == Prio(u.left, priority) && priority[right[x]] == Prio(u.right, priority)
        invariant Prio(u.left, priority) >= -1 && Prio(u.right, priority) >= -1
        decreases |Inorder(u)|
      {
        ghost var g := Arena();
        ghost var f, u' := SinkStep(x, down + path, u);
        PathAssoc([f], down, path);
        PlugPush(f, down, [], u');
        PlugSameInorder(down, Fill(f, u'), u);
        down, u := [f] + down, u';
        SameOutsideTrans(old(Arena()), g, Arena(), Nodes(old(tree)));
        ChildPriorities(down + path, u);
      }
      SinkDone(down + path, u, priority);
      PlugConcat(down, path, u);
      t := Plug(down, u);
    }

    /** `_treapDelete`: removes `n` from the tree. With at most one child,
        the child takes its place; with two, its in-order successor does and
        then sinks by rotations until heap order is back. The node keeps its
        slot and its parent link, and its child links become NIL. */
    method TreapDelete(n: nat, ghost path: Path, ghost s: Tree) returns (ghost t: Tree)
      requires Valid() && tree == Plug(path, s) && s.Node? && s.id == n
      modifies this
      ensures Valid() && tree == Plug(path, t) && Inorder(t) == Inorder(s.left) + Inorder(s.right)
      ensures var a, b := Pre(path) + Inorder(s.left), Inorder(s.right) + Post(path);
        old(Contents()) == a + [n] + b && Contents() == a + b
      ensures key == old(key) && priority == old(priority)
      ensures IsSlot(Arena(), n) && n !in Nodes(tree)
      ensures left[n] == NIL && right[n] == NIL && parent[n] == old(parent[n])
    {
      Site(path, s, root, Arena());
      if left[n] == NIL || right[n] == NIL {
        t := SpliceOut(n, path, s);
      } else {
        t := SuccessorOut(n, path, s);
      }
      RemoveRoot(path, s, t, key);
      ClearLinks(n);
    }

    /** The last case of `_treapDelete`: `n` has two children; its successor
        takes its place and sinks back into heap order. */
    method SuccessorOut(n: nat, ghost path: Path, ghost s: Tree) returns (ghost t: Tree)
      requires Valid() && tree == Plug(path, s) && s.Node? && s.id == n && s.left.Node? && s.right.Node?
      modifies this
      ensures Valid() && tree == Plug(path, t) && Inorder(t) == Inorder(s.left) + Inorder(s.right)
      ensures key == old(key) && priority == old(priority)
      ensures IsSlot(Arena(), n) && n !in Nodes(tree)
      ensures parent[n] == old(parent[n])
    {
      var m: nat;
      ghost var c: Tree;
      m, c := PromoteSuccessor(n, path, s);
      t := SinkDown(m, path, c);
    }

    /** The first two cases of `_treapDelete`: `n` has at most one child,
        which takes its place. */
    method SpliceOut(n: nat, ghost path: Path, ghost s: Tree) returns (ghost t: Tree)
      requires Valid() && tree == Plug(path, s) && s.Node? && s.id == n && (s.left == Nil || s.right == Nil)
      modifies this
      ensures Valid() && tree == Plug(path, t) && Inorder(t) == Inorder(s.left) + Inorder(s.right)
      ensures key == old(key) && priority == old(priority)
      ensures IsSlot(Arena(), n) && n !in Nodes(tree)
      ensures left[n] == old(left[n]) && right[n] == old(right[n]) && parent[n] == old(parent[n])
    {
      SplicedOut(path, s, root, Arena(), key, priority);
      if left[n] == NIL {
        Transplant(n, right[n]);
      } else {
        Transplant(n, left[n]);
      }
      t := if s.left == Nil then s.right else s.left;
      tree := Plug(path, t);
    }

    /** The end of `_treapDelete`: the removed node's child links become NIL. */
    method ClearLinks(n: nat)
      requires Shaped() && IsSlot(Arena(), n) && n !in Nodes(tree)
      modifies this
      ensures Shaped() && tree == old(tree) && root == old(root) && key == old(key) && priority == old(priority)
      ensures SameOutside(old(Arena()), Arena(), {n}) && IsSlot(Arena(), n)
      ensures left[n] == NIL && right[n] == NIL && parent[n] == old(parent[n])
    {
      ghost var g := Arena();
      left := left[n := NIL];
      right := right[n := NIL];
      DetachLinks(tree, root, g, Arena(), n);
    }

    /** Puts the in-order successor `m` of `n`, the minimum of `n`'s right
        subtree, in `n`'s place: when `m` is not `n`'s right child it first
        gives way to its own right child and adopts `n`'s right subtree; then
        it replaces `n` and adopts `n`'s left subtree. Heap order may then be
        broken at `m`'s new place only. */
    method PromoteSuccessor(n: nat, ghost path: Path, ghost s: Tree) returns (m: nat, ghost c: Tree)
      requires Valid() && tree == Plug(path, s) && s.Node? && s.id == n && s.left.Node? && s.right.Node?
      modifies this
      ensures Shaped() && Ordered(tree, key) && tree == Plug(path, c) && c.Node? && c.id == m
      ensures Sinking(path, c, priority) && Inorder(c) == Inorder(s.left) + Inorder(s.right)
      ensures key == old(key) && priority == old(priority)
      ensures IsSlot(Arena(), n) && n !in Nodes(tree)
      ensures parent[n] == old(parent[n])
    {
      ghost var g, K, Pr := Arena(), key, priority;
      ghost var spine: Path, u: Tree;
      m, spine, u := SuccessorOf(n, path, s);
      SuccessorShape(path, s, spine, u, root, g, K, Pr);
      c := Node(s.left, m, Plug(spine, u.right));
      Substitute(n, m, Plug(path, c));
    }

    /** The first step of the last case of `_treapDelete`: the successor of
        `n` is the minimum of its right subtree. */
    method SuccessorOf(n: nat, ghost path: Path, ghost s: Tree) returns (m: nat, ghost spine: Path, ghost u: Tree)
      requires Shaped() && tree == Plug(path, s) && s.Node? && s.id == n && s.right.Node?
      ensures s.right == Plug(spine, u) && LeftSpine(spine) && u.Node? && u.id == m && u.left == Nil
    {
      Site(path, s, root, Arena());
      PlugPush(HoleRight(n, s.left), path, [], s.right);
      var r: Result<nat>;
      r, spine, u := TreeMin(right[n], [HoleRight(n, s.left)] + path, s.right);
      m := r.value;
    }

    /** The link edits that put the successor `m` in `n`'s place. */
    method Substitute(n: nat, m: nat, ghost t: Tree)
      requires IsSlot(Arena(), n) && IsSlot(Arena(), m) && n != m
      requires right[m] < |parent| && parent[m] != NIL && parent[m] < |left| && parent[m] < |right|
      requires parent[m] != n ==> Transplanted(Arena(), m, right[m]).right[n] < |parent|
      requires var g2 := BeforePromotion(Arena(), n, m, parent[m] != n);
        IsSlot(g2, n) && g2.parent[n] == parent[n] && parent[n] < |left| && parent[n] < |right| &&
        Transplanted(g2, n, m).left[n] < |parent|
      requires Represents(t, if parent[n] == NIL then m else root, Promoted(BeforePromotion(Arena(), n, m, parent[m] != n), n, m), key, priority)
      modifies this
      ensures Arena() == Promoted(BeforePromotion(old(Arena()), n, m, old(parent[m]) != n), n, m)
      ensures root == (if old(parent[n]) == NIL then m else old(root))
      ensures key == old(key) && priority == old(priority) && tree == t && Shaped()
    {
      ghost var g2 := Arena();
      if parent[m] != n {
        Transplant(m, right[m]);
        right := right[m := right[n]];
        parent := parent[right[m] := m];
        g2 := BeforePromotion(old(Arena()), n, m, true);
        assert Arena() == g2;
      }
      Transplant(n, m);
      left := left[m := left[n]];
      parent := parent[left[m] := m];
      assert Arena() == Promoted(g2, n, m);
      tree := t;
    }

    // -------------------------------------------------------------------
    // Public operations (src/treap.js:157-165, 315-415)

    /** What the arena says about the tree: its nodes are real slots, the
        root link points at its root, and the in-order sequence lists every
        node once, keys never decreasing. */
    lemma ContentsFacts()
      requires Valid()
      ensures RootId(tree) == root && NIL !in Nodes(tree)
      ensures forall x :: x in Contents() <==> x in Nodes(tree)
      ensures forall x :: x in Nodes(tree) ==> IsSlot(Arena(), x)
      ensures KeysSorted(Contents(), key) && Distinct(Contents()) && |Contents()| == |Nodes(tree)|
    {
      LinkedRoot(tree, root, NIL, Arena());
      LinkedSlots(tree, root, NIL, Arena());
      InorderNodes(tree);
      UniqueDistinct(tree);
    }

    /** Every entry of the in-order sequence is a real node. */
    lemma RealNodes()
      requires Valid()
      ensures forall m :: 0 <= m < |Contents()| ==> NIL < Contents()[m] < |key|
    {
      ContentsFacts();
      forall m | 0 <= m < |Contents()| ensures NIL < Contents()[m] < |key| {
        assert Contents()[m] in Contents();
      }
    }

    /** `new TreapNode(data)`: a detached node with key `k` and priority
        `prio` (drawn at random in the source) in a fresh slot. */
    method NewNode(k: int, prio: nat) returns (n: nat)
      requires Valid()
      modifies this
      ensures Valid() && tree == old(tree) && root == old(root) && n == |old(left)|
      ensures left == old(left) + [NIL] && right == old(right) + [NIL] && parent == old(parent) + [NIL]
      ensures key == old(key) + [k] && priority == old(priority) + [prio]
      ensures IsSlot(Arena(), n) && n !in Nodes(tree)
    {
      Grown(tree, root, Arena(), key, priority, k, prio);
      n := |left|;
      left, right, parent := left + [NIL], right + [NIL], parent + [NIL];
      key, priority := key + [k], priority + [prio];
    }

    /** `insert`: a payload without a key throws and changes nothing;
        otherwise a fresh node with the payload's key joins the treap right
        after the nodes whose keys are at most its own. */
    method Insert(data: Payload, prio: nat) returns (r: Result<nat>, ghost i: nat)
      requires Valid()
      modifies this
      ensures Valid()
      ensures data.key.None? ==> r == Failure(MissingKey) && unchanged(this)
      ensures data.key.Some? ==> r == Success(|old(key)|) && key == old(key) + [data.key.value] && priority == old(priority) + [prio]
      ensures data.key.Some? ==> i <= |old(Contents())| && Contents() == old(Contents())[..i] + [r.value] + old(Contents())[i..]
      ensures data.key.Some? ==>
        AtMost(old(Contents())[..i], data.key.value, key) && Above(old(Contents())[i..], data.key.value, key)
    {
      if data.key.None? {
        return Failure(MissingKey), 0;
      }
      var n := NewNode(data.key.value, prio);
      ghost var C := Contents();
      LinkedRoot(tree, root, NIL, Arena());
      ghost var leaf := TreeInsert(root, n, [], tree);
      LeafRising(leaf, n, priority);
      HeapFixUp(n, leaf, Node(Nil, n, Nil));
      i := |Pre(leaf)|;
      assert C[..i] == Pre(leaf) && C[i..] == Post(leaf);
      r := Success(n);
    }

    /** `find`: a node with key `k`, NIL when there is none. */
    method Find(k: int) returns (x: nat)
      requires Valid()
      ensures x == NIL <==> KeyAbsent(Nodes(tree), k, key)
      ensures x != NIL ==> x in Nodes(tree) && x < |key| && key[x] == k
    {
      LinkedRoot(tree, root, NIL, Arena());
      x := TreeFind(root, k, [], tree);
    }

    /** `eraseNode`: NIL is ignored; a node of the treap leaves it, and the
        in-order sequence loses exactly that node. */
    method EraseNode(n: nat) returns (ghost i: nat)
      requires Valid() && (n == NIL || n in Nodes(tree))
      modifies this
      ensures Valid() && key == old(key) && priority == old(priority)
      ensures n == NIL ==> unchanged(this)
      ensures n != NIL ==>
        i < |old(Contents())| && old(Contents())[i] == n && Contents() == old(Contents())[..i] + old(Contents())[i + 1..]
      ensures n != NIL ==> n !in Nodes(tree) && IsSlot(Arena(), n) && left[n] == NIL && right[n] == NIL
    {
      i := 0;
      if n != NIL {
        ghost var path, s := Locate(tree, n);
        ghost var C := Contents();
        ghost var t := TreapDelete(n, path, s);
        i := |Pre(path) + Inorder(s.left)|;
        assert C[..i] == Pre(path) + Inorder(s.left);
        assert C[i + 1..] == Inorder(s.right) + Post(path);
      }
    }

    /** `erase`: removes one node with key `k`, if there is one. */
    method Erase(k: int) returns (ghost x: nat, ghost i: nat)
      requires Valid()
      modifies this
      ensures Valid() && key == old(key) && priority == old(priority)
      ensures x == NIL <==> KeyAbsent(Nodes(old(tree)), k, key)
      ensures x == NIL ==> unchanged(this)
      ensures x != NIL ==> x < |key| && key[x] == k
      ensures x != NIL ==>
        i < |old(Contents())| && old(Contents())[i] == x && Contents() == old(Contents())[..i] + old(Contents())[i + 1..]
    {
      var found := Find(k);
      x := found;
      i := EraseNode(found);
    }

    /** `findAndElevate`: a node with key `k` gets twice its priority and
        rises to restore heap order; NIL when there is none. */
    method FindAndElevate(k: int) returns (x: nat)
      requires Valid()
      modifies this
      ensures Valid() && key == old(key) && Contents() == old(Contents())
      ensures x == NIL <==> KeyAbsent(Nodes(old(tree)), k, key)
      ensures x == NIL ==> unchanged(this)
      ensures x != NIL ==> x in Nodes(tree) && x < |key| && key[x] == k
      ensures x != NIL ==> x < |old(priority)| && priority == old(priority)[x := 2 * old(priority)[x]]
    {
      x := Find(k);
      if x != NIL {
        Elevate(x);
      }
    }

    /** The body of `findAndElevate` once the node is found. */
    method Elevate(x: nat)
      requires Valid() && x in Nodes(tree)
      modifies this
      ensures Valid() && key == old(key) && Contents() == old(Contents()) && Nodes(tree) == Nodes(old(tree))
      ensures x < |old(priority)| && priority == old(priority)[x := 2 * old(priority)[x]]
    {
      ContentsFacts();
      ghost var path, s := Locate(tree, x);
      Elevated(path, s, root, Arena(), key, priority, 2 * priority[x]);
      priority := priority[x := 2 * priority[x]];
      HeapFixUp(x, path, s);
      SameNodes(tree, old(tree));
    }

    // -------------------------------------------------------------------
    // Changing a key (src/treap.js:331-349)

    /** `changeKey`, with the walk started at the root when `n` was the root
        (the source starts it at NIL, see `ChangeKeyAsWritten`): `n` leaves
        the treap, takes key `k` and joins it again at a place its new key
        fits, keeping its slot and its priority. */
    method ChangeKey(n: nat, k: int) returns (ghost i: nat, ghost j: nat)
      requires Valid() && n in Nodes(tree)
      modifies this
      ensures Valid() && n < |old(key)| && key == old(key)[n := k] && priority == old(priority)
      ensures i < |old(Contents())| && old(Contents())[i] == n
      ensures var rest := old(Contents())[..i] + old(Contents())[i + 1..];
        j <= |rest| && Contents() == rest[..j] + [n] + rest[j..]
    {
      var goLeft: bool;
      ghost var path: Path, t: Tree;
      goLeft, path, t, i := Unhook(n, k);
      var p := parent[n];
      ghost var pp, ps := path, t;
      if p == NIL {
        LinkedRoot(tree, root, NIL, Arena());
        p := root;
      } else {
        pp, ps := path[1..], Fill(path[0], t);
      }
      j := Reinsert(n, p, goLeft, pp, ps);
    }

    /** `changeKey` as written: when `n` was the root and other nodes remain,
        its parent is NIL, the comparison with NIL's missing key fails at
        once, and `_treeInsert(NIL, n)` makes `n` the root of a tree of its
        own; every other node is lost. Otherwise it is `ChangeKey`. */
    method ChangeKeyAsWritten(n: nat, k: int) returns (ghost i: nat, ghost j: nat)
      requires Valid() && n in Nodes(tree)
      modifies this
      ensures Valid() && n < |old(key)| && key == old(key)[n := k] && priority == old(priority)
      ensures i < |old(Contents())| && old(Contents())[i] == n
      ensures old(root) == n && |old(Contents())| >= 2 ==> Contents() == [n]
      ensures !(old(root) == n && |old(Contents())| >= 2) ==>
        var rest := old(Contents())[..i] + old(Contents())[i + 1..];
        j <= |rest| && Contents() == rest[..j] + [n] + rest[j..]
    {
      ghost var C := Contents();
      var goLeft: bool;
      ghost var path: Path, t: Tree;
      goLeft, path, t, i := Unhook(n, k);
      j := 0;
      var p := parent[n];
      LinkedRoot(tree, root, NIL, Arena());
      if p == NIL && root != NIL {
        assert |C| >= 2 by {
          assert Contents() == C[..i] + C[i + 1..] && Inorder(tree) != [];
        }
        Lone(tree, root, Arena(), key, priority, n);
        root := n;
        tree := Node(Nil, n, Nil);
        HeapFixUp(n, [], tree);
      } else {
        assert p == NIL ==> Contents() == [];
        ghost var pp, ps := path, t;
        if p != NIL {
          pp, ps := path[1..], Fill(path[0], t);
        }
        j := Reinsert(n, p, goLeft, pp, ps);
      }
    }

    /** The first half of `changeKey`: `n` leaves the treap at position
        `path`, keeping its parent link, and takes key `k`. Its new key still
        fits on the side of the hole the walk will climb from. */
    method Unhook(n: nat, k: int) returns (goLeft: bool, ghost path: Path, ghost t: Tree, ghost i: nat)
      requires Valid() && n in Nodes(tree)
      modifies this
      ensures Valid() && priority == old(priority) && n < |old(key)| && key == old(key)[n := k]
      ensures goLeft <==> k < old(key)[n]
      ensures tree == Plug(path, t) && parent[n] == ParentId(path) && (path == [] <==> old(root) == n)
      ensures parent[n] == NIL <==> path == []
      ensures goLeft ==> AtLeast(Post(path), k, key) && (path != [] ==> AtLeast(Post(path[1..]), k, key))
      ensures !goLeft ==> AtMost(Pre(path), k, key) && (path != [] ==> AtMost(Pre(path[1..]), k, key))
      ensures IsSlot(Arena(), n) && n !in Nodes(tree) && left[n] == NIL && right[n] == NIL
      ensures i < |old(Contents())| && old(Contents())[i] == n && Contents() == old(Contents())[..i] + old(Contents())[i + 1..]
    {
      path, t, i := Detach(n);
      goLeft := k < key[n];
      RekeyFits(path, key, n, k);
      SetKey(n, k);
    }

    /** `_treapDelete(node)` as `changeKey` uses it: besides the deletion,
        where `n` was and that its key fitted there. */
    method Detach(n: nat) returns (ghost path: Path, ghost t: Tree, ghost i: nat)
      requires Valid() && n in Nodes(tree)
      modifies this
      ensures Valid() && key == old(key) && priority == old(priority) && n < |key|
      ensures tree == Plug(path, t) && parent[n] == ParentId(path) && (path == [] <==> old(root) == n)
      ensures parent[n] == NIL <==> path == []
      ensures Fits(path, key[n], key) && n !in PathNodes(path)
      ensures IsSlot(Arena(), n) && n !in Nodes(tree) && left[n] == NIL && right[n] == NIL
      ensures i < |old(Contents())| && old(Contents())[i] == n && Contents() == old(Contents())[..i] + old(Contents())[i + 1..]
    {
      ghost var s: Tree;
      path, s := Locate(tree, n);
      DeleteSite(path, s, root, Arena(), key, priority);
      ghost var C := Contents();
      t := TreapDelete(n, path, s);
      i := |Pre(path) + Inorder(s.left)|;
      assert C[..i] == Pre(path) + Inorder(s.left);
      assert C[i + 1..] == Inorder(s.right) + Post(path);
    }

    /** `node.key = newKey` on a node outside the tree. */
    method SetKey(n: nat, k: int)
      requires Valid() && IsSlot(Arena(), n) && n !in Nodes(tree)
      modifies this
      ensures Valid() && key == old(key)[n := k]
      ensures tree == old(tree) && root == old(root) && Arena() == old(Arena()) && priority == old(priority)
    {
      Rekeyed(tree, root, Arena(), key, priority, n, k);
      key := key[n := k];
    }

    /** The second half of `changeKey`: the walk up from `p` for the
        detached node `n`, then insertion below where it stopped, then the
        rise into heap order. */
    method Reinsert(n: nat, p: nat, goLeft: bool, ghost pp: Path, ghost ps: Tree) returns (ghost j: nat)
      requires Valid() && tree == Plug(pp, ps) && RootId(ps) == p && (p == NIL ==> pp == [])
      requires IsSlot(Arena(), n) && n !in Nodes(tree) && left[n] == NIL && right[n] == NIL
      requires goLeft ==> AtLeast(Post(pp), KeyAt(key, n), key)
      requires !goLeft ==> AtMost(Pre(pp), KeyAt(key, n), key)
      modifies this
      ensures Valid() && key == old(key) && priority == old(priority)
      ensures j <= |old(Contents())| && Contents() == old(Contents())[..j] + [n] + old(Contents())[j..]
    {
      var q: nat;
      ghost var qq: Path, qs: Tree;
      q, qq, qs := Climb(p, key[n], goLeft, pp, ps);
      ghost var C := Contents();
      ghost var leaf := TreeInsert(q, n, qq, qs);
      LeafRising(leaf, n, priority);
      HeapFixUp(n, leaf, Node(Nil, n, Nil));
      j := |Pre(leaf)|;
      assert C[..j] == Pre(leaf) && C[j..] == Post(leaf);
    }

    /** The loops of `changeKey`: from `p`, climbs while the key `k` is below
        (`goLeft`) or above the current node's, never past the root. Where it
        stops, `k` fits below. */
    method Climb(p: nat, k: int, goLeft: bool, ghost pp: Path, ghost ps: Tree) returns (q: nat, ghost qq: Path, ghost qs: Tree)
      requires Valid() && tree == Plug(pp, ps) && RootId(ps) == p && (p == NIL ==> pp == [])
      requires goLeft ==> AtLeast(Post(pp), k, key)
      requires !goLeft ==> AtMost(Pre(pp), k, key)
      ensures tree == Plug(qq, qs) && RootId(qs) == q && (q == NIL ==> qq == [])
      ensures Fits(qq, k, key)
    {
      if goLeft {
        q, qq, qs := ClimbLeft(p, k, pp, ps);
      } else {
        q, qq, qs := ClimbRight(p, k, pp, ps);
      }
    }

    /** The loop of `changeKey` for a smaller key. */
    method ClimbLeft(p: nat, k: int, ghost pp: Path, ghost ps: Tree) returns (q: nat, ghost qq: Path, ghost qs: Tree)
      requires Valid() && tree == Plug(pp, ps) && RootId(ps) == p && (p == NIL ==> pp == [])
      requires AtLeast(Post(pp), k, key)
      ensures tree == Plug(qq, qs) && RootId(qs) == q && (q == NIL ==> qq == [])
      ensures Fits(qq, k, key)
    {
      q, qq, qs := p, pp, ps;
      ClimbFrom(qq, qs, root, Arena(), key, priority);
      while q != root && k < key[q]
        invariant tree == Plug(qq, qs) && RootId(qs) == q && (q == NIL ==> qq == []) && q < |key|
        invariant AtLeast(Post(qq), k, key)
        decreases |qq|
      {
        ClimbUp(qq, qs, root, Arena(), key, priority);
        AtLeastJoin(After(qq[0]), Post(qq[1..]), k, key);
        qq, qs := qq[1..], Fill(qq[0], qs);
        q := parent[q];
      }
      ClimbEnd(qq, qs, root, Arena(), key, priority);
    }

    /** The loop of `changeKey` for a larger or equal key. */
    method ClimbRight(p: nat, k: int, ghost pp: Path, ghost ps: Tree) returns (q: nat, ghost qq: Path, ghost qs: Tree)
      requires Valid() && tree == Plug(pp, ps) && RootId(ps) == p && (p == NIL ==> pp == [])
      requires AtMost(Pre(pp), k, key)
      ensures tree == Plug(qq, qs) && RootId(qs) == q && (q == NIL ==> qq == [])
      ensures Fits(qq, k, key)
    {
      q, qq, qs := p, pp, ps;
      ClimbFrom(qq, qs, root, Arena(), key, priority);
      while q != root && k > key[q]
        invariant tree == Plug(qq, qs) && RootId(qs) == q && (q == NIL ==> qq == []) && q < |key|
        invariant AtMost(Pre(qq), k, key)
        decreases |qq|
      {
        ClimbUp(qq, qs, root, Arena(), key, priority);
        AtMostJoin(Pre(qq[1..]), Before(qq[0]), k, key);
        qq, qs := qq[1..], Fill(qq[0], qs);
        q := parent[q];
      }
      ClimbEnd(qq, qs, root, Arena(), key, priority);
    }

    /** The position of a node of the tree in the in-order sequence. */
    lemma IndexOf(x: nat) returns (i: nat)
      requires Valid() && x in Nodes(tree)
      ensures i < |Contents()| && Contents()[i] == x
    {
      ContentsFacts();
      i :| 0 <= i < |Contents()| && Contents()[i] == x;
    }

    /** The loop of `findFirst`: from the `i`-th node `x`, of key `k`, and
        its predecessor `pre`, steps back over predecessors of key `k`. */
    method RunStart(x: nat, pre: nat, k: int, ghost i: nat) returns (first: nat, ghost j: nat)
      requires Valid() && i < |Contents()| && Contents()[i] == x && KeyAt(key, x) == k
      requires pre == (if i > 0 then Contents()[i - 1] else NIL)
      ensures j <= i && Contents()[j] == first && KeyAt(key, first) == k
      ensures forall m :: 0 <= m < j ==> KeyAt(key, Contents()[m]) < k
    {
      ContentsFacts();
      RealNodes();
      first, j := x, i;
      var preNode := pre;
      while preNode != NIL && key[preNode] == k
        invariant j <= i && Contents()[j] == first && KeyAt(key, first) == k
        invariant preNode == (if j > 0 then Contents()[j - 1] else NIL)
        decreases j
      {
        first, j := preNode, j - 1;
        var r := TreePredecessor(preNode, j);
        preNode := r.value;
      }
      RunStartFirst(Contents(), j, k, key);
    }

    /** `findFirst` as the source has it: on a key that is absent,
        `treePredecessor(NIL)` dereferences the sentinel's null link and
        throws. */
    method FindFirstAsWritten(k: int) returns (r: Result<nat>, ghost j: nat)
      requires Valid()
      ensures KeyAbsent(Nodes(tree), k, key) ==> r == Failure(TypeError)
      ensures !KeyAbsent(Nodes(tree), k, key) ==>
        r.Success? && j < |Contents()| && Contents()[j] == r.value && KeyAt(key, r.value) == k &&
        forall m :: 0 <= m < j ==> KeyAt(key, Contents()[m]) < k
    {
      var node := Find(k);
      ghost var i := 0;
      if node != NIL {
        i := IndexOf(node);
      }
      var pre := TreePredecessor(node, i);
      if pre.Failure? {
        return Failure(pre.error), 0;
      }
      var first;
      first, j := RunStart(node, pre.value, k, i);
      r := Success(first);
    }

    /** `findFirst` with an absent key answered by NIL, as `find` does: the
        first node of key `k` in in-order. */
    method FindFirst(k: int) returns (x: nat, ghost j: nat)
      requires Valid()
      ensures x == NIL <==> KeyAbsent(Nodes(tree), k, key)
      ensures x != NIL ==>
        j < |Contents()| && Contents()[j] == x && KeyAt(key, x) == k &&
        forall m :: 0 <= m < j ==> KeyAt(key, Contents()[m]) < k
    {
      x := Find(k);
      j := 0;
      if x != NIL {
        ghost var i := IndexOf(x);
        var pre := TreePredecessor(x, i);
        x, j := RunStart(x, pre.value, k, i);
        ContentsFacts();
      }
    }

    /** `findNext`: the in-order successor of the `i`-th node `x` when it has
        the same key, NIL otherwise; NIL itself throws. */
    method FindNext(x: nat, ghost i: nat) returns (r: Result<nat>)
      requires Valid() && (x == NIL || (i < |Contents()| && Contents()[i] == x))
      ensures x == NIL ==> r == Failure(TypeError)
      ensures x != NIL ==> r.Success?
      ensures x != NIL && i + 1 < |Contents()| && KeyAt(key, Contents()[i + 1]) == KeyAt(key, x) ==>
        r.value == Contents()[i + 1]
      ensures x != NIL && (i + 1 == |Contents()| || KeyAt(key, Contents()[i + 1]) != KeyAt(key, x)) ==>
        r.value == NIL
    {
      var found := TreeSuccessor(x, i);
      if found.Failure? {
        return found;
      }
      RealNodes();
      if found.value != NIL && key[found.value] == key[x] {
        r := found;
      } else {
        r := Success(NIL);
      }
    }

    /** Chaining `findFirst` and `findNext` visits every node of key `k`
        exactly once, in in-order: the run from the first such node is all
        of them. */
    lemma DuplicatesInOneRun(k: int, j: nat)
      requires Valid() && j < |Contents()| && KeyAt(key, Contents()[j]) == k
      requires forall m :: 0 <= m < j ==> KeyAt(key, Contents()[m]) < k
      ensures Run(Contents()[j..], k, key) == WithKey(Contents(), k, key)
    {
      ContentsFacts();
      FirstRunIsAll(Contents(), j, k, key);
    }

    /** Steps from the `i`-th node `node` with `step` until NIL, collecting
        the nodes: the loop of the source's iterator objects. */
    method WalkForward(node: nat, ghost i: nat) returns (xs: seq<nat>)
      requires Valid() && i <= |Contents()| && node == (if i < |Contents()| then Contents()[i] else NIL)
      ensures xs == Contents()[i..]
    {
      RealNodes();
      var cur := node;
      ghost var j := i;
      xs := [];
      while cur != NIL
        invariant i <= j <= |Contents()| && cur == (if j < |Contents()| then Contents()[j] else NIL)
        invariant xs == Contents()[i..j]
        decreases |Contents()| - j
      {
        xs := xs + [cur];
        var r := TreeSuccessor(cur, j);
        cur, j := r.value, j + 1;
      }
    }

    method WalkBackward(node: nat, ghost j: nat) returns (xs: seq<nat>)
      requires Valid() && j <= |Contents()| && node == (if j > 0 then Contents()[j - 1] else NIL)
      ensures xs == Reversed(Contents()[..j])
    {
      RealNodes();
      var cur := node;
      ghost var i := j;
      xs := [];
      while cur != NIL
        invariant 0 <= i <= j && cur == (if i > 0 then Contents()[i - 1] else NIL)
        invariant xs + Reversed(Contents()[..i]) == Reversed(Contents()[..j])
        decreases i
      {
        ReversedLast(Contents()[..i]);
        assert Contents()[..i][..i - 1] == Contents()[..i - 1];
        xs := xs + [cur];
        var r := TreePredecessor(cur, i - 1);
        cur, i := r.value, i - 1;
      }
      assert Reversed(Contents()[..i]) == [];
    }

    /** `[Symbol.iterator]` as the source has it: `treeMin(this.root)` on an
        empty treap dereferences the sentinel's null link and throws;
        otherwise the nodes come in in-order, each once, keys never
        decreasing. */
    method IterateAsWritten() returns (r: Result<seq<nat>>)
      requires Valid()
      ensures root == NIL ==> r == Failure(TypeError)
      ensures root != NIL ==> r.Success? && r.value == Contents()
      ensures r.Success? ==> KeysSorted(r.value, key) && Distinct(r.value) && |r.value| == |Nodes(tree)|
    {
      ContentsFacts();
      var first: Result<nat>;
      ghost var spine: Path, u: Tree;
      first, spine, u := TreeMin(root, [], tree);
      if first.Failure? {
        return Failure(first.error);
      }
      var xs := WalkForward(first.value, 0);
      r := Success(xs);
    }

    /** Forward iteration with an empty treap yielding nothing. */
    method Iterate() returns (xs: seq<nat>)
      requires Valid()
      ensures xs == Contents()
      ensures KeysSorted(xs, key) && Distinct(xs) && |xs| == |Nodes(tree)|
    {
      ContentsFacts();
      if root == NIL {
        return [];
      }
      var first: Result<nat>;
      ghost var spine: Path, u: Tree;
      first, spine, u := TreeMin(root, [], tree);
      xs := WalkForward(first.value, 0);
    }

    /** `reverseIterator` as the source has it: `treeMax(this.root)` throws
        on an empty treap; otherwise the nodes come in reverse in-order. */
    method ReverseIterateAsWritten() returns (r: Result<seq<nat>>)
      requires Valid()
      ensures root == NIL ==> r == Failure(TypeError)
      ensures root != NIL ==> r.Success? && r.value == Reversed(Contents())
    {
      LinkedRoot(tree, root, NIL, Arena());
      var last: Result<nat>;
      ghost var spine: Path, u: Tree;
      last, spine, u := TreeMax(root, [], tree);
      if last.Failure? {
        return Failure(last.error);
      }
      var xs := WalkBackward(last.value, |Contents()|);
      assert Contents()[..|Contents()|] == Contents();
      r := Success(xs);
    }

    /** Reverse iteration with an empty treap yielding nothing. */
    method ReverseIterate() returns (xs: seq<nat>)
      requires Valid()
      ensures xs == Reversed(Contents())
    {
      LinkedRoot(tree, root, NIL, Arena());
      if root == NIL {
        return [];
      }
      var last: Result<nat>;
      ghost var spine: Path, u: Tree;
      last, spine, u := TreeMax(root, [], tree);
      xs := WalkBackward(last.value, |Contents()|);
      assert Contents()[..|Contents()|] == Contents();
    }

    /** `inorderWalk(x, op)`: the nodes `op` is applied to, in order. */
    method InorderWalk(x: nat, ghost t: Tree, ghost p: nat) returns (visited: seq<nat>)
      requires Shaped() && Linked(t, x, p, Arena())
      ensures visited == Inorder(t)
      decreases t
    {
      if x == NIL {
        return [];
      }
      LinkedChildren(t, x, p, Arena());
      var l := InorderWalk(left[x], t.left, x);
      var r := InorderWalk(right[x], t.right, x);
      visited := l + [x] + r;
    }

    /** `size`: the number of nodes, counted by an in-order walk. */
    method Size() returns (num: nat)
      requires Valid()
      ensures num == |Contents()| && num == |Nodes(tree)|
    {
      ContentsFacts();
      var visited := InorderWalk(root, tree, NIL);
      num := |visited|;
    }

    /** `maxHeight(x)`: nodes on the longest downward branch from `x`. */
    method MaxHeight(x: nat, ghost t: Tree, ghost p: nat) returns (h: nat)
      requires Shaped() && Linked(t, x, p, Arena())
      ensures h == Height(t)
      decreases t
    {
      if x == NIL {
        return 0;
      }
      LinkedChildren(t, x, p, Arena());
      var hl := MaxHeight(left[x], t.left, x);
      var hr := MaxHeight(right[x], t.right, x);
      h := 1 + if hl < hr then hr else hl;
    }

    /** `height`: at most the number of nodes, and the treap holds fewer than
        2^height nodes. */
    method TreapHeight() returns (h: nat)
      requires Valid()
      ensures h == Height(tree) && h <= |Contents()| < Pow2(h)
    {
      ContentsFacts();
      h := MaxHeight(root, tree, NIL);
      HeightBounds(tree);
    }
  }
}
