/**
 * What deleting a node does to the abstract tree: the node leaves the
 * in-order sequence and nothing else moves, so key order survives, and the
 * node that takes its place leaves the heap order broken at that place only.
 */
module TreeRemoval {
  import opened BinaryTrees
  import opened TreeOrder
  import opened TreeHeap
  import opened TreeWalks

  /** Replacing the subtree `s` by a subtree `c` holding the same nodes in
      order, `s`'s root left out, removes exactly that node from the in-order
      sequence, and keeps the keys sorted. */
  lemma RemoveRoot(path: Path, s: Tree, c: Tree, K: seq<int>)
    requires s.Node? && Inorder(c) == Inorder(s.left) + Inorder(s.right)
    ensures var a, b := Pre(path) + Inorder(s.left), Inorder(s.right) + Post(path);
      Inorder(Plug(path, s)) == a + [s.id] + b && Inorder(Plug(path, c)) == a + b
    ensures Ordered(Plug(path, s), K) ==> Ordered(Plug(path, c), K)
  {
    var a, b := Pre(path) + Inorder(s.left), Inorder(s.right) + Post(path);
    RemoveRootInorder(path, s, c);
    if Ordered(Plug(path, s), K) {
      SortedRemove(a, s.id, b, K);
    }
  }

  lemma RemoveRootInorder(path: Path, s: Tree, c: Tree)
    requires s.Node? && Inorder(c) == Inorder(s.left) + Inorder(s.right)
    ensures var a, b := Pre(path) + Inorder(s.left), Inorder(s.right) + Post(path);
      Inorder(Plug(path, s)) == a + [s.id] + b && Inorder(Plug(path, c)) == a + b
  {
    var p, l, r, q := Pre(path), Inorder(s.left), Inorder(s.right), Post(path);
    var x, y := Inorder(s), Inorder(c);
    PlugInorder(path, s);
    PlugInorder(path, c);
    assert x == l + [s.id] + r;
    Regroup(p, l, [s.id], r, q);
    Concat4(p, l, r, q);
  }

  lemma Concat4(p: seq<nat>, l: seq<nat>, r: seq<nat>, q: seq<nat>)
    ensures p + (l + r) + q == (p + l) + (r + q)
    ensures p + l + (r + q) == p + (l + r + q)
  {
  }

  /** A node with at most one child gives way to that child. */
  lemma SpliceShape(path: Path, s: Tree, Pr: seq<int>)
    requires s.Node? && (s.left == Nil || s.right == Nil)
    ensures var c := if s.left == Nil then s.right else s.left;
      Inorder(c) == Inorder(s.left) + Inorder(s.right) &&
      (Heap(Plug(path, s), Pr) ==> Heap(Plug(path, c), Pr))
  {
    var c := if s.left == Nil then s.right else s.left;
    assert Inorder(Nil) == [];
    if s.left == Nil {
      assert Inorder(s.left) + Inorder(s.right) == Inorder(s.right);
    }
    PlugHeap(path, s, Pr);
    PlugHeap(path, c, Pr);
  }

  /** The in-order successor `m` of a node with two children, found at the
      bottom of the left spine of the right subtree, takes the node's place:
      the in-order sequence loses only the node, and only the new root's own
      place may break heap order. */
  lemma PromoteShape(path: Path, s: Tree, spine: Path, m: nat, mr: Tree, Pr: seq<int>)
    requires s.Node? && s.left.Node? && LeftSpine(spine) && s.right == Plug(spine, Node(Nil, m, mr))
    ensures var c := Node(s.left, m, Plug(spine, mr));
      Inorder(c) == Inorder(s.left) + Inorder(s.right) &&
      (Heap(Plug(path, s), Pr) ==> Sinking(path, c, Pr))
  {
    PromoteInorder(s.left, spine, m, mr);
    if Heap(Plug(path, s), Pr) {
      PromoteHeap(path, s, spine, m, mr, Pr);
    }
  }

  lemma PromoteInorder(l: Tree, spine: Path, m: nat, mr: Tree)
    requires LeftSpine(spine)
    ensures Inorder(Node(l, m, Plug(spine, mr))) == Inorder(l) + Inorder(Plug(spine, Node(Nil, m, mr)))
  {
    LeftmostFirst(spine, Node(Nil, m, mr));
    PlugInorder(spine, mr);
    LeftSpineHasNoPre(spine);
    var x, a, b := Inorder(l), Inorder(mr), Post(spine);
    var y := Inorder(Plug(spine, mr));
    EmptyPrefix(a, b);
    assert y == a + b;
    assert Inorder(Node(l, m, Plug(spine, mr))) == x + [m] + y;
    Regroup3(x, [m], a, b);
  }

  lemma EmptyPrefix(a: seq<nat>, b: seq<nat>)
    ensures [] + a + b == a + b
  {
  }

  lemma Regroup3(x: seq<nat>, p: seq<nat>, a: seq<nat>, b: seq<nat>)
    ensures x + p + (a + b) == x + (p + a + b)
  {
  }

  lemma PromoteHeap(path: Path, s: Tree, spine: Path, m: nat, mr: Tree, Pr: seq<int>)
    requires s.Node? && s.left.Node? && s.right == Plug(spine, Node(Nil, m, mr))
    requires Heap(Plug(path, s), Pr)
    ensures Sinking(path, Node(s.left, m, Plug(spine, mr)), Pr)
  {
    var u := Node(Nil, m, mr);
    PlugHeap(path, s, Pr);
    PlugHeap(spine, u, Pr);
    PlugHeap(spine, mr, Pr);
    HeapMax(s.right, Pr);
    PlugNodes(spine, u);
    assert m in Nodes(s.right);
    var r' := Plug(spine, mr);
    if r'.Node? {
      PlugNodes(spine, mr);
      assert r'.id in Nodes(r');
      assert r'.id in Nodes(s.right);
    }
    if spine != [] && mr.Node? {
      assert mr.id in Nodes(u);
      HeapMax(u, Pr);
    }
  }

  /** Removing `s.id` from the tree, its subtrees kept in order, leaves the
      other nodes. */
  lemma RemovedNode(path: Path, s: Tree, c: Tree)
    requires Unique(Plug(path, s)) && s.Node? && Inorder(c) == Inorder(s.left) + Inorder(s.right)
    ensures Nodes(c) == Nodes(s.left) + Nodes(s.right)
    ensures Nodes(Plug(path, c)) == Nodes(Plug(path, s)) - {s.id}
  {
    InorderNodes(c);
    InorderNodes(s.left);
    InorderNodes(s.right);
    PlugUnique(path, s);
    PlugNodes(path, s);
    PlugNodes(path, c);
  }

  /** Where the in-order successor of a node with a right subtree sits: at
      the bottom `u` of the left spine of that subtree, its parent being the
      node itself exactly when the spine is empty. */
  lemma SuccessorPlace(path: Path, s: Tree, spine: Path, u: Tree)
    requires Unique(Plug(path, s)) && s.Node? && s.right == Plug(spine, u) && u.Node? && u.left == Nil
    ensures var P := spine + ([HoleRight(s.id, s.left)] + path);
      P != [] && Plug(P, u) == Plug(path, s) &&
      Plug(P, u.right) == Plug(path, Node(s.left, s.id, Plug(spine, u.right))) &&
      (ParentId(P) == s.id <==> spine == []) && u.id !in Nodes(Plug(P, u.right))
    ensures s.id !in Nodes(u) && (spine != [] ==> Plug(spine, u.right).Node?)
  {
    var P := spine + ([HoleRight(s.id, s.left)] + path);
    SuccessorPlug(path, s, spine, u);
    SuccessorParent(path, s, spine, u);
    PlugUnique(path, s);
    PlugNodes(spine, u);
    if spine != [] {
      PlugNodes(spine, u.right);
      assert spine[0].id in PathNodes(spine);
    }
    assert Inorder(u.left) == [];
    assert Inorder(u.left) + Inorder(u.right) == Inorder(u.right);
    RemovedNode(P, u, u.right);
  }

  lemma SuccessorPlug(path: Path, s: Tree, spine: Path, u: Tree)
    requires s.Node? && s.right == Plug(spine, u) && u.Node?
    ensures var P := spine + ([HoleRight(s.id, s.left)] + path);
      P != [] && Plug(P, u) == Plug(path, s) &&
      Plug(P, u.right) == Plug(path, Node(s.left, s.id, Plug(spine, u.right)))
  {
    var f := HoleRight(s.id, s.left);
    PlugConcat(spine, [f] + path, u);
    PlugConcat(spine, [f] + path, u.right);
    PlugPush(f, path, [], s.right);
    PlugPush(f, path, [], Plug(spine, u.right));
  }

  lemma SuccessorParent(path: Path, s: Tree, spine: Path, u: Tree)
    requires Unique(Plug(path, s)) && s.Node? && s.right == Plug(spine, u)
    ensures ParentId(spine + ([HoleRight(s.id, s.left)] + path)) == s.id <==> spine == []
  {
    var P := spine + ([HoleRight(s.id, s.left)] + path);
    if spine != [] {
      PlugUnique(path, s);
      PlugNodes(spine, u);
      assert P[0] == spine[0];
      assert spine[0].id in PathNodes(spine);
    } else {
      assert P[0] == HoleRight(s.id, s.left);
    }
  }
}
