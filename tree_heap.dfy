/**
 * Max-heap order over node priorities. Priorities live in the arena; NIL (and
 * anything outside the arena) ranks below every real priority, the role the
 * source gives to negative infinity.
 */
module TreeHeap {
  import opened BinaryTrees

  ghost function PriAt(Pr: seq<int>, i: nat): int
  {
    if NIL < i < |Pr| then Pr[i] else -1
  }

  /** Priority of the root of `t`; -1 for the empty tree. */
  ghost function Prio(t: Tree, Pr: seq<int>): int
  {
    PriAt(Pr, RootId(t))
  }

  /** Every node's priority is at least its children's. */
  ghost predicate Heap(t: Tree, Pr: seq<int>)
  {
    match t
    case Nil => true
    case Node(l, i, r) =>
      Heap(l, Pr) && Heap(r, Pr) && Prio(l, Pr) <= PriAt(Pr, i) && Prio(r, Pr) <= PriAt(Pr, i)
  }

  /** Heap order holds inside the frames of a path, the hole left aside. */
  ghost predicate HeapPath(path: Path, Pr: seq<int>)
    decreases |path|
  {
    path == [] ||
    (Heap(path[0].sibling, Pr) && Prio(path[0].sibling, Pr) <= PriAt(Pr, path[0].id) &&
     (|path| > 1 ==> PriAt(Pr, path[0].id) <= PriAt(Pr, path[1].id)) &&
     HeapPath(path[1..], Pr))
  }

  /** The whole tree is a heap exactly when the path and the plugged subtree
      are, and the subtree's root does not outrank the node above it. */
  lemma {:induction false} PlugHeap(path: Path, s: Tree, Pr: seq<int>)
    ensures Heap(Plug(path, s), Pr) <==>
            HeapPath(path, Pr) && Heap(s, Pr) && (path != [] ==> Prio(s, Pr) <= PriAt(Pr, path[0].id))
    decreases |path|
  {
    if path != [] {
      PlugHeap(path[1..], Fill(path[0], s), Pr);
      if |path| > 1 {
        assert path[1..][0] == path[1];
      }
    }
  }

  /** The root of a heap holds the highest priority in it. */
  lemma {:induction false} HeapMax(t: Tree, Pr: seq<int>)
    requires Heap(t, Pr)
    ensures forall i :: i in Nodes(t) ==> PriAt(Pr, i) <= Prio(t, Pr)
  {
    if t.Node? {
      HeapMax(t.left, Pr);
      HeapMax(t.right, Pr);
    }
  }

  /** Heap order depends only on the priorities of the tree's own nodes. */
  lemma {:induction false} HeapFrame(t: Tree, Pr: seq<int>, Pr': seq<int>)
    requires Heap(t, Pr)
    requires forall i :: i in Nodes(t) ==> PriAt(Pr, i) == PriAt(Pr', i)
    ensures Heap(t, Pr')
  {
    if t.Node? {
      HeapFrame(t.left, Pr, Pr');
      HeapFrame(t.right, Pr, Pr');
    }
  }

  // ---------------------------------------------------------------------
  // Moving a node up (heap fix-up) and down (the sink after deletion).

  /** The state of the heap while a node `s.id` rises: below it and above it
      the heap holds, and its parent outranks its children. */
  ghost predicate Rising(path: Path, s: Tree, Pr: seq<int>)
  {
    s.Node? && Heap(s, Pr) && HeapPath(path, Pr) &&
    (path != [] ==> Prio(s.left, Pr) <= PriAt(Pr, path[0].id) && Prio(s.right, Pr) <= PriAt(Pr, path[0].id))
  }

  /** The state of the heap while a node `s.id` sinks: everything but the
      node's own place is a heap, and its parent outranks it and its children. */
  ghost predicate Sinking(path: Path, s: Tree, Pr: seq<int>)
  {
    s.Node? && Heap(s.left, Pr) && Heap(s.right, Pr) && HeapPath(path, Pr) &&
    (path != [] ==>
      PriAt(Pr, s.id) <= PriAt(Pr, path[0].id) &&
      Prio(s.left, Pr) <= PriAt(Pr, path[0].id) && Prio(s.right, Pr) <= PriAt(Pr, path[0].id))
  }

  /** The subtree after lifting the root of `s` above the frame's node, which
      is a rotation at that node. */
  ghost function Lifted(f: Frame, s: Tree): Tree
    requires s.Node?
  {
    match f
    case HoleLeft(q, r) => Node(s.left, s.id, Node(s.right, q, r))
    case HoleRight(q, l) => Node(Node(l, q, s.left), s.id, s.right)
  }

  lemma RiseStep(path: Path, s: Tree, Pr: seq<int>)
    requires Rising(path, s, Pr) && path != [] && PriAt(Pr, path[0].id) < PriAt(Pr, s.id)
    ensures Rising(path[1..], Lifted(path[0], s), Pr)
  {
    if |path| > 1 {
      assert path[1..][0] == path[1];
    }
  }

  lemma RiseDone(path: Path, s: Tree, Pr: seq<int>)
    requires Rising(path, s, Pr) && (path == [] || PriAt(Pr, s.id) <= PriAt(Pr, path[0].id))
    ensures Heap(Plug(path, s), Pr)
  {
    PlugHeap(path, s, Pr);
  }

  lemma SinkRight(path: Path, s: Tree, Pr: seq<int>)
    requires Sinking(path, s, Pr) && s.left.Node?
    requires Prio(s.right, Pr) < Prio(s.left, Pr) && PriAt(Pr, s.id) < Prio(s.left, Pr)
    ensures Sinking([HoleRight(s.left.id, s.left.left)] + path, Node(s.left.right, s.id, s.right), Pr)
  {
    var p' := [HoleRight(s.left.id, s.left.left)] + path;
    assert p'[1..] == path;
  }

  lemma SinkLeft(path: Path, s: Tree, Pr: seq<int>)
    requires Sinking(path, s, Pr) && s.right.Node?
    requires Prio(s.left, Pr) <= Prio(s.right, Pr) && PriAt(Pr, s.id) < Prio(s.right, Pr)
    ensures Sinking([HoleLeft(s.right.id, s.right.right)] + path, Node(s.left, s.id, s.right.left), Pr)
  {
    var p' := [HoleLeft(s.right.id, s.right.right)] + path;
    assert p'[1..] == path;
  }

  /** One sink step: the child of higher priority (the right one on a tie)
      is lifted by a rotation at the sinking node, which lands in frame `f`
      below it as the root of `s'`. */
  lemma SinkMove(path: Path, s: Tree, Pr: seq<int>) returns (f: Frame, s': Tree)
    requires Sinking(path, s, Pr) && PriAt(Pr, s.id) >= 0
    requires Prio(s.left, Pr) >= -1 && Prio(s.right, Pr) >= -1
    requires PriAt(Pr, s.id) < Prio(s.left, Pr) || PriAt(Pr, s.id) < Prio(s.right, Pr)
    ensures Sinking([f] + path, s', Pr) && s'.Node? && s'.id == s.id
    ensures Prio(s.right, Pr) < Prio(s.left, Pr) ==> s.left.Node? && Fill(f, s') == RotR(s)
    ensures Prio(s.left, Pr) <= Prio(s.right, Pr) ==> s.right.Node? && Fill(f, s') == RotL(s)
    ensures Inorder(Fill(f, s')) == Inorder(s) && |Inorder(s')| < |Inorder(s)|
  {
    if Prio(s.right, Pr) < Prio(s.left, Pr) {
      SinkRight(path, s, Pr);
      f, s' := HoleRight(s.left.id, s.left.left), Node(s.left.right, s.id, s.right);
      assert Inorder(s) == Inorder(s.left.left) + [s.left.id] + Inorder(s');
      RotRKeeps(s);
    } else {
      SinkLeft(path, s, Pr);
      f, s' := HoleLeft(s.right.id, s.right.right), Node(s.left, s.id, s.right.left);
      assert Inorder(s) == Inorder(s') + [s.right.id] + Inorder(s.right.right);
      RotLKeeps(s);
    }
  }

  lemma SinkDone(path: Path, s: Tree, Pr: seq<int>)
    requires Sinking(path, s, Pr)
    requires Prio(s.left, Pr) <= PriAt(Pr, s.id) && Prio(s.right, Pr) <= PriAt(Pr, s.id)
    ensures Heap(Plug(path, s), Pr)
  {
    PlugHeap(path, s, Pr);
  }

  /** Heap order inside a path depends only on the priorities of its nodes. */
  lemma {:induction false} HeapPathFrame(path: Path, Pr: seq<int>, Pr': seq<int>)
    requires HeapPath(path, Pr)
    requires forall i :: i in PathNodes(path) ==> PriAt(Pr, i) == PriAt(Pr', i)
    ensures HeapPath(path, Pr')
    decreases |path|
  {
    if path != [] {
      HeapFrame(path[0].sibling, Pr, Pr');
      HeapPathFrame(path[1..], Pr, Pr');
      if |path| > 1 {
        assert path[1..][0] == path[1];
        assert path[1].id in PathNodes(path[1..]);
      }
    }
  }

  /** A fresh leaf at an empty hole of a heap is where a rise starts. */
  lemma LeafRising(leaf: Path, n: nat, Pr: seq<int>)
    requires Heap(Plug(leaf, Nil), Pr) && forall i :: NIL < i < |Pr| ==> Pr[i] >= 0
    ensures Rising(leaf, Node(Nil, n, Nil), Pr)
  {
    PlugHeap(leaf, Nil, Pr);
  }

  /** Raising the priority of one node of a heap leaves the heap broken at
      most above that node: it is where a rise starts. */
  lemma RaiseRising(path: Path, s: Tree, Pr: seq<int>, v: int)
    requires Heap(Plug(path, s), Pr) && Unique(Plug(path, s)) && s.Node? && NIL < s.id < |Pr| && Pr[s.id] <= v
    ensures Rising(path, s, Pr[s.id := v])
  {
    var Pr' := Pr[s.id := v];
    PlugHeap(path, s, Pr);
    PlugUnique(path, s);
    RaiseRoot(s, Pr, v);
    HeapPathFrame(path, Pr, Pr');
    if path != [] {
      assert path[0].id in PathNodes(path);
      assert PriAt(Pr', path[0].id) == PriAt(Pr, path[0].id);
    }
  }

  /** Raising the root's priority keeps a subtree a heap, its children's
      priorities unchanged. */
  lemma RaiseRoot(s: Tree, Pr: seq<int>, v: int)
    requires Heap(s, Pr) && Unique(s) && s.Node? && NIL < s.id < |Pr| && Pr[s.id] <= v
    ensures Heap(s, Pr[s.id := v])
    ensures Prio(s.left, Pr[s.id := v]) == Prio(s.left, Pr) && Prio(s.right, Pr[s.id := v]) == Prio(s.right, Pr)
  {
    var Pr' := Pr[s.id := v];
    HeapFrame(s.left, Pr, Pr');
    HeapFrame(s.right, Pr, Pr');
    if s.left.Node? {
      assert s.left.id in Nodes(s.left);
    }
    if s.right.Node? {
      assert s.right.id in Nodes(s.right);
    }
  }
}
