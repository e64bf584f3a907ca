/**
 * The shape of a treap, abstracted from the node arena: a binary tree whose
 * nodes are arena indices. Index 0 of the arena is the shared sentinel NIL,
 * so a real node never has id 0.
 *
 * A `Path` locates a position (a "hole") inside a tree. It lists the frames
 * from the hole upwards, innermost first: `Plug(path, s)` puts the subtree `s`
 * into the hole. Every local update of the linked structure (a rotation, a
 * transplant, attaching a leaf) replaces the subtree at one hole, so the
 * operations are specified by how they change the plugged subtree.
 */
module BinaryTrees {

  /** The arena index of the sentinel node. */
  const NIL: nat := 0

  datatype Tree = Nil | Node(left: Tree, id: nat, right: Tree)

  /** The hole is the left (HoleLeft) or right (HoleRight) child of node `id`,
      whose other child is `sibling`. */
  datatype Frame = HoleLeft(id: nat, sibling: Tree) | HoleRight(id: nat, sibling: Tree)

  /** Frames from a hole up to the root, innermost first. */
  type Path = seq<Frame>

  /** The node a link to `t` holds: NIL for the empty tree. */
  ghost function RootId(t: Tree): nat
  {
    if t.Nil? then NIL else t.id
  }

  /** The node whose child slot is the hole: NIL at the root. */
  ghost function ParentId(path: Path): nat
  {
    if path == [] then NIL else path[0].id
  }

  ghost function Fill(f: Frame, s: Tree): Tree
  {
    match f
    case HoleLeft(q, r) => Node(s, q, r)
    case HoleRight(q, l) => Node(l, q, s)
  }

  ghost function Plug(path: Path, s: Tree): Tree
    decreases |path|
  {
    if path == [] then s else Plug(path[1..], Fill(path[0], s))
  }

  /** The in-order node sequence. */
  ghost function Inorder(t: Tree): seq<nat>
  {
    match t
    case Nil => []
    case Node(l, i, r) => Inorder(l) + [i] + Inorder(r)
  }

  ghost function Nodes(t: Tree): set<nat>
  {
    match t
    case Nil => {}
    case Node(l, i, r) => Nodes(l) + {i} + Nodes(r)
  }

  /** Nodes that come before / after the hole of one frame in in-order. */
  ghost function Before(f: Frame): seq<nat>
  {
    if f.HoleRight? then Inorder(f.sibling) + [f.id] else []
  }

  ghost function After(f: Frame): seq<nat>
  {
    if f.HoleLeft? then [f.id] + Inorder(f.sibling) else []
  }

  /** Nodes that come before / after the hole of a path in in-order. */
  ghost function Pre(path: Path): seq<nat>
    decreases |path|
  {
    if path == [] then [] else Pre(path[1..]) + Before(path[0])
  }

  ghost function Post(path: Path): seq<nat>
    decreases |path|
  {
    if path == [] then [] else After(path[0]) + Post(path[1..])
  }

  ghost function PathNodes(path: Path): set<nat>
    decreases |path|
  {
    if path == [] then {} else {path[0].id} + Nodes(path[0].sibling) + PathNodes(path[1..])
  }

  /** No node occurs twice in the tree. */
  ghost predicate Unique(t: Tree)
  {
    match t
    case Nil => true
    case Node(l, i, r) =>
      Unique(l) && Unique(r) && i !in Nodes(l) && i !in Nodes(r) && Nodes(l) !! Nodes(r)
  }

  ghost predicate UniquePath(path: Path)
    decreases |path|
  {
    path == [] ||
    (Unique(path[0].sibling) && path[0].id !in Nodes(path[0].sibling) &&
     ({path[0].id} + Nodes(path[0].sibling)) !! PathNodes(path[1..]) &&
     UniquePath(path[1..]))
  }

  ghost predicate Distinct(s: seq<nat>)
  {
    forall i, j :: 0 <= i < j < |s| ==> s[i] != s[j]
  }

  /** Every frame of the path has its hole on the left: the hole is reached
      from the top by going left only. */
  ghost predicate LeftSpine(path: Path)
  {
    forall k :: 0 <= k < |path| ==> path[k].HoleLeft?
  }

  ghost predicate RightSpine(path: Path)
  {
    forall k :: 0 <= k < |path| ==> path[k].HoleRight?
  }

  /** Number of nodes on the longest root-to-leaf branch; the empty tree has height 0. */
  ghost function Height(t: Tree): nat
  {
    match t
    case Nil => 0
    case Node(l, _, r) => 1 + (if Height(l) < Height(r) then Height(r) else Height(l))
  }

  ghost function Pow2(n: nat): nat
  {
    if n == 0 then 1 else 2 * Pow2(n - 1)
  }

  // ---------------------------------------------------------------------
  // Lemmas about plugging a subtree into a path.

  lemma {:induction false} PlugInorder(path: Path, s: Tree)
    ensures Inorder(Plug(path, s)) == Pre(path) + Inorder(s) + Post(path)
    decreases |path|
  {
    if path != [] {
      var f := path[0];
      PlugInorder(path[1..], Fill(f, s));
      FillInorder(f, s);
      Regroup(Pre(path[1..]), Before(f), Inorder(s), After(f), Post(path[1..]));
    }
  }

  lemma {:induction false} PlugNodes(path: Path, s: Tree)
    ensures Nodes(Plug(path, s)) == PathNodes(path) + Nodes(s)
    decreases |path|
  {
    if path != [] {
      PlugNodes(path[1..], Fill(path[0], s));
    }
  }

  lemma {:induction false} PlugUnique(path: Path, s: Tree)
    ensures Unique(Plug(path, s)) <==>
            UniquePath(path) && Unique(s) && PathNodes(path) !! Nodes(s)
    decreases |path|
  {
    if path != [] {
      var f := path[0];
      PlugUnique(path[1..], Fill(f, s));
      PlugNodes(path[1..], Fill(f, s));
    }
  }

  lemma {:induction false} PlugAppend(path: Path, f: Frame, s: Tree)
    ensures Plug(path + [f], s) == Fill(f, Plug(path, s))
    decreases |path|
  {
    if path != [] {
      assert (path + [f])[1..] == path[1..] + [f];
      PlugAppend(path[1..], f, Fill(path[0], s));
    }
  }

  lemma {:induction false} PlugConcat(p1: Path, p2: Path, s: Tree)
    ensures Plug(p1 + p2, s) == Plug(p2, Plug(p1, s))
    decreases |p1|
  {
    if p1 != [] {
      assert (p1 + p2)[0] == p1[0];
      assert (p1 + p2)[1..] == p1[1..] + p2;
      PlugConcat(p1[1..], p2, Fill(p1[0], s));
    } else {
      assert p1 + p2 == p2;
    }
  }

  /** A left rotation at the root of `t`: its right child comes up. */
  ghost function RotL(t: Tree): Tree
    requires t.Node? && t.right.Node?
  {
    Node(Node(t.left, t.id, t.right.left), t.right.id, t.right.right)
  }

  /** A right rotation at the root of `t`: its left child comes up. */
  ghost function RotR(t: Tree): Tree
    requires t.Node? && t.left.Node?
  {
    Node(t.left.left, t.left.id, Node(t.left.right, t.id, t.right))
  }

  /** Rotations keep the in-order sequence, the node set and uniqueness. */
  lemma RotLKeeps(t: Tree)
    requires t.Node? && t.right.Node?
    ensures Inorder(RotL(t)) == Inorder(t) && Nodes(RotL(t)) == Nodes(t)
    ensures Unique(t) ==> Unique(RotL(t))
  {
    var a, x, b, y, c := t.left, t.id, t.right.left, t.right.id, t.right.right;
    var ia, ib, ic := Inorder(a), Inorder(b), Inorder(c);
    calc {
      Inorder(RotL(t));
      (ia + [x] + ib) + [y] + ic;
      { SeqAssoc(ia + [x], ib, [y] + ic); }
      ia + [x] + (ib + [y] + ic);
      Inorder(t);
    }
    RotUnique(a, x, b, y, c);
  }

  lemma RotRKeeps(t: Tree)
    requires t.Node? && t.left.Node?
    ensures Inorder(RotR(t)) == Inorder(t) && Nodes(RotR(t)) == Nodes(t)
    ensures Unique(t) ==> Unique(RotR(t))
  {
    var a, y, b, x, c := t.left.left, t.left.id, t.left.right, t.id, t.right;
    var ia, ib, ic := Inorder(a), Inorder(b), Inorder(c);
    calc {
      Inorder(RotR(t));
      ia + [y] + (ib + [x] + ic);
      { SeqAssoc(ia + [y], ib, [x] + ic); }
      (ia + [y] + ib) + [x] + ic;
      Inorder(t);
    }
    RotUnique(a, y, b, x, c);
  }

  lemma FillInorder(f: Frame, s: Tree)
    ensures Inorder(Fill(f, s)) == Before(f) + Inorder(s) + After(f)
  {
    if f.HoleLeft? {
      assert Inorder(Fill(f, s)) == Inorder(s) + [f.id] + Inorder(f.sibling);
    } else {
      assert Inorder(Fill(f, s)) == Inorder(f.sibling) + [f.id] + Inorder(s);
    }
  }

  lemma Regroup(a: seq<nat>, b: seq<nat>, c: seq<nat>, d: seq<nat>, e: seq<nat>)
    ensures a + (b + c + d) + e == (a + b) + c + (d + e)
  {
  }

  lemma SeqAssoc(a: seq<nat>, b: seq<nat>, c: seq<nat>)
    ensures a + b + c == a + (b + c)
  {
  }

  lemma RotUnique(a: Tree, x: nat, b: Tree, y: nat, c: Tree)
    ensures Unique(Node(a, x, Node(b, y, c))) <==> Unique(Node(Node(a, x, b), y, c))
  {
    var A, B, C := Nodes(a), Nodes(b), Nodes(c);
    assert Nodes(Node(b, y, c)) == B + {y} + C;
    assert Nodes(Node(a, x, b)) == A + {x} + B;
  }

  /** The tree is the root's subtree plugged into the empty path, and going up
      one frame moves the frame into the subtree. */
  lemma PlugUp(path: Path, s: Tree)
    requires path != []
    ensures Plug(path, s) == Plug(path[1..], Fill(path[0], s))
  {
  }

  /** Finds the position of a node in a tree. */
  lemma {:induction false} Locate(t: Tree, x: nat) returns (path: Path, s: Tree)
    requires x in Nodes(t)
    ensures t == Plug(path, s) && s.Node? && s.id == x
  {
    if t.id == x {
      path, s := [], t;
    } else if x in Nodes(t.left) {
      var p, s' := Locate(t.left, x);
      PlugAppend(p, HoleLeft(t.id, t.right), s');
      path, s := p + [HoleLeft(t.id, t.right)], s';
    } else {
      var p, s' := Locate(t.right, x);
      PlugAppend(p, HoleRight(t.id, t.left), s');
      path, s := p + [HoleRight(t.id, t.left)], s';
    }
  }

  lemma {:induction false} InorderNodes(t: Tree)
    ensures forall i :: i in Inorder(t) <==> i in Nodes(t)
  {
    if t.Node? {
      InorderNodes(t.left);
      InorderNodes(t.right);
    }
  }

  /** Trees with the same in-order sequence hold the same nodes. */
  lemma SameNodes(t: Tree, t': Tree)
    requires Inorder(t) == Inorder(t')
    ensures Nodes(t) == Nodes(t')
  {
    InorderNodes(t);
    InorderNodes(t');
  }

  lemma {:induction false} PathSeqNodes(path: Path)
    ensures forall i :: i in Pre(path) + Post(path) <==> i in PathNodes(path)
    decreases |path|
  {
    if path != [] {
      PathSeqNodes(path[1..]);
      InorderNodes(path[0].sibling);
    }
  }

  lemma DistinctJoin(a: seq<nat>, x: nat, b: seq<nat>)
    requires Distinct(a) && Distinct(b) && x !in a && x !in b
    requires forall i :: i in a ==> i !in b
    ensures Distinct(a + [x] + b)
  {
    var s := a + [x] + b;
    forall i, j | 0 <= i < j < |s| ensures s[i] != s[j] {
      if j < |a| {
        assert s[i] == a[i] && s[j] == a[j];
      } else if i < |a| {
        assert s[i] == a[i] && s[i] in a;
        if j > |a| {
          assert s[j] == b[j - |a| - 1];
        }
      } else if i == |a| {
        assert s[j] == b[j - |a| - 1];
      } else {
        assert s[i] == b[i - |a| - 1] && s[j] == b[j - |a| - 1];
      }
    }
  }

  /** A tree with no repeated node lists every node exactly once in in-order. */
  lemma {:induction false} UniqueDistinct(t: Tree)
    requires Unique(t)
    ensures Distinct(Inorder(t))
    ensures |Inorder(t)| == |Nodes(t)|
  {
    if t.Node? {
      var l, i, r := t.left, t.id, t.right;
      UniqueDistinct(l);
      UniqueDistinct(r);
      InorderNodes(l);
      InorderNodes(r);
      DistinctJoin(Inorder(l), i, Inorder(r));
      assert |Nodes(l) + {i}| == |Nodes(l)| + 1;
    }
  }

  lemma {:induction false} LeftSpineHasNoPre(path: Path)
    requires LeftSpine(path)
    ensures Pre(path) == []
    decreases |path|
  {
    if path != [] {
      LeftSpineHasNoPre(path[1..]);
    }
  }

  lemma {:induction false} RightSpineHasNoPost(path: Path)
    requires RightSpine(path)
    ensures Post(path) == []
    decreases |path|
  {
    if path != [] {
      RightSpineHasNoPost(path[1..]);
    }
  }

  /** A tree of height h holds fewer than 2^h nodes, and at least h of them. */
  lemma {:induction false} HeightBounds(t: Tree)
    ensures Height(t) <= |Inorder(t)| < Pow2(Height(t))
  {
    if t.Node? {
      HeightBounds(t.left);
      HeightBounds(t.right);
      var h := Height(t);
      assert Pow2(h) == 2 * Pow2(h - 1);
      PowMonotone(Height(t.left), h - 1);
      PowMonotone(Height(t.right), h - 1);
    }
  }

  lemma {:induction false} PowMonotone(a: nat, b: nat)
    requires a <= b
    ensures Pow2(a) <= Pow2(b)
    decreases b
  {
    if a < b {
      PowMonotone(a, b - 1);
    }
  }

  /** A rotation anywhere in a tree keeps its in-order sequence. */
  lemma PlugRotL(path: Path, s: Tree)
    requires s.Node? && s.right.Node?
    ensures Inorder(Plug(path, RotL(s))) == Inorder(Plug(path, s))
  {
    PlugInorder(path, s);
    PlugInorder(path, RotL(s));
    RotLKeeps(s);
  }

  lemma PlugRotR(path: Path, s: Tree)
    requires s.Node? && s.left.Node?
    ensures Inorder(Plug(path, RotR(s))) == Inorder(Plug(path, s))
  {
    PlugInorder(path, s);
    PlugInorder(path, RotR(s));
    RotRKeeps(s);
  }

  lemma PlugNilInorder(path: Path)
    ensures Inorder(Plug(path, Nil)) == Pre(path) + Post(path)
  {
    PlugInorder(path, Nil);
    assert Inorder(Nil) == [];
    assert Pre(path) + [] == Pre(path);
  }

  lemma PlugLeafInorder(path: Path, n: nat)
    ensures Inorder(Plug(path, Node(Nil, n, Nil))) == Pre(path) + [n] + Post(path)
  {
    PlugInorder(path, Node(Nil, n, Nil));
    assert Inorder(Node(Nil, n, Nil)) == [n];
  }
}
