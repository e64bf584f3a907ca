/**
 * The linked representation of a treap: every node of the arena has a left,
 * a right and a parent link, each an arena index, with 0 standing for the
 * sentinel NIL. `Linked` ties an abstract tree to these links: each child
 * link points at the child's root and each child's parent link points back.
 * The parent link of NIL itself is never constrained (the source writes it
 * freely).
 */
module NodeLinks {
  import opened BinaryTrees

  datatype Links = Links(left: seq<nat>, right: seq<nat>, parent: seq<nat>)

  /** `i` is a real node with all three links in the arena. */
  ghost predicate IsSlot(g: Links, i: nat)
  {
    NIL < i < |g.left| && i < |g.right| && i < |g.parent|
  }

  /** The link value `x` points at the root of `t`, whose parent link is `p`,
      and below it every child/parent pair of links agrees with `t`. */
  ghost predicate Linked(t: Tree, x: nat, p: nat, g: Links)
  {
    match t
    case Nil => x == NIL
    case Node(l, i, r) =>
      x == i && IsSlot(g, i) && g.parent[i] == p &&
      Linked(l, g.left[i], i, g) && Linked(r, g.right[i], i, g)
  }

  /** The links agree with the frames of `path`, whose hole holds `x`, and the
      top of the path is `root`. */
  ghost predicate LinkedPath(path: Path, x: nat, root: nat, g: Links)
    decreases |path|
  {
    if path == [] then root == x
    else
      var q := path[0].id;
      IsSlot(g, q) &&
      (if path[0].HoleLeft? then g.left[q] == x && Linked(path[0].sibling, g.right[q], q, g)
       else g.right[q] == x && Linked(path[0].sibling, g.left[q], q, g)) &&
      g.parent[q] == ParentId(path[1..]) &&
      LinkedPath(path[1..], q, root, g)
  }

  /** `h` has the same links as `g` at every real node of `S`. */
  ghost predicate Agree(g: Links, h: Links, S: set<nat>)
  {
    forall i :: i in S && IsSlot(g, i) ==>
      IsSlot(h, i) && h.left[i] == g.left[i] && h.right[i] == g.right[i] && h.parent[i] == g.parent[i]
  }

  lemma LinkedRoot(t: Tree, x: nat, p: nat, g: Links)
    requires Linked(t, x, p, g)
    ensures x == RootId(t)
  {
  }

  /** Unfolds one node of a linked tree. */
  lemma LinkedChildren(t: Tree, x: nat, p: nat, g: Links)
    requires Linked(t, x, p, g) && t.Node?
    ensures IsSlot(g, t.id) && x == t.id && g.parent[t.id] == p
    ensures g.left[t.id] == RootId(t.left) && Linked(t.left, RootId(t.left), t.id, g)
    ensures g.right[t.id] == RootId(t.right) && Linked(t.right, RootId(t.right), t.id, g)
  {
    LinkedRoot(t.left, g.left[t.id], t.id, g);
    LinkedRoot(t.right, g.right[t.id], t.id, g);
  }

  /** Every node of a linked tree is a real node of the arena. */
  lemma {:induction false} LinkedSlots(t: Tree, x: nat, p: nat, g: Links)
    requires Linked(t, x, p, g)
    ensures forall i :: i in Nodes(t) ==> IsSlot(g, i)
  {
    if t.Node? {
      LinkedSlots(t.left, g.left[t.id], t.id, g);
      LinkedSlots(t.right, g.right[t.id], t.id, g);
    }
  }

  lemma {:induction false} LinkedPathSlots(path: Path, x: nat, root: nat, g: Links)
    requires LinkedPath(path, x, root, g)
    ensures forall i :: i in PathNodes(path) ==> IsSlot(g, i)
    decreases |path|
  {
    if path != [] {
      var q := path[0].id;
      LinkedPathSlots(path[1..], q, root, g);
      if path[0].HoleLeft? {
        LinkedSlots(path[0].sibling, g.right[q], q, g);
      } else {
        LinkedSlots(path[0].sibling, g.left[q], q, g);
      }
    }
  }

  /** Links outside a tree do not matter to it. */
  lemma {:induction false} LinkedFrame(t: Tree, x: nat, p: nat, g: Links, h: Links)
    requires Linked(t, x, p, g) && Agree(g, h, Nodes(t))
    ensures Linked(t, x, p, h)
  {
    if t.Node? {
      LinkedFrame(t.left, g.left[t.id], t.id, g, h);
      LinkedFrame(t.right, g.right[t.id], t.id, g, h);
    }
  }

  lemma {:induction false} LinkedPathFrame(path: Path, x: nat, root: nat, g: Links, h: Links)
    requires LinkedPath(path, x, root, g) && Agree(g, h, PathNodes(path))
    ensures LinkedPath(path, x, root, h)
    decreases |path|
  {
    if path != [] {
      var q := path[0].id;
      LinkedPathFrame(path[1..], q, root, g, h);
      if path[0].HoleLeft? {
        LinkedFrame(path[0].sibling, g.right[q], q, g, h);
      } else {
        LinkedFrame(path[0].sibling, g.left[q], q, g, h);
      }
    }
  }

  /** A linked subtree whose root gets a new parent link stays linked. */
  lemma Reparent(t: Tree, x: nat, p: nat, p': nat, g: Links, h: Links)
    requires Linked(t, x, p, g) && Unique(t)
    requires Agree(g, h, Nodes(t) - {x})
    requires x != NIL ==> IsSlot(h, x) && h.left[x] == g.left[x] && h.right[x] == g.right[x] && h.parent[x] == p'
    ensures Linked(t, x, p', h)
  {
    if t.Node? {
      LinkedFrame(t.left, g.left[x], x, g, h);
      LinkedFrame(t.right, g.right[x], x, g, h);
    }
  }

  /** A whole tree is linked exactly when its path and the plugged subtree are. */
  lemma {:induction false} PlugLinked(path: Path, s: Tree, root: nat, g: Links)
    ensures Linked(Plug(path, s), root, NIL, g) <==>
            LinkedPath(path, RootId(s), root, g) && Linked(s, RootId(s), ParentId(path), g)
    decreases |path|
  {
    if path != [] {
      PlugLinked(path[1..], Fill(path[0], s), root, g);
    }
  }

  /** The arenas `g` and `h` differ at most at the nodes of `D`. */
  ghost predicate SameOutside(g: Links, h: Links, D: set<nat>)
  {
    forall i: nat :: IsSlot(g, i) && i !in D ==>
      IsSlot(h, i) && h.left[i] == g.left[i] && h.right[i] == g.right[i] && h.parent[i] == g.parent[i]
  }

  lemma SameOutsideWiden(g: Links, h: Links, D: set<nat>, E: set<nat>)
    requires SameOutside(g, h, D) && forall i :: i in D && i != NIL ==> i in E
    ensures SameOutside(g, h, E)
  {
  }

  lemma AgreeOutside(g: Links, h: Links, D: set<nat>, S: set<nat>)
    requires SameOutside(g, h, D) && S !! D
    ensures Agree(g, h, S)
  {
  }

  /** Splits a linked tree with no repeated node at a position. */
  lemma Decompose(path: Path, s: Tree, root: nat, g: Links)
    requires Linked(Plug(path, s), root, NIL, g) && Unique(Plug(path, s))
    ensures LinkedPath(path, RootId(s), root, g) && Linked(s, RootId(s), ParentId(path), g)
    ensures UniquePath(path) && Unique(s) && PathNodes(path) !! Nodes(s)
    ensures forall i :: i in Nodes(s) ==> IsSlot(g, i)
    ensures forall i :: i in PathNodes(path) ==> IsSlot(g, i)
    ensures NIL !in Nodes(s) && NIL !in PathNodes(path)
  {
    PlugLinked(path, s, root, g);
    PlugUnique(path, s);
    LinkedSlots(s, RootId(s), ParentId(path), g);
    LinkedPathSlots(path, RootId(s), root, g);
  }

  /** Puts a split tree back together. */
  lemma Recompose(path: Path, s: Tree, root: nat, g: Links)
    requires LinkedPath(path, RootId(s), root, g) && Linked(s, RootId(s), ParentId(path), g)
    requires UniquePath(path) && Unique(s) && PathNodes(path) !! Nodes(s)
    ensures Linked(Plug(path, s), root, NIL, g) && Unique(Plug(path, s))
  {
    PlugLinked(path, s, root, g);
    PlugUnique(path, s);
  }

  /** Which child slot of the parent holds the node at the hole: the left one
      exactly when the hole is a left hole. */
  lemma HoleSide(path: Path, x: nat, root: nat, g: Links)
    requires LinkedPath(path, x, root, g) && UniquePath(path) && path != []
    requires x != NIL && x !in PathNodes(path)
    ensures path[0].HoleLeft? <==> g.left[path[0].id] == x
    ensures path[0].HoleRight? <==> g.right[path[0].id] == x
  {
    var q, sib := path[0].id, path[0].sibling;
    if path[0].HoleLeft? {
      LinkedRoot(sib, g.right[q], q, g);
    } else {
      LinkedRoot(sib, g.left[q], q, g);
    }
  }

  /** Changing only the child slot that holds the hole keeps the path linked,
      now around the new value of that slot. */
  lemma RelinkPath(path: Path, x: nat, y: nat, root: nat, g: Links, h: Links)
    requires LinkedPath(path, x, root, g) && UniquePath(path) && path != []
    requires Agree(g, h, PathNodes(path) - {path[0].id})
    requires IsSlot(h, path[0].id) && h.parent[path[0].id] == g.parent[path[0].id]
    requires path[0].HoleLeft? ==> h.left[path[0].id] == y && h.right[path[0].id] == g.right[path[0].id]
    requires path[0].HoleRight? ==> h.right[path[0].id] == y && h.left[path[0].id] == g.left[path[0].id]
    ensures LinkedPath(path, y, root, h)
  {
    var q, sib, rest := path[0].id, path[0].sibling, path[1..];
    assert Agree(g, h, PathNodes(rest));
    LinkedPathFrame(rest, q, root, g, h);
    assert Agree(g, h, Nodes(sib));
    if path[0].HoleLeft? {
      LinkedFrame(sib, g.right[q], q, g, h);
    } else {
      LinkedFrame(sib, g.left[q], q, g, h);
    }
  }

  // ---------------------------------------------------------------------
  // Rotations on the links.

  /** What the links say around a left rotation at `s.id`. */
  lemma RotateLeftSite(path: Path, s: Tree, root: nat, g: Links)
    requires Linked(Plug(path, s), root, NIL, g) && Unique(Plug(path, s))
    requires s.Node? && s.right.Node?
    ensures IsSlot(g, s.id) && IsSlot(g, s.right.id) && g.right[s.id] == s.right.id
    ensures g.left[s.right.id] == RootId(s.right.left) && g.parent[s.id] == ParentId(path)
    ensures RootId(s.right.left) != NIL ==> IsSlot(g, RootId(s.right.left))
    ensures path != [] ==> IsSlot(g, path[0].id) && (path[0].HoleLeft? <==> g.left[path[0].id] == s.id)
    ensures s.right.id != s.id && s.id != NIL && s.right.id != NIL
    ensures ParentId(path) != s.id && ParentId(path) != s.right.id && (ParentId(path) == NIL <==> path == [])
    ensures RootId(s.right.left) != s.id && RootId(s.right.left) != s.right.id
    ensures RootId(s.right.left) != NIL ==> RootId(s.right.left) != ParentId(path)
  {
    Decompose(path, s, root, g);
    if path != [] { assert ParentId(path) in PathNodes(path); }
    LinkedChildren(s, s.id, ParentId(path), g);
    LinkedChildren(s.right, s.right.id, s.id, g);
    if path != [] {
      HoleSide(path, s.id, root, g);
    }
  }

  lemma RotateRightSite(path: Path, s: Tree, root: nat, g: Links)
    requires Linked(Plug(path, s), root, NIL, g) && Unique(Plug(path, s))
    requires s.Node? && s.left.Node?
    ensures IsSlot(g, s.id) && IsSlot(g, s.left.id) && g.left[s.id] == s.left.id
    ensures g.right[s.left.id] == RootId(s.left.right) && g.parent[s.id] == ParentId(path)
    ensures RootId(s.left.right) != NIL ==> IsSlot(g, RootId(s.left.right))
    ensures path != [] ==> IsSlot(g, path[0].id) && (path[0].HoleLeft? <==> g.left[path[0].id] == s.id)
    ensures s.left.id != s.id && s.id != NIL && s.left.id != NIL
    ensures ParentId(path) != s.id && ParentId(path) != s.left.id && (ParentId(path) == NIL <==> path == [])
    ensures RootId(s.left.right) != s.id && RootId(s.left.right) != s.left.id
    ensures RootId(s.left.right) != NIL ==> RootId(s.left.right) != ParentId(path)
  {
    Decompose(path, s, root, g);
    if path != [] { assert ParentId(path) in PathNodes(path); }
    LinkedChildren(s, s.id, ParentId(path), g);
    LinkedChildren(s.left, s.left.id, s.id, g);
    if path != [] {
      HoleSide(path, s.id, root, g);
    }
  }

  /** The nodes a left rotation relinks are none of the nodes it leaves alone. */
  lemma RotateLeftApart(path: Path, s: Tree)
    requires Unique(Plug(path, s)) && s.Node? && s.right.Node?
    requires NIL !in Nodes(s) && NIL !in PathNodes(path)
    ensures var D := {s.id, s.right.id, RootId(s.right.left), ParentId(path)};
      Nodes(s.left) !! D && Nodes(s.right.right) !! D &&
      (Nodes(s.right.left) - {RootId(s.right.left)}) !! D && (PathNodes(path) - {ParentId(path)}) !! D
  {
    PlugUnique(path, s);
    if path != [] {
      assert ParentId(path) in PathNodes(path);
    }
    if s.right.left.Node? {
      assert RootId(s.right.left) in Nodes(s.right.left);
    }
  }

  lemma RotateRightApart(path: Path, s: Tree)
    requires Unique(Plug(path, s)) && s.Node? && s.left.Node?
    requires NIL !in Nodes(s) && NIL !in PathNodes(path)
    ensures var D := {s.id, s.left.id, RootId(s.left.right), ParentId(path)};
      Nodes(s.right) !! D && Nodes(s.left.left) !! D &&
      (Nodes(s.left.right) - {RootId(s.left.right)}) !! D && (PathNodes(path) - {ParentId(path)}) !! D
  {
    PlugUnique(path, s);
    if path != [] {
      assert ParentId(path) in PathNodes(path);
    }
    if s.left.right.Node? {
      assert RootId(s.left.right) in Nodes(s.left.right);
    }
  }

  /** The links after a left rotation at `x = s.id` with right child `y`,
      whose left subtree `b` moves under `x`. */
  lemma RotateLeftFrame(path: Path, s: Tree, root: nat, root': nat, g: Links, h: Links)
    requires Linked(Plug(path, s), root, NIL, g) && Unique(Plug(path, s))
    requires s.Node? && s.right.Node?
    requires IsSlot(g, s.id) && IsSlot(g, s.right.id) && (path != [] ==> IsSlot(g, path[0].id))
    requires RootId(s.right.left) != NIL ==> IsSlot(g, RootId(s.right.left))
    requires SameOutside(g, h, {s.id, s.right.id, RootId(s.right.left), ParentId(path)})
    requires IsSlot(h, s.id) && IsSlot(h, s.right.id)
    requires h.left[s.id] == g.left[s.id] && h.right[s.id] == RootId(s.right.left) && h.parent[s.id] == s.right.id
    requires h.left[s.right.id] == s.id && h.right[s.right.id] == g.right[s.right.id]
    requires h.parent[s.right.id] == ParentId(path)
    requires RootId(s.right.left) != NIL ==>
      IsSlot(h, RootId(s.right.left)) && h.parent[RootId(s.right.left)] == s.id &&
      h.left[RootId(s.right.left)] == g.left[RootId(s.right.left)] &&
      h.right[RootId(s.right.left)] == g.right[RootId(s.right.left)]
    requires path != [] ==>
      IsSlot(h, path[0].id) && h.parent[path[0].id] == g.parent[path[0].id] &&
      (path[0].HoleLeft? ==> h.left[path[0].id] == s.right.id && h.right[path[0].id] == g.right[path[0].id]) &&
      (path[0].HoleRight? ==> h.right[path[0].id] == s.right.id && h.left[path[0].id] == g.left[path[0].id])
    requires root' == if path == [] then s.right.id else root
    ensures Linked(Plug(path, RotL(s)), root', NIL, h) && Unique(Plug(path, RotL(s)))
  {
    Decompose(path, s, root, g);
    var x, q, a, b, y, c := s.id, ParentId(path), s.left, s.right.left, s.right.id, s.right.right;
    LinkedChildren(s, x, q, g);
    LinkedChildren(s.right, y, x, g);
    RotateLeftApart(path, s);
    var D := {x, y, RootId(b), q};
    AgreeOutside(g, h, D, Nodes(a));
    LinkedFrame(a, RootId(a), x, g, h);
    AgreeOutside(g, h, D, Nodes(c));
    LinkedFrame(c, RootId(c), y, g, h);
    AgreeOutside(g, h, D, Nodes(b) - {RootId(b)});
    Reparent(b, RootId(b), y, x, g, h);
    assert Linked(RotL(s), y, q, h);
    if path != [] {
      AgreeOutside(g, h, D, PathNodes(path) - {q});
      RelinkPath(path, x, y, root, g, h);
    }
    RotLKeeps(s);
    Recompose(path, RotL(s), root', h);
  }

  /** The links after a right rotation at `x = s.id` with left child `y`,
      whose right subtree `b` moves under `x`. */
  lemma RotateRightFrame(path: Path, s: Tree, root: nat, root': nat, g: Links, h: Links)
    requires Linked(Plug(path, s), root, NIL, g) && Unique(Plug(path, s))
    requires s.Node? && s.left.Node?
    requires IsSlot(g, s.id) && IsSlot(g, s.left.id) && (path != [] ==> IsSlot(g, path[0].id))
    requires RootId(s.left.right) != NIL ==> IsSlot(g, RootId(s.left.right))
    requires SameOutside(g, h, {s.id, s.left.id, RootId(s.left.right), ParentId(path)})
    requires IsSlot(h, s.id) && IsSlot(h, s.left.id)
    requires h.right[s.id] == g.right[s.id] && h.left[s.id] == RootId(s.left.right) && h.parent[s.id] == s.left.id
    requires h.right[s.left.id] == s.id && h.left[s.left.id] == g.left[s.left.id]
    requires h.parent[s.left.id] == ParentId(path)
    requires RootId(s.left.right) != NIL ==>
      IsSlot(h, RootId(s.left.right)) && h.parent[RootId(s.left.right)] == s.id &&
      h.left[RootId(s.left.right)] == g.left[RootId(s.left.right)] &&
      h.right[RootId(s.left.right)] == g.right[RootId(s.left.right)]
    requires path != [] ==>
      IsSlot(h, path[0].id) && h.parent[path[0].id] == g.parent[path[0].id] &&
      (path[0].HoleLeft? ==> h.left[path[0].id] == s.left.id && h.right[path[0].id] == g.right[path[0].id]) &&
      (path[0].HoleRight? ==> h.right[path[0].id] == s.left.id && h.left[path[0].id] == g.left[path[0].id])
    requires root' == if path == [] then s.left.id else root
    ensures Linked(Plug(path, RotR(s)), root', NIL, h) && Unique(Plug(path, RotR(s)))
  {
    Decompose(path, s, root, g);
    var x, q, a, b, y, c := s.id, ParentId(path), s.left.left, s.left.right, s.left.id, s.right;
    LinkedChildren(s, x, q, g);
    LinkedChildren(s.left, y, x, g);
    RotateRightApart(path, s);
    var D := {x, y, RootId(b), q};
    AgreeOutside(g, h, D, Nodes(a));
    LinkedFrame(a, RootId(a), y, g, h);
    AgreeOutside(g, h, D, Nodes(c));
    LinkedFrame(c, RootId(c), x, g, h);
    AgreeOutside(g, h, D, Nodes(b) - {RootId(b)});
    Reparent(b, RootId(b), y, x, g, h);
    assert Linked(RotR(s), y, q, h);
    if path != [] {
      AgreeOutside(g, h, D, PathNodes(path) - {q});
      RelinkPath(path, x, y, root, g, h);
    }
    RotRKeeps(s);
    Recompose(path, RotR(s), root', h);
  }

  /** Points the child link of `q` that holds `from` at `to`; when `q` is NIL
      the link is the treap's root, which is not part of the arena. */
  ghost function Relink(g: Links, q: nat, from: nat, to: nat): (h: Links)
    requires q < |g.left| && q < |g.right|
    ensures SameOutside(g, h, {q}) && |h.left| == |g.left| && |h.right| == |g.right| && h.parent == g.parent
    ensures q != NIL && g.left[q] == from ==> h.left[q] == to && h.right[q] == g.right[q]
    ensures q != NIL && g.left[q] != from ==> h.right[q] == to && h.left[q] == g.left[q]
  {
    if q == NIL then g
    else if g.left[q] == from then g.(left := g.left[q := to])
    else g.(right := g.right[q := to])
  }

  /** The links after a left rotation at `x`, written as the sequence of
      link updates the rotation performs. */
  ghost function RotatedLeft(g: Links, x: nat): (h: Links)
    requires IsSlot(g, x) && IsSlot(g, g.right[x]) && g.left[g.right[x]] < |g.parent|
    requires g.parent[x] < |g.left| && g.parent[x] < |g.right|
    ensures |h.left| == |g.left| && |h.right| == |g.right| && |h.parent| == |g.parent|
  {
    var y := g.right[x];
    var b := g.left[y];
    var right1 := g.right[x := b];
    var parent2 := if b != NIL then g.parent[b := x] else g.parent;
    var parent3 := parent2[y := parent2[x]];
    var q := parent3[x];
    if q == NIL then
      Links(g.left[y := x], right1, parent3[x := y])
    else if g.left[q] == x then
      Links(g.left[q := y][y := x], right1, parent3[x := y])
    else
      Links(g.left[y := x], right1[q := y], parent3[x := y])
  }

  /** The links after a right rotation at `x`. */
  ghost function RotatedRight(g: Links, x: nat): (h: Links)
    requires IsSlot(g, x) && IsSlot(g, g.left[x]) && g.right[g.left[x]] < |g.parent|
    requires g.parent[x] < |g.left| && g.parent[x] < |g.right|
    ensures |h.left| == |g.left| && |h.right| == |g.right| && |h.parent| == |g.parent|
  {
    var y := g.left[x];
    var b := g.right[y];
    var left1 := g.left[x := b];
    var parent2 := if b != NIL then g.parent[b := x] else g.parent;
    var parent3 := parent2[y := parent2[x]];
    var q := parent3[x];
    if q == NIL then
      Links(left1, g.right[y := x], parent3[x := y])
    else if left1[q] == x then
      Links(left1[q := y], g.right[y := x], parent3[x := y])
    else
      Links(left1, g.right[q := y][y := x], parent3[x := y])
  }

  /** Link by link, what a left rotation at `x` changes: `y` is the child
      that rises, `b` the subtree that changes sides, `q` the parent. */
  lemma RotatedLeftFacts(g: Links, x: nat, y: nat, b: nat, q: nat)
    requires IsSlot(g, x) && y == g.right[x] && IsSlot(g, y) && y != x
    requires b == g.left[y] && b != x && b != y && (b != NIL ==> IsSlot(g, b) && b != q)
    requires q == g.parent[x] && q != x && q != y && (q != NIL ==> IsSlot(g, q))
    ensures SameOutside(g, RotatedLeft(g, x), {x, y, b, q})
    ensures var h := RotatedLeft(g, x);
      IsSlot(h, x) && h.left[x] == g.left[x] && h.right[x] == b && h.parent[x] == y
    ensures var h := RotatedLeft(g, x);
      IsSlot(h, y) && h.left[y] == x && h.right[y] == g.right[y] && h.parent[y] == q
    ensures var h := RotatedLeft(g, x);
      b != NIL ==> IsSlot(h, b) && h.parent[b] == x && h.left[b] == g.left[b] && h.right[b] == g.right[b]
    ensures var h := RotatedLeft(g, x);
      q != NIL ==> (IsSlot(h, q) && h.parent[q] == g.parent[q] &&
        (g.left[q] == x ==> h.left[q] == y && h.right[q] == g.right[q]) &&
        (g.left[q] != x ==> h.right[q] == y && h.left[q] == g.left[q]))
  {
  }

  /** Link by link, what a right rotation at `x` changes: `y` is the child
      that rises, `b` the subtree that changes sides, `q` the parent. */
  lemma RotatedRightFacts(g: Links, x: nat, y: nat, b: nat, q: nat)
    requires IsSlot(g, x) && y == g.left[x] && IsSlot(g, y) && y != x
    requires b == g.right[y] && b != x && b != y && (b != NIL ==> IsSlot(g, b) && b != q)
    requires q == g.parent[x] && q != x && q != y && (q != NIL ==> IsSlot(g, q))
    ensures SameOutside(g, RotatedRight(g, x), {x, y, b, q})
    ensures var h := RotatedRight(g, x);
      IsSlot(h, x) && h.right[x] == g.right[x] && h.left[x] == b && h.parent[x] == y
    ensures var h := RotatedRight(g, x);
      IsSlot(h, y) && h.right[y] == x && h.left[y] == g.left[y] && h.parent[y] == q
    ensures var h := RotatedRight(g, x);
      b != NIL ==> IsSlot(h, b) && h.parent[b] == x && h.left[b] == g.left[b] && h.right[b] == g.right[b]
    ensures var h := RotatedRight(g, x);
      q != NIL ==> (IsSlot(h, q) && h.parent[q] == g.parent[q] &&
        (g.left[q] == x ==> h.left[q] == y && h.right[q] == g.right[q]) &&
        (g.left[q] != x ==> h.right[q] == y && h.left[q] == g.left[q]))
  {
  }

  /** A left rotation of the links is a left rotation of the tree they represent. */
  lemma RotateLeftLinks(path: Path, s: Tree, root: nat, g: Links)
    requires Linked(Plug(path, s), root, NIL, g) && Unique(Plug(path, s))
    requires s.Node? && s.right.Node?
    ensures IsSlot(g, s.id) && IsSlot(g, g.right[s.id]) && g.left[g.right[s.id]] < |g.parent|
    ensures g.parent[s.id] < |g.left| && g.parent[s.id] < |g.right|
    ensures g.right[s.id] == s.right.id && (g.parent[s.id] == NIL <==> path == [])
    ensures var root' := if path == [] then s.right.id else root;
      Linked(Plug(path, RotL(s)), root', NIL, RotatedLeft(g, s.id)) && Unique(Plug(path, RotL(s)))
    ensures SameOutside(g, RotatedLeft(g, s.id), Nodes(Plug(path, s)))
  {
    RotateLeftSite(path, s, root, g);
    var b, q := g.left[s.right.id], g.parent[s.id];
    RotatedLeftFacts(g, s.id, s.right.id, b, q);
    var h := RotatedLeft(g, s.id);
    RotateLeftFrame(path, s, root, if path == [] then s.right.id else root, g, h);
    PlugNodes(path, s);
    assert s.id in Nodes(s) && s.right.id in Nodes(s);
    if b != NIL {
      assert b in Nodes(s.right.left);
    }
    if q != NIL {
      assert q in PathNodes(path);
    }
    SameOutsideWiden(g, h, {s.id, s.right.id, b, q}, Nodes(Plug(path, s)));
  }

  /** A right rotation of the links is a right rotation of the tree they represent. */
  lemma RotateRightLinks(path: Path, s: Tree, root: nat, g: Links)
    requires Linked(Plug(path, s), root, NIL, g) && Unique(Plug(path, s))
    requires s.Node? && s.left.Node?
    ensures IsSlot(g, s.id) && IsSlot(g, g.left[s.id]) && g.right[g.left[s.id]] < |g.parent|
    ensures g.parent[s.id] < |g.left| && g.parent[s.id] < |g.right|
    ensures g.left[s.id] == s.left.id && (g.parent[s.id] == NIL <==> path == [])
    ensures var root' := if path == [] then s.left.id else root;
      Linked(Plug(path, RotR(s)), root', NIL, RotatedRight(g, s.id)) && Unique(Plug(path, RotR(s)))
    ensures SameOutside(g, RotatedRight(g, s.id), Nodes(Plug(path, s)))
  {
    RotateRightSite(path, s, root, g);
    var b, q := g.right[s.left.id], g.parent[s.id];
    RotatedRightFacts(g, s.id, s.left.id, b, q);
    var h := RotatedRight(g, s.id);
    RotateRightFrame(path, s, root, if path == [] then s.left.id else root, g, h);
    PlugNodes(path, s);
    assert s.id in Nodes(s) && s.left.id in Nodes(s);
    if b != NIL {
      assert b in Nodes(s.left.right);
    }
    if q != NIL {
      assert q in PathNodes(path);
    }
    SameOutsideWiden(g, h, {s.id, s.left.id, b, q}, Nodes(Plug(path, s)));
  }

  /** The top of a non-empty path is one of its nodes. */
  lemma {:induction false} PathTop(path: Path, x: nat, root: nat, g: Links)
    requires LinkedPath(path, x, root, g) && path != []
    ensures root in PathNodes(path)
    decreases |path|
  {
    if path[1..] != [] {
      PathTop(path[1..], path[0].id, root, g);
    }
  }

  /** What the links say about a node at a known position. */
  lemma Position(path: Path, s: Tree, root: nat, g: Links)
    requires Linked(Plug(path, s), root, NIL, g) && Unique(Plug(path, s)) && s.Node?
    ensures IsSlot(g, s.id) && g.parent[s.id] == ParentId(path)
    ensures g.left[s.id] == RootId(s.left) && g.right[s.id] == RootId(s.right)
    ensures (root == s.id <==> path == []) && (ParentId(path) == NIL <==> path == [])
    ensures path != [] ==> IsSlot(g, path[0].id) && (path[0].HoleLeft? <==> g.left[path[0].id] == s.id)
    ensures path != [] ==> (path[0].HoleRight? <==> g.right[path[0].id] == s.id)
  {
    Decompose(path, s, root, g);
    LinkedChildren(s, s.id, ParentId(path), g);
    if path != [] {
      assert path[0].id in PathNodes(path);
      PathTop(path, s.id, root, g);
      HoleSide(path, s.id, root, g);
    }
  }

  /** Hangs the detached node `n` below `q` (on the left when `toLeft`); when
      `q` is NIL, `n` becomes the root, which is not part of the arena. */
  ghost function Attached(g: Links, q: nat, n: nat, toLeft: bool): (h: Links)
    requires n < |g.parent| && q < |g.left| && q < |g.right|
    ensures |h.left| == |g.left| && |h.right| == |g.right| && |h.parent| == |g.parent|
  {
    var g1 := g.(parent := g.parent[n := q]);
    if q == NIL then g1
    else if toLeft then g1.(left := g1.left[q := n])
    else g1.(right := g1.right[q := n])
  }

  /** Attaching a detached node at an empty hole links it there. */
  lemma AttachLinks(path: Path, n: nat, root: nat, g: Links, toLeft: bool)
    requires Linked(Plug(path, Nil), root, NIL, g) && Unique(Plug(path, Nil))
    requires IsSlot(g, n) && n !in Nodes(Plug(path, Nil)) && g.left[n] == NIL && g.right[n] == NIL
    requires path != [] ==> (toLeft <==> path[0].HoleLeft?)
    ensures ParentId(path) < |g.left| && ParentId(path) < |g.right|
    ensures var root' := if path == [] then n else root;
      Linked(Plug(path, Node(Nil, n, Nil)), root', NIL, Attached(g, ParentId(path), n, toLeft)) &&
      Unique(Plug(path, Node(Nil, n, Nil)))
  {
    Decompose(path, Nil, root, g);
    PlugNodes(path, Nil);
    var q := ParentId(path);
    if path != [] {
      assert q in PathNodes(path);
    }
    var h := Attached(g, q, n, toLeft);
    var leaf := Node(Nil, n, Nil);
    assert SameOutside(g, h, {n, q});
    assert Linked(leaf, n, q, h);
    if path != [] {
      AgreeOutside(g, h, {n, q}, PathNodes(path) - {q});
      RelinkPath(path, NIL, n, if path == [] then n else root, g, h);
    }
    Recompose(path, leaf, if path == [] then n else root, h);
  }

  /** The child links of a node at a known position. */
  lemma ChildLinks(path: Path, s: Tree, root: nat, g: Links)
    requires Linked(Plug(path, s), root, NIL, g) && Unique(Plug(path, s)) && s.Node?
    ensures IsSlot(g, s.id) && g.left[s.id] == RootId(s.left) && g.right[s.id] == RootId(s.right)
    ensures (s.left == Nil <==> g.left[s.id] == NIL) && (s.right == Nil <==> g.right[s.id] == NIL)
  {
    Decompose(path, s, root, g);
    LinkedChildren(s, s.id, ParentId(path), g);
  }
}
