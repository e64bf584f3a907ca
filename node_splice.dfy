/**
 * The link edits of deletion: `_transplant` and the two ways the successor
 * of a node with two children takes its place, each as a function from the
 * links before to the links after, with lemmas saying which tree the new
 * links represent.
 */
module NodeSplice {
  import opened BinaryTrees
  import opened NodeLinks

  /** The links after `_transplant(u, v)`: the child slot of `u`'s parent
      that holds `u` now holds `v` (the root field, outside the arena, when
      that parent is NIL), and `v`'s parent link becomes `u`'s, written even
      when `v` is NIL. */
  ghost function Transplanted(g: Links, u: nat, v: nat): (h: Links)
    ensures |h.left| == |g.left| && |h.right| == |g.right| && |h.parent| == |g.parent|
  {
    if u < |g.parent| && v < |g.parent| && g.parent[u] < |g.left| && g.parent[u] < |g.right| then
      var q := g.parent[u];
      var g1 := Relink(g, q, u, v);
      g1.(parent := g1.parent[v := q])
    else g
  }

  /** The links after the successor `m` takes over the right subtree of `n`. */
  ghost function TakeRight(g: Links, n: nat, m: nat): (h: Links)
    ensures |h.left| == |g.left| && |h.right| == |g.right| && |h.parent| == |g.parent|
  {
    if n < |g.right| && m < |g.right| && g.right[n] < |g.parent| then
      var g1 := g.(right := g.right[m := g.right[n]]);
      g1.(parent := g1.parent[g1.right[m] := m])
    else g
  }

  /** The links after `m` is transplanted into `n`'s place and takes over
      `n`'s left subtree. */
  ghost function Promoted(g: Links, n: nat, m: nat): (h: Links)
    ensures |h.left| == |g.left| && |h.right| == |g.right| && |h.parent| == |g.parent|
  {
    var g1 := Transplanted(g, n, m);
    if n < |g1.left| && m < |g1.left| && g1.left[n] < |g1.parent| then
      var g2 := g1.(left := g1.left[m := g1.left[n]]);
      g2.(parent := g2.parent[g2.left[m] := m])
    else g1
  }

  /** Link by link, what `_transplant(u, v)` changes; `q` is `u`'s parent. */
  lemma TransplantedFacts(g: Links, u: nat, v: nat, q: nat)
    requires IsSlot(g, u) && q == g.parent[u] && q != u && (q != NIL ==> IsSlot(g, q))
    requires v < |g.parent| && v != u && (v != NIL ==> v != q && IsSlot(g, v))
    ensures SameOutside(g, Transplanted(g, u, v), {q, v})
    ensures var h := Transplanted(g, u, v);
      v != NIL ==> IsSlot(h, v) && h.parent[v] == q && h.left[v] == g.left[v] && h.right[v] == g.right[v]
    ensures var h := Transplanted(g, u, v);
      q != NIL ==> (IsSlot(h, q) && h.parent[q] == g.parent[q] &&
        (g.left[q] == u ==> h.left[q] == v && h.right[q] == g.right[q]) &&
        (g.left[q] != u ==> h.right[q] == v && h.left[q] == g.left[q]))
  {
  }

  /** Link by link, what promoting `m` into `n`'s place changes; `l` is
      `n`'s left child and `q` its parent. */
  lemma PromotedFacts(g: Links, n: nat, m: nat, l: nat, q: nat)
    requires IsSlot(g, n) && IsSlot(g, m) && l == g.left[n] && IsSlot(g, l)
    requires q == g.parent[n] && (q != NIL ==> IsSlot(g, q))
    requires n != m && n != l && n != q && m != l && m != q && l != q
    ensures SameOutside(g, Promoted(g, n, m), {q, m, l})
    ensures var h := Promoted(g, n, m);
      IsSlot(h, m) && h.left[m] == l && h.right[m] == g.right[m] && h.parent[m] == q
    ensures var h := Promoted(g, n, m);
      IsSlot(h, l) && h.parent[l] == m && h.left[l] == g.left[l] && h.right[l] == g.right[l]
    ensures var h := Promoted(g, n, m);
      q != NIL ==> (IsSlot(h, q) && h.parent[q] == g.parent[q] &&
        (g.left[q] == n ==> h.left[q] == m && h.right[q] == g.right[q]) &&
        (g.left[q] != n ==> h.right[q] == m && h.left[q] == g.left[q]))
  {
    TransplantedFacts(g, n, m, q);
  }

  /** Link by link, what taking over `n`'s right subtree `r` does to `m`. */
  lemma TakeRightFacts(g: Links, n: nat, m: nat, r: nat)
    requires IsSlot(g, n) && IsSlot(g, m) && r == g.right[n] && IsSlot(g, r)
    requires n != m && n != r && m != r
    ensures SameOutside(g, TakeRight(g, n, m), {m, r})
    ensures var h := TakeRight(g, n, m);
      IsSlot(h, m) && h.right[m] == r && h.left[m] == g.left[m] && h.parent[m] == g.parent[m]
    ensures var h := TakeRight(g, n, m);
      IsSlot(h, n) && h.right[n] == g.right[n] && h.left[n] == g.left[n] && h.parent[n] == g.parent[n]
    ensures var h := TakeRight(g, n, m);
      IsSlot(h, r) && h.parent[r] == m && h.left[r] == g.left[r] && h.right[r] == g.right[r]
  {
  }

  /** Link by link, what the detached `m` taking the place of `n` (with
      left child `l`, right child `r` and parent `q`) changes. */
  lemma SubstitutedFacts(g: Links, n: nat, m: nat, l: nat, r: nat, q: nat)
    requires IsSlot(g, n) && IsSlot(g, m) && l == g.left[n] && IsSlot(g, l) && r == g.right[n] && IsSlot(g, r)
    requires q == g.parent[n] && (q != NIL ==> IsSlot(g, q))
    requires n != m && n != l && n != r && n != q && m != l && m != r && m != q && l != r && l != q && r != q
    ensures SameOutside(g, Promoted(TakeRight(g, n, m), n, m), {q, m, l, r})
    ensures var h := Promoted(TakeRight(g, n, m), n, m);
      IsSlot(h, m) && h.left[m] == l && h.right[m] == r && h.parent[m] == q
    ensures var h := Promoted(TakeRight(g, n, m), n, m);
      IsSlot(h, l) && h.parent[l] == m && h.left[l] == g.left[l] && h.right[l] == g.right[l]
    ensures var h := Promoted(TakeRight(g, n, m), n, m);
      IsSlot(h, r) && h.parent[r] == m && h.left[r] == g.left[r] && h.right[r] == g.right[r]
    ensures var h := Promoted(TakeRight(g, n, m), n, m);
      q != NIL ==> (IsSlot(h, q) && h.parent[q] == g.parent[q] &&
        (g.left[q] == n ==> h.left[q] == m && h.right[q] == g.right[q]) &&
        (g.left[q] != n ==> h.right[q] == m && h.left[q] == g.left[q]))
  {
    TakeRightFacts(g, n, m, r);
    PromotedFacts(TakeRight(g, n, m), n, m, l, q);
    SubstitutedRight(g, n, m, l, r, q);
  }

  /** The right child `r` of `n` keeps its own child links when `m` takes
      `n`'s place. */
  lemma SubstitutedRight(g: Links, n: nat, m: nat, l: nat, r: nat, q: nat)
    requires IsSlot(g, n) && IsSlot(g, m) && l == g.left[n] && IsSlot(g, l) && r == g.right[n] && IsSlot(g, r)
    requires q == g.parent[n] && (q != NIL ==> IsSlot(g, q))
    requires n != m && n != l && n != r && n != q && m != l && m != r && m != q && l != r && l != q && r != q
    ensures var h := Promoted(TakeRight(g, n, m), n, m);
      IsSlot(h, r) && h.parent[r] == m && h.left[r] == g.left[r] && h.right[r] == g.right[r]
  {
    TakeRightFacts(g, n, m, r);
    var g1 := TakeRight(g, n, m);
    PromotedFacts(g1, n, m, l, q);
    RowThrough(g, g1, Promoted(g1, n, m), r, m, {q, m, l});
  }

  /** A row that one link change set up survives a second change that
      leaves it outside. */
  lemma RowThrough(g: Links, g1: Links, h: Links, r: nat, m: nat, D: set<nat>)
    requires IsSlot(g, r) && IsSlot(g1, r) && g1.parent[r] == m && g1.left[r] == g.left[r] && g1.right[r] == g.right[r]
    requires SameOutside(g1, h, D) && r !in D
    ensures IsSlot(h, r) && h.parent[r] == m && h.left[r] == g.left[r] && h.right[r] == g.right[r]
  {
  }

  /** Putting a linked subtree `c` in place of `s` and pointing the parent's
      slot at it links the whole tree again. */
  lemma ReplaceLinks(path: Path, s: Tree, c: Tree, root: nat, g: Links, h: Links)
    requires Linked(Plug(path, s), root, NIL, g) && Unique(Plug(path, s)) && s.Node?
    requires Linked(c, RootId(c), ParentId(path), h) && Unique(c) && PathNodes(path) !! Nodes(c)
    requires Agree(g, h, PathNodes(path) - {ParentId(path)})
    requires path != [] ==>
      IsSlot(g, path[0].id) && IsSlot(h, path[0].id) && h.parent[path[0].id] == g.parent[path[0].id] &&
      (path[0].HoleLeft? ==> h.left[path[0].id] == RootId(c) && h.right[path[0].id] == g.right[path[0].id]) &&
      (path[0].HoleRight? ==> h.right[path[0].id] == RootId(c) && h.left[path[0].id] == g.left[path[0].id])
    ensures Linked(Plug(path, c), if path == [] then RootId(c) else root, NIL, h) && Unique(Plug(path, c))
  {
    Decompose(path, s, root, g);
    if path != [] {
      RelinkPath(path, s.id, RootId(c), root, g, h);
    }
    Recompose(path, c, if path == [] then RootId(c) else root, h);
  }

  /** The node at a position and the links around it. */
  lemma Site(path: Path, s: Tree, root: nat, g: Links)
    requires Linked(Plug(path, s), root, NIL, g) && Unique(Plug(path, s)) && s.Node?
    ensures IsSlot(g, s.id) && g.parent[s.id] == ParentId(path) && ParentId(path) != s.id
    ensures ParentId(path) != NIL ==> IsSlot(g, ParentId(path))
    ensures g.left[s.id] == RootId(s.left) && g.right[s.id] == RootId(s.right)
    ensures s.left.Node? ==> IsSlot(g, s.left.id) && s.left.id != ParentId(path) && s.left.id != s.id
    ensures s.right.Node? ==> IsSlot(g, s.right.id) && s.right.id != ParentId(path) && s.right.id != s.id
    ensures s.left.Node? && s.right.Node? ==> s.left.id != s.right.id
    ensures path != [] ==> (path[0].HoleLeft? <==> g.left[path[0].id] == s.id)
    ensures ParentId(path) == NIL <==> path == []
  {
    Decompose(path, s, root, g);
    LinkedChildren(s, s.id, ParentId(path), g);
    if path != [] {
      assert ParentId(path) in PathNodes(path);
      HoleSide(path, s.id, root, g);
    }
    if s.left.Node? {
      assert s.left.id in Nodes(s.left);
    }
    if s.right.Node? {
      assert s.right.id in Nodes(s.right);
    }
  }

  /** Transplanting the only child `c` of `s.id` into its place removes
      `s.id` from the linked tree. */
  lemma SpliceLinks(path: Path, s: Tree, root: nat, g: Links)
    requires Linked(Plug(path, s), root, NIL, g) && Unique(Plug(path, s)) && s.Node?
    requires s.left == Nil || s.right == Nil
    ensures IsSlot(g, s.id) && g.parent[s.id] == ParentId(path)
    ensures ParentId(path) < |g.left| && ParentId(path) < |g.right|
    ensures g.left[s.id] == RootId(s.left) && g.right[s.id] == RootId(s.right)
    ensures RootId(s.left) < |g.parent| && RootId(s.right) < |g.parent|
    ensures var c := if s.left == Nil then s.right else s.left;
      Linked(Plug(path, c), if path == [] then RootId(c) else root, NIL, Transplanted(g, s.id, RootId(c))) &&
      Unique(Plug(path, c))
    ensures var c := if s.left == Nil then s.right else s.left;
      SameOutside(g, Transplanted(g, s.id, RootId(c)), {ParentId(path), RootId(c)})
  {
    Site(path, s, root, g);
    Decompose(path, s, root, g);
    LinkedChildren(s, s.id, ParentId(path), g);
    var n, q := s.id, ParentId(path);
    var c := if s.left == Nil then s.right else s.left;
    var v := RootId(c);
    TransplantedFacts(g, n, v, q);
    var h := Transplanted(g, n, v);
    if c.Node? {
      assert v in Nodes(c);
    }
    AgreeOutside(g, h, {q, v}, Nodes(c) - {v});
    Reparent(c, v, n, q, g, h);
    AgreeOutside(g, h, {q, v}, PathNodes(path) - {q});
    ReplaceLinks(path, s, c, root, g, h);
  }

  /** When the successor `m` is the right child of `n` (and has no left
      child), promoting it puts `m` in `n`'s place over `n`'s left subtree
      and its own right subtree. */
  lemma PromoteLinks(path: Path, s: Tree, root: nat, g: Links)
    requires Linked(Plug(path, s), root, NIL, g) && Unique(Plug(path, s)) && s.Node?
    requires s.left.Node? && s.right.Node? && s.right.left == Nil
    ensures IsSlot(g, s.id) && IsSlot(g, s.right.id) && g.left[s.id] < |g.parent|
    ensures g.parent[s.id] < |g.left| && g.parent[s.id] < |g.right|
    ensures g.right[s.id] == s.right.id && g.parent[s.right.id] == s.id
    ensures var c := Node(s.left, s.right.id, s.right.right);
      Linked(Plug(path, c), if path == [] then s.right.id else root, NIL, Promoted(g, s.id, s.right.id)) &&
      Unique(Plug(path, c))
    ensures var h := Promoted(g, s.id, s.right.id);
      IsSlot(h, s.id) && h.left[s.id] == g.left[s.id] && h.right[s.id] == g.right[s.id] && h.parent[s.id] == g.parent[s.id]
  {
    Site(path, s, root, g);
    Decompose(path, s, root, g);
    LinkedChildren(s, s.id, ParentId(path), g);
    LinkedChildren(s.right, s.right.id, s.id, g);
    var n, m, l, q := s.id, s.right.id, s.left.id, ParentId(path);
    var mr := s.right.right;
    PromotedFacts(g, n, m, l, q);
    var h := Promoted(g, n, m);
    var D := {q, m, l};
    assert l in Nodes(s.left);
    AgreeOutside(g, h, D, Nodes(s.left) - {l});
    Reparent(s.left, l, n, m, g, h);
    AgreeOutside(g, h, D, Nodes(mr));
    LinkedFrame(mr, RootId(mr), m, g, h);
    var c := Node(s.left, m, mr);
    assert Linked(c, m, q, h);
    AgreeOutside(g, h, D, PathNodes(path) - {q});
    ReplaceLinks(path, s, c, root, g, h);
  }

  /** A detached node `m` takes the place of `s.id`, which has two
      children, and adopts both of them. */
  lemma SubstituteLinks(path: Path, s: Tree, m: nat, root: nat, g: Links)
    requires Linked(Plug(path, s), root, NIL, g) && Unique(Plug(path, s)) && s.Node?
    requires s.left.Node? && s.right.Node? && IsSlot(g, m) && m !in Nodes(Plug(path, s))
    ensures IsSlot(g, s.id) && g.right[s.id] == s.right.id && g.left[s.id] == s.left.id
    ensures IsSlot(g, s.left.id) && IsSlot(g, s.right.id) && s.right.id != s.id
    ensures g.parent[s.id] < |g.left| && g.parent[s.id] < |g.right|
    ensures var c := Node(s.left, m, s.right);
      Linked(Plug(path, c), if path == [] then m else root, NIL, Promoted(TakeRight(g, s.id, m), s.id, m)) &&
      Unique(Plug(path, c))
    ensures var h := Promoted(TakeRight(g, s.id, m), s.id, m);
      IsSlot(h, s.id) && h.left[s.id] == g.left[s.id] && h.right[s.id] == g.right[s.id] && h.parent[s.id] == g.parent[s.id]
  {
    Site(path, s, root, g);
    Decompose(path, s, root, g);
    PlugNodes(path, s);
    LinkedChildren(s, s.id, ParentId(path), g);
    var n, l, r, q := s.id, s.left.id, s.right.id, ParentId(path);
    assert l in Nodes(s.left) && r in Nodes(s.right);
    SubstitutedFacts(g, n, m, l, r, q);
    var h := Promoted(TakeRight(g, n, m), n, m);
    var D := {q, m, l, r};
    AgreeOutside(g, h, D, Nodes(s.left) - {l});
    Reparent(s.left, l, n, m, g, h);
    AgreeOutside(g, h, D, Nodes(s.right) - {r});
    Reparent(s.right, r, n, m, g, h);
    var c := Node(s.left, m, s.right);
    assert Linked(c, m, q, h);
    AgreeOutside(g, h, D, PathNodes(path) - {q});
    ReplaceLinks(path, s, c, root, g, h);
  }

  /** Links of nodes outside the tree do not matter to it. */
  lemma DetachLinks(t: Tree, root: nat, g: Links, h: Links, n: nat)
    requires Linked(t, root, NIL, g) && n !in Nodes(t)
    requires SameOutside(g, h, {n})
    ensures Linked(t, root, NIL, h)
  {
    AgreeOutside(g, h, {n}, Nodes(t));
    LinkedFrame(t, root, NIL, g, h);
  }

  lemma SameOutsideTrans(g1: Links, g2: Links, g3: Links, D: set<nat>)
    requires SameOutside(g1, g2, D) && SameOutside(g2, g3, D)
    ensures SameOutside(g1, g3, D)
  {
  }
}
