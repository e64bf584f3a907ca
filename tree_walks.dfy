/**
 * Where the cursor walks of the treap (minimum, maximum, successor,
 * predecessor) land, stated on the abstract tree: each walk moves between
 * neighbouring positions of the in-order sequence.
 */
module TreeWalks {
  import opened BinaryTrees

  ghost function Last(s: seq<nat>): nat
    requires s != []
  {
    s[|s| - 1]
  }

  /** The sequence read back to front. */
  ghost function Reversed(s: seq<nat>): seq<nat>
    decreases |s|
  {
    if s == [] then [] else Reversed(s[1..]) + [s[0]]
  }

  /** Reading back to front starts with the last element. */
  lemma {:induction false} ReversedLast(s: seq<nat>)
    requires s != []
    ensures Reversed(s) == [s[|s| - 1]] + Reversed(s[..|s| - 1])
    decreases |s|
  {
    if |s| > 1 {
      ReversedLast(s[1..]);
      assert s[1..][..|s| - 2] == s[..|s| - 1][1..];
      assert s[..|s| - 1][0] == s[0];
    }
  }

  lemma PathAssoc(a: Path, b: Path, c: Path)
    ensures a + b + c == a + (b + c)
  {
  }

  /** Subtrees with the same in-order sequence leave the whole tree's
      in-order sequence unchanged. */
  lemma PlugSameInorder(path: Path, a: Tree, b: Tree)
    requires Inorder(a) == Inorder(b)
    ensures Inorder(Plug(path, a)) == Inorder(Plug(path, b))
  {
    PlugInorder(path, a);
    PlugInorder(path, b);
  }

  /** Pushing a frame onto a path is filling that frame first. */
  lemma PlugPush(f: Frame, p: Path, q: Path, c: Tree)
    ensures Plug([f] + p, c) == Plug(p, Fill(f, c))
    ensures Plug([f] + p + q, c) == Plug(p + q, Fill(f, c))
  {
    assert ([f] + p)[1..] == p;
    assert ([f] + p + q)[1..] == p + q;
  }

  /** Going left from the top only, the node without a left child comes
      first in in-order. */
  lemma LeftmostFirst(spine: Path, u: Tree)
    requires LeftSpine(spine) && u.Node? && u.left == Nil
    ensures Inorder(Plug(spine, u)) == [u.id] + Inorder(u.right) + Post(spine)
  {
    PlugInorder(spine, u);
    LeftSpineHasNoPre(spine);
    var c := Inorder(u.right);
    assert Inorder(u) == [] + [u.id] + c;
    assert [] + [u.id] + c == [u.id] + c;
    assert [] + ([u.id] + c) == [u.id] + c;
  }

  /** Going right from the top only, the node without a right child comes
      last in in-order. */
  lemma RightmostLast(spine: Path, u: Tree)
    requires RightSpine(spine) && u.Node? && u.right == Nil
    ensures Inorder(Plug(spine, u)) == Pre(spine) + Inorder(u.left) + [u.id]
  {
    PlugInorder(spine, u);
    RightSpineHasNoPost(spine);
    assert Inorder(u) == Inorder(u.left) + [u.id];
  }

  /** One more step left keeps the path a left spine. */
  lemma SpineLeft(spine: Path, u: Tree)
    requires LeftSpine(spine) && u.Node?
    ensures LeftSpine([HoleLeft(u.id, u.right)] + spine)
    ensures Plug([HoleLeft(u.id, u.right)] + spine, u.left) == Plug(spine, u)
  {
    PlugPush(HoleLeft(u.id, u.right), spine, [], u.left);
  }

  lemma SpineRight(spine: Path, u: Tree)
    requires RightSpine(spine) && u.Node?
    ensures RightSpine([HoleRight(u.id, u.left)] + spine)
    ensures Plug([HoleRight(u.id, u.left)] + spine, u.right) == Plug(spine, u)
  {
    PlugPush(HoleRight(u.id, u.left), spine, [], u.right);
  }

  /** The position of the `i`-th node of the in-order sequence: the nodes
      before it are those before its subtree and those of its left subtree. */
  lemma Where(t: Tree, i: nat) returns (path: Path, s: Tree)
    requires Unique(t) && i < |Inorder(t)|
    ensures t == Plug(path, s) && s.Node? && s.id == Inorder(t)[i]
    ensures |Pre(path)| + |Inorder(s.left)| == i
  {
    UniqueDistinct(t);
    InorderNodes(t);
    assert Inorder(t)[i] in Inorder(t);
    path, s := Locate(t, Inorder(t)[i]);
    PlugInorder(path, s);
    var l, r := Inorder(s.left), Inorder(s.right);
    Regroup(Pre(path), l, [s.id], r, Post(path));
    var j := |Pre(path)| + |l|;
    assert Inorder(t)[j] == s.id;
  }

  /** With a right subtree, the next node in in-order is its first node. */
  lemma NextBelow(path: Path, s: Tree)
    requires s.Node? && s.right.Node?
    ensures var i, c := |Pre(path)| + |Inorder(s.left)|, Inorder(Plug(path, s));
      i + 1 < |c| && Inorder(s.right) != [] && c[i + 1] == Inorder(s.right)[0]
  {
    PlugInorder(path, s);
    var l, r := Inorder(s.left), Inorder(s.right);
    Regroup(Pre(path), l + [s.id], [], r, Post(path));
    assert Inorder(s) == (l + [s.id]) + [] + r;
    assert r == Inorder(s.right.left) + [s.right.id] + Inorder(s.right.right);
  }

  /** With a left subtree, the previous node in in-order is its last node. */
  lemma PrevBelow(path: Path, s: Tree)
    requires s.Node? && s.left.Node?
    ensures var i, c := |Pre(path)| + |Inorder(s.left)|, Inorder(Plug(path, s));
      1 <= i < |c| && Inorder(s.left) != [] && c[i - 1] == Last(Inorder(s.left))
  {
    PlugInorder(path, s);
    var l, r := Inorder(s.left), Inorder(s.right);
    Regroup(Pre(path), l, [s.id], r, Post(path));
    assert l == Inorder(s.left.left) + [s.left.id] + Inorder(s.left.right);
  }

  /** Leaving a right child upwards: the subtree grows at its front only. */
  lemma UpFromRight(p: Path, t: Tree)
    requires p != [] && p[0].HoleRight? && t.Node?
    ensures var u := Fill(p[0], t);
      Inorder(u) != [] && Last(Inorder(u)) == Last(Inorder(t)) &&
      |Pre(p[1..])| + |Inorder(u)| == |Pre(p)| + |Inorder(t)|
  {
    var l := Inorder(p[0].sibling);
    assert Inorder(Fill(p[0], t)) == (l + [p[0].id]) + Inorder(t);
  }

  /** Leaving a left child upwards: the subtree grows at its back only. */
  lemma UpFromLeft(p: Path, t: Tree)
    requires p != [] && p[0].HoleLeft? && t.Node?
    ensures var u := Fill(p[0], t);
      Inorder(u) != [] && Inorder(u)[0] == Inorder(t)[0] && |Pre(p[1..])| == |Pre(p)|
  {
    var r := Inorder(p[0].sibling);
    assert Inorder(Fill(p[0], t)) == Inorder(t) + ([p[0].id] + r);
  }

  /** Below a left hole, the node right after the subtree is the frame's node. */
  lemma NextAbove(p: Path, t: Tree)
    requires p != [] && p[0].HoleLeft?
    ensures var i, c := |Pre(p)| + |Inorder(t)|, Inorder(Plug(p, t));
      i < |c| && c[i] == p[0].id
  {
    PlugInorder(p, t);
    assert Post(p) == [p[0].id] + Inorder(p[0].sibling) + Post(p[1..]);
  }

  /** Below a right hole, the node right before the subtree is the frame's node. */
  lemma PrevAbove(p: Path, t: Tree)
    requires p != [] && p[0].HoleRight?
    ensures var i, c := |Pre(p)|, Inorder(Plug(p, t));
      1 <= i <= |c| && c[i - 1] == p[0].id
  {
    PlugInorder(p, t);
    var a := Pre(p[1..]) + Inorder(p[0].sibling);
    assert Pre(p) == a + [p[0].id];
  }
}
