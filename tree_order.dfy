/**
 * Binary-search-tree order over node keys. Keys live in the arena (one per
 * node index); duplicates are allowed, so the order is that the in-order key
 * sequence never decreases.
 */
module TreeOrder {
  import opened BinaryTrees

  /** The key of node `i` (0 for an index outside the arena). */
  ghost function KeyAt(K: seq<int>, i: nat): int
  {
    if i < |K| then K[i] else 0
  }

  ghost predicate KeysSorted(s: seq<nat>, K: seq<int>)
  {
    forall i, j {:trigger KeyAt(K, s[i]), KeyAt(K, s[j])} :: 0 <= i < j < |s| ==> KeyAt(K, s[i]) <= KeyAt(K, s[j])
  }

  /** BST order: every key in a left subtree is at most its node's key and
      every key in a right subtree at least, i.e. in-order keys are sorted. */
  ghost predicate Ordered(t: Tree, K: seq<int>)
  {
    KeysSorted(Inorder(t), K)
  }

  ghost predicate AtMost(s: seq<nat>, k: int, K: seq<int>)
  {
    forall i {:trigger KeyAt(K, s[i])} :: 0 <= i < |s| ==> KeyAt(K, s[i]) <= k
  }

  ghost predicate AtLeast(s: seq<nat>, k: int, K: seq<int>)
  {
    forall i {:trigger KeyAt(K, s[i])} :: 0 <= i < |s| ==> k <= KeyAt(K, s[i])
  }

  ghost predicate Above(s: seq<nat>, k: int, K: seq<int>)
  {
    forall i {:trigger KeyAt(K, s[i])} :: 0 <= i < |s| ==> k < KeyAt(K, s[i])
  }

  /** A node with key `k` may sit at the hole of `path` without breaking the
      order: every node before the hole has a key at most `k`, every node after
      it a key at least `k`. */
  ghost predicate Fits(path: Path, k: int, K: seq<int>)
  {
    AtMost(Pre(path), k, K) && AtLeast(Post(path), k, K)
  }

  /** No node of `S` has key `k`. */
  ghost predicate KeyAbsent(S: set<nat>, k: int, K: seq<int>)
  {
    forall j :: j in S ==> KeyAt(K, j) != k
  }

  // ---------------------------------------------------------------------
  // Sequence facts.

  lemma SortedRemove(a: seq<nat>, x: nat, b: seq<nat>, K: seq<int>)
    requires KeysSorted(a + [x] + b, K)
    ensures KeysSorted(a + b, K)
  {
    var s, t := a + [x] + b, a + b;
    forall i, j | 0 <= i < j < |t| ensures KeyAt(K, t[i]) <= KeyAt(K, t[j]) {
      var i' := if i < |a| then i else i + 1;
      var j' := if j < |a| then j else j + 1;
      assert t[i] == s[i'] && t[j] == s[j'];
    }
  }

  lemma SortedInsert(a: seq<nat>, x: nat, b: seq<nat>, K: seq<int>)
    requires KeysSorted(a + b, K)
    requires AtMost(a, KeyAt(K, x), K) && AtLeast(b, KeyAt(K, x), K)
    ensures KeysSorted(a + [x] + b, K)
  {
    var s, t := a + [x] + b, a + b;
    forall i, j | 0 <= i < j < |s| ensures KeyAt(K, s[i]) <= KeyAt(K, s[j]) {
      if j < |a| {
        assert s[i] == t[i] && s[j] == t[j];
      } else if i < |a| && j == |a| {
        assert s[i] == a[i];
      } else if i < |a| {
        assert s[i] == t[i] && s[j] == t[j - 1];
      } else if i == |a| {
        assert s[j] == b[j - |a| - 1];
      } else {
        assert s[i] == t[i - 1] && s[j] == t[j - 1];
      }
    }
  }

  /** The order holds around every node: what comes before it has a key at
      most its key, what comes after at least. */
  lemma SortedAround(a: seq<nat>, x: nat, b: seq<nat>, K: seq<int>)
    requires KeysSorted(a + [x] + b, K)
    ensures AtMost(a, KeyAt(K, x), K) && AtLeast(b, KeyAt(K, x), K)
    ensures KeysSorted(a, K) && KeysSorted(b, K)
  {
    var s := a + [x] + b;
    assert s[|a|] == x;
    forall i | 0 <= i < |a| ensures KeyAt(K, a[i]) <= KeyAt(K, x) {
      assert s[i] == a[i];
    }
    forall i | 0 <= i < |b| ensures KeyAt(K, x) <= KeyAt(K, b[i]) {
      assert s[|a| + 1 + i] == b[i];
    }
    forall i, j | 0 <= i < j < |a| ensures KeyAt(K, a[i]) <= KeyAt(K, a[j]) {
      assert s[i] == a[i] && s[j] == a[j];
    }
    forall i, j | 0 <= i < j < |b| ensures KeyAt(K, b[i]) <= KeyAt(K, b[j]) {
      assert s[|a| + 1 + i] == b[i] && s[|a| + 1 + j] == b[j];
    }
  }

  // ---------------------------------------------------------------------
  // Order facts about positions in a tree.

  lemma AtMostJoin(a: seq<nat>, b: seq<nat>, k: int, K: seq<int>)
    requires AtMost(a + b, k, K)
    ensures AtMost(a, k, K) && AtMost(b, k, K)
  {
    forall i | 0 <= i < |a| ensures KeyAt(K, a[i]) <= k { assert (a + b)[i] == a[i]; }
    forall i | 0 <= i < |b| ensures KeyAt(K, b[i]) <= k { assert (a + b)[|a| + i] == b[i]; }
  }

  lemma AtLeastJoin(a: seq<nat>, b: seq<nat>, k: int, K: seq<int>)
    requires AtLeast(a + b, k, K)
    ensures AtLeast(a, k, K) && AtLeast(b, k, K)
  {
    forall i | 0 <= i < |a| ensures k <= KeyAt(K, a[i]) { assert (a + b)[i] == a[i]; }
    forall i | 0 <= i < |b| ensures k <= KeyAt(K, b[i]) { assert (a + b)[|a| + i] == b[i]; }
  }

  /** The nodes before and after the hole one level below node `c`. */
  lemma ExtendPath(path: Path, c: nat, sib: Tree)
    ensures Pre([HoleLeft(c, sib)] + path) == Pre(path)
    ensures Post([HoleLeft(c, sib)] + path) == [c] + Inorder(sib) + Post(path)
    ensures Pre([HoleRight(c, sib)] + path) == Pre(path) + Inorder(sib) + [c]
    ensures Post([HoleRight(c, sib)] + path) == Post(path)
  {
    assert ([HoleLeft(c, sib)] + path)[1..] == path;
    assert ([HoleRight(c, sib)] + path)[1..] == path;
  }

  /** A node of an ordered tree fits at its own position. */
  lemma {:induction false} FitsAtNode(path: Path, s: Tree, K: seq<int>)
    requires Ordered(Plug(path, s), K) && s.Node?
    ensures Fits(path, KeyAt(K, s.id), K)
    ensures AtMost(Inorder(s.left), KeyAt(K, s.id), K) && AtLeast(Inorder(s.right), KeyAt(K, s.id), K)
  {
    PlugInorder(path, s);
    var l, c, r := Inorder(s.left), s.id, Inorder(s.right);
    var pre, post := Pre(path), Post(path);
    assert Inorder(s) == l + [c] + r;
    Regroup(pre, l, [c], r, post);
    SortedAround(pre + l, c, r + post, K);
    AtMostJoin(pre, l, KeyAt(K, c), K);
    AtLeastJoin(r, post, KeyAt(K, c), K);
  }

  lemma AtMostConcat(a: seq<nat>, b: seq<nat>, k: int, k': int, K: seq<int>)
    requires AtMost(a, k', K) && AtMost(b, k', K) && k' <= k
    ensures AtMost(a + b, k, K)
  {
    forall i | 0 <= i < |a + b| ensures KeyAt(K, (a + b)[i]) <= k {
      if i < |a| { assert (a + b)[i] == a[i]; } else { assert (a + b)[i] == b[i - |a|]; }
    }
  }

  lemma AtLeastConcat(a: seq<nat>, b: seq<nat>, k: int, k': int, K: seq<int>)
    requires AtLeast(a, k', K) && AtLeast(b, k', K) && k <= k'
    ensures AtLeast(a + b, k, K)
  {
    forall i | 0 <= i < |a + b| ensures k <= KeyAt(K, (a + b)[i]) {
      if i < |a| { assert (a + b)[i] == a[i]; } else { assert (a + b)[i] == b[i - |a|]; }
    }
  }

  /** One step of the descent from `c` towards key `k`: the key still fits
      below the child the search moves to. */
  lemma {:induction false} DescendFits(path: Path, s: Tree, k: int, K: seq<int>)
    requires Ordered(Plug(path, s), K) && s.Node? && Fits(path, k, K)
    ensures k < KeyAt(K, s.id) ==> Fits([HoleLeft(s.id, s.right)] + path, k, K)
    ensures KeyAt(K, s.id) <= k ==> Fits([HoleRight(s.id, s.left)] + path, k, K)
  {
    FitsAtNode(path, s, K);
    DescendStep(path, s.left, s.id, s.right, k, K);
  }

  lemma DescendStep(path: Path, l: Tree, c: nat, r: Tree, k: int, K: seq<int>)
    requires AtMost(Inorder(l), KeyAt(K, c), K) && AtLeast(Inorder(r), KeyAt(K, c), K)
    requires Fits(path, k, K)
    ensures k < KeyAt(K, c) ==> Fits([HoleLeft(c, r)] + path, k, K)
    ensures KeyAt(K, c) <= k ==> Fits([HoleRight(c, l)] + path, k, K)
  {
    ExtendPath(path, c, r);
    ExtendPath(path, c, l);
    var kc := KeyAt(K, c);
    if k < kc {
      AtLeastConcat([c], Inorder(r), k, kc, K);
      AtLeastConcat([c] + Inorder(r), Post(path), k, k, K);
    }
    if kc <= k {
      AtMostConcat(Inorder(l), [c], k, kc, K);
      AtMostConcat(Pre(path), Inorder(l) + [c], k, k, K);
      assert Pre(path) + (Inorder(l) + [c]) == Pre(path) + Inorder(l) + [c];
    }
  }

  /** Leaving a position upwards: the nodes before and after the hole of the
      parent's position are a prefix and a suffix of those of the child's. */
  lemma FitsUp(path: Path, k: int, K: seq<int>)
    requires path != [] && Fits(path, k, K)
    ensures Fits(path[1..], k, K)
  {
    var f, rest := path[0], path[1..];
    assert Pre(path) == Pre(rest) + Before(f);
    assert Post(path) == After(f) + Post(rest);
    AtMostJoin(Pre(rest), Before(f), k, K);
    AtLeastJoin(After(f), Post(rest), k, K);
  }

  /** Attaching a leaf whose key fits at an empty hole keeps the tree ordered. */
  lemma {:induction false} AttachLeafOrdered(path: Path, n: nat, K: seq<int>)
    requires Ordered(Plug(path, Nil), K) && Fits(path, KeyAt(K, n), K)
    ensures Ordered(Plug(path, Node(Nil, n, Nil)), K)
  {
    PlugNilInorder(path);
    PlugLeafInorder(path, n);
    SortedInsert(Pre(path), n, Post(path), K);
  }

  /** Ordering depends only on the keys of the tree's own nodes. */
  lemma OrderedFrame(t: Tree, K: seq<int>, K': seq<int>)
    requires Ordered(t, K)
    requires forall j :: j in Nodes(t) ==> KeyAt(K, j) == KeyAt(K', j)
    ensures Ordered(t, K')
  {
    InorderNodes(t);
    var s := Inorder(t);
    forall i | 0 <= i < |s| ensures KeyAt(K, s[i]) == KeyAt(K', s[i]) {
      assert s[i] in s;
    }
  }

  /** Fits depends only on the keys of the nodes on the path. */
  lemma FitsFrame(path: Path, k: int, K: seq<int>, K': seq<int>)
    requires Fits(path, k, K)
    requires forall j :: j in PathNodes(path) ==> KeyAt(K, j) == KeyAt(K', j)
    ensures Fits(path, k, K')
  {
    PathSeqNodes(path);
    var pre, post := Pre(path), Post(path);
    forall i | 0 <= i < |pre| ensures KeyAt(K, pre[i]) == KeyAt(K', pre[i]) {
      assert pre[i] in pre + post;
    }
    forall i | 0 <= i < |post| ensures KeyAt(K, post[i]) == KeyAt(K', post[i]) {
      assert post[i] in pre + post;
    }
  }

  /** Where the search for `k` leaves node `s.id` for one child, the other
      child's subtree holds no node with key `k`. */
  lemma {:induction false} SearchSkips(path: Path, s: Tree, k: int, K: seq<int>)
    requires Ordered(Plug(path, s), K) && s.Node?
    ensures k < KeyAt(K, s.id) ==> KeyAbsent(Nodes(s.right), k, K)
    ensures KeyAt(K, s.id) < k ==> KeyAbsent(Nodes(s.left), k, K)
  {
    FitsAtNode(path, s, K);
    InorderNodes(s.left);
    InorderNodes(s.right);
    forall j | j in Nodes(s.right) ensures KeyAt(K, s.id) <= KeyAt(K, j) {
      var i :| 0 <= i < |Inorder(s.right)| && Inorder(s.right)[i] == j;
    }
    forall j | j in Nodes(s.left) ensures KeyAt(K, j) <= KeyAt(K, s.id) {
      var i :| 0 <= i < |Inorder(s.left)| && Inorder(s.left)[i] == j;
    }
  }

  /** The descent of an insertion goes right on equal keys, so every node it
      passes on the way down that ends up after the hole has a larger key. */
  lemma {:induction false} DescendAbove(path: Path, s: Tree, k: int, K: seq<int>)
    requires Ordered(Plug(path, s), K) && s.Node? && Above(Post(path), k, K)
    ensures k < KeyAt(K, s.id) ==> Above(Post([HoleLeft(s.id, s.right)] + path), k, K)
    ensures KeyAt(K, s.id) <= k ==> Above(Post([HoleRight(s.id, s.left)] + path), k, K)
  {
    FitsAtNode(path, s, K);
    ExtendPath(path, s.id, s.right);
    ExtendPath(path, s.id, s.left);
    if k < KeyAt(K, s.id) {
      var post := [s.id] + Inorder(s.right) + Post(path);
      forall i | 0 <= i < |post| ensures k < KeyAt(K, post[i]) {
        if i == 0 {
        } else if i <= |Inorder(s.right)| {
          assert post[i] == Inorder(s.right)[i - 1];
        } else {
          assert post[i] == Post(path)[i - 1 - |Inorder(s.right)|];
        }
      }
    }
  }

  /** The frame the insertion descent adds below `s`'s root for key `k`. */
  ghost function DescendFrame(s: Tree, k: int, K: seq<int>): Frame
    requires s.Node?
  {
    if k < KeyAt(K, s.id) then HoleLeft(s.id, s.right) else HoleRight(s.id, s.left)
  }

  /** One step of the insertion descent keeps its loop invariant. */
  lemma DescendInsert(down: Path, path: Path, s: Tree, k: int, K: seq<int>)
    requires Ordered(Plug(down + path, s), K) && s.Node? && Fits(down + path, k, K)
    requires path == [] ==> Above(Post(down), k, K)
    ensures var f := DescendFrame(s, k, K);
      var c := if k < KeyAt(K, s.id) then s.left else s.right;
      Plug([f] + down + path, c) == Plug(down + path, s) &&
      Fits([f] + down + path, k, K) &&
      (path == [] ==> Above(Post([f] + down), k, K))
  {
    var f := DescendFrame(s, k, K);
    assert [f] + down + path == [f] + (down + path);
    assert ([f] + down + path)[1..] == down + path;
    DescendFits(down + path, s, k, K);
    if path == [] {
      assert down + path == down;
      DescendAbove(down, s, k, K);
    }
  }

  // ---------------------------------------------------------------------
  // Runs of equal keys (duplicate navigation).

  /** A node of key `k` whose predecessor has another key is the first node
      of key `k`: everything before it has a smaller key. */
  lemma RunStartFirst(s: seq<nat>, j: nat, k: int, K: seq<int>)
    requires KeysSorted(s, K) && j < |s| && KeyAt(K, s[j]) == k
    requires j == 0 || KeyAt(K, s[j - 1]) != k
    ensures forall m :: 0 <= m < j ==> KeyAt(K, s[m]) < k
  {
    if j > 0 {
      assert KeyAt(K, s[j - 1]) <= KeyAt(K, s[j]);
      forall m | 0 <= m < j ensures KeyAt(K, s[m]) < k {
        if m < j - 1 {
          assert KeyAt(K, s[m]) <= KeyAt(K, s[j - 1]);
        }
      }
    }
  }

  /** The nodes of `s` with key `k`, in order. */
  ghost function WithKey(s: seq<nat>, k: int, K: seq<int>): seq<nat>
    decreases |s|
  {
    if s == [] then [] else (if KeyAt(K, s[0]) == k then [s[0]] else []) + WithKey(s[1..], k, K)
  }

  /** The nodes visited by stepping from the front of `s` to the next node
      while the key stays `k`. */
  ghost function Run(s: seq<nat>, k: int, K: seq<int>): seq<nat>
    decreases |s|
  {
    if s != [] && KeyAt(K, s[0]) == k then [s[0]] + Run(s[1..], k, K) else []
  }

  lemma {:induction false} WithKeyAppend(a: seq<nat>, b: seq<nat>, k: int, K: seq<int>)
    ensures WithKey(a + b, k, K) == WithKey(a, k, K) + WithKey(b, k, K)
    decreases |a|
  {
    if a == [] {
      assert a + b == b;
    } else {
      assert (a + b)[1..] == a[1..] + b;
      WithKeyAppend(a[1..], b, k, K);
    }
  }

  lemma {:induction false} WithKeyNone(s: seq<nat>, k: int, K: seq<int>)
    requires forall m :: 0 <= m < |s| ==> KeyAt(K, s[m]) != k
    ensures WithKey(s, k, K) == []
    decreases |s|
  {
    if s != [] {
      WithKeyNone(s[1..], k, K);
    }
  }

  /** In a sorted sequence starting at key `k` or above, the run of key `k`
      at the front holds every node of that key. */
  lemma {:induction false} RunIsWithKey(s: seq<nat>, k: int, K: seq<int>)
    requires KeysSorted(s, K) && (s != [] ==> KeyAt(K, s[0]) >= k)
    ensures Run(s, k, K) == WithKey(s, k, K)
    decreases |s|
  {
    if s != [] {
      if KeyAt(K, s[0]) == k {
        if |s| > 1 {
          assert KeyAt(K, s[0]) <= KeyAt(K, s[1]);
        }
        RunIsWithKey(s[1..], k, K);
      } else {
        forall m | 0 <= m < |s| ensures KeyAt(K, s[m]) != k {
          if m > 0 {
            assert KeyAt(K, s[0]) <= KeyAt(K, s[m]);
          }
        }
        WithKeyNone(s, k, K);
      }
    }
  }

  /** Starting at the first node of key `k` and stepping on while the key
      stays `k` visits every node of key `k` once, in order. */
  lemma FirstRunIsAll(s: seq<nat>, j: nat, k: int, K: seq<int>)
    requires KeysSorted(s, K) && j < |s| && KeyAt(K, s[j]) == k
    requires forall m :: 0 <= m < j ==> KeyAt(K, s[m]) < k
    ensures Run(s[j..], k, K) == WithKey(s, k, K)
  {
    assert s == s[..j] + s[j..];
    WithKeyAppend(s[..j], s[j..], k, K);
    WithKeyNone(s[..j], k, K);
    RunIsWithKey(s[j..], k, K);
  }
}
