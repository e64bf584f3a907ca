# Treap (LemonPi/bbst) in Dafny

This project models `src/treap.js`, a mutable treap. A treap is a binary search tree on node keys that is also a max-heap on per-node priorities.

In the source, every node object has `left`, `right` and `parent` links. A missing link points at one shared sentinel object `NIL`, whose priority is negative infinity. The tree changes shape only through a few link-editing primitives:

- the rotations `_rotateLeft` and `_rotateRight`;
- `_transplant`, which puts one subtree in another's place;
- `_treeInsert`, which descends from a start node and attaches a leaf;
- `_heapFixUp`, which rotates a node up while it outranks its parent;
- `_treapDelete`, which splices a node out, or promotes its in-order successor and sinks that successor by priority.

The public operations are built on these primitives: `insert`, `erase`, `eraseNode`, `find`, `findAndElevate`, `findFirst`, `findNext`, `changeKey`, forward and reverse iteration, `size` and `height`.

## How the model represents the treap

**The arena.** Class `Treaps.Treap` keeps the nodes in an arena. A node is an index into five parallel sequences, `left`, `right`, `parent`, `key` and `priority`, and `root` is an index too. Index 0 is `NIL`. Its priority is -1, and every real priority is a natural number, so `NIL` ranks below every real node as negative infinity does in the source. Every method edits these fields the way the JavaScript edits node objects, including the write to `NIL`'s parent link that `_transplant` performs when the moved subtree is empty.

**The abstract tree.** A ghost field `tree` (`BinaryTrees.Tree`) holds the abstract shape. `Valid()` ties it to the links and states the treap invariants:

- each child link points at the child's root, and the child's parent link points back (`NodeLinks.Linked`);
- no node occurs twice;
- keys never decrease along the in-order sequence; equal keys may end up on either side of each other after rotations (`TreeOrder.Ordered`). That a new duplicate lands after its equals is what `Insert` and `TreeInsert` promise, not part of the invariant;
- no child outranks its parent (`TreeHeap.Heap`).

`Contents()` is the in-order node sequence. The operations are specified by what they do to it.

**Reasoning about one position.** The proofs work on a zipper: a `Path` of frames, innermost first, plugged around a subtree. Each link edit is stated once as a function on the link table (`NodeLinks.RotatedLeft`, `NodeSplice.Transplanted`, `NodeSplice.Promoted`, …). A lemma then says which tree the edited links represent.

**Errors.** An operation that throws in the source returns `Failure(e)`:

- `MissingKey` is the error `insert` raises for a payload without a key;
- `TypeError` is a dereference of `NIL`'s `null` links.

**Module layout.**

| module | file | contents |
|---|---|---|
| `BinaryTrees` | binary_trees.dfy | trees, paths, in-order sequences, rotations on trees, height |
| `TreeOrder` | tree_order.dfy | key order, the search descent, runs of duplicate keys |
| `TreeHeap` | tree_heap.dfy | priority order, a node rising or sinking |
| `TreeWalks` | tree_walks.dfy | where minimum, maximum, successor and predecessor walks land |
| `TreeRemoval` | tree_removal.dfy | what deleting a node does to the tree |
| `NodeLinks` | node_links.dfy | the link table, the rotations and attaching a leaf as link edits |
| `NodeSplice` | node_splice.dfy | `_transplant` and the successor promotion as link edits |
| `Treaps` | treap.dfy | the `Treap` class and its methods |

## Model

The link-edit functions `NodeLinks.RotatedLeft` and `NodeLinks.RotatedRight` (src/treap.js:203-243), `NodeLinks.Attached` (src/treap.js:255-262), `NodeSplice.Transplanted` (src/treap.js:190-201), `NodeSplice.TakeRight` (src/treap.js:285-287), `NodeSplice.Promoted` (src/treap.js:289-291) and `Treaps.BeforePromotion` (src/treap.js:283-288) each state the assignments of the cited lines. Their own contracts only keep the arena's size; what each does is stated by the `*Facts` and `*Links` lemmas in the rows below, and the methods that perform those assignments are tied to them by their `ensures`.

| member | source | states |
|---|---|---|
| Treaps.Treap.constructor | src/treap.js:168-171 | A new treap is valid and empty, and its root is NIL. |
| Treaps.Treap.PriorityRead | src/treap.js:5-10 | Reading a priority through any link, NIL included, gives the priority of the subtree root that link stands for; NIL's is below every real one. |
| Treaps.Treap.RotateLeft | src/treap.js:203-222 | The tree becomes the left rotation at that position. The in-order sequence, keys and priorities are unchanged, and links of nodes outside the tree are untouched. The root becomes the lifted right child exactly when the rotated node was the root. |
| Treaps.Treap.RelinkLeft | src/treap.js:203-222 | The link assignments of `_rotateLeft` turn the link table into `RotatedLeft` of the old one. The root changes to the old right child exactly when the node had no parent. |
| Treaps.Treap.RotateRight | src/treap.js:224-243 | Mirror of RotateLeft: the lifted node is the left child, and the in-order sequence and root rule are as there. |
| Treaps.Treap.RelinkRight | src/treap.js:224-243 | The link assignments of `_rotateRight` give `RotatedRight` of the old table, with the same root rule. |
| Treaps.RotateLeftShape | src/treap.js:203-222 | After a left rotation the new links represent the rotated tree, with the lifted child as root when the node was the root. The in-order sequence is unchanged, and only nodes of the tree have their links changed. |
| Treaps.RotateRightShape | src/treap.js:224-243 | Mirror of RotateLeftShape for a right rotation. |
| NodeLinks.RotatedLeftFacts | src/treap.js:203-222 | A left rotation touches exactly the rows of the node, its right child, that child's old left subtree and the parent. Each row's new links are given, and the parent's slot that held the node now holds the child. |
| NodeLinks.RotatedRightFacts | src/treap.js:224-243 | Mirror of RotatedLeftFacts. |
| NodeLinks.RotateLeftLinks | src/treap.js:203-222 | On a linked, duplicate-free tree, the rotated links are again consistent child/parent links for the rotated tree. |
| NodeLinks.RotateRightLinks | src/treap.js:224-243 | Mirror of RotateLeftLinks. |
| NodeLinks.HoleSide | src/treap.js:13-15 | A non-NIL node is its parent's left child exactly when it sits in the left hole of the parent's frame, and its right child exactly when it sits in the right hole; this is `isLeftChild`. |
| NodeLinks.Position | src/treap.js:13-15 | Where a node sits: its parent link names its path parent, its child links name its subtrees' roots, and it is the root exactly when its path is empty. |
| BinaryTrees.RotLKeeps | src/treap.js:203-222 | A left rotation keeps the in-order sequence and the node set, and keeps nodes distinct. |
| BinaryTrees.RotRKeeps | src/treap.js:224-243 | A right rotation keeps the in-order sequence and the node set, and keeps nodes distinct. |
| Treaps.Treap.HeapFixUp | src/treap.js:173-181 | Given a key-ordered tree in which only node `n` may outrank its ancestors, the loop ends with a valid treap whose in-order sequence, keys and priorities are the old ones. |
| Treaps.Treap.RiseOnce | src/treap.js:174-179 | One iteration rotates `n` above its parent on the side it hangs from. `n` remains the only node that may outrank its ancestors, its path gets strictly shorter (so the loop ends), and it is the root exactly when its path is empty. |
| TreeHeap.RiseStep | src/treap.js:174-179 | When a rising node outranks its parent, lifting it over the parent keeps every other parent/child pair in heap order. |
| TreeHeap.RiseDone | src/treap.js:174 | When a rising node is the root or does not outrank its parent, the whole tree is a heap. |
| TreeHeap.LeafRising | src/treap.js:265-268 | A freshly attached leaf is the only node that may break heap order, which is the state `_heapFixUp` starts from. |
| Treaps.Treap.TreeInsert | src/treap.js:245-263 | The descent attaches `n` as a leaf in the empty hole it reaches. The in-order sequence gains exactly `n` between the nodes before and after that hole. Every node before has a key at most `key[n]`; from the root, every node after has a key strictly greater, so equal keys go right. |
| Treaps.Treap.AttachAt | src/treap.js:255-262 | Linking a leaf under parent `p`, to the left exactly when its key is less than `p`'s (or as the root when `p` is NIL), gives a linked, key-ordered tree with `n` at that hole. |
| Treaps.AttachLeaf | src/treap.js:255-262 | The links after attaching represent the tree with the new leaf: it is the root if the tree was empty, and key order holds when the key fits the hole. |
| NodeLinks.AttachLinks | src/treap.js:255-262 | Setting `n`'s parent and the parent's chosen child slot makes consistent links for the tree with the new leaf. |
| TreeOrder.DescendInsert | src/treap.js:247-254 | One descent step, left when `k` is less than the node's key and right otherwise, keeps the invariant that `k` fits the path. From the root it also keeps the nodes after the path strictly above `k`. |
| TreeOrder.DescendAbove | src/treap.js:249-253 | A step of the descent keeps every node after the path strictly above `k`; this is why an equal key ends up after its duplicates. |
| TreeOrder.SortedInsert | src/treap.js:245-263 | Putting a node between a prefix of keys at most its own and a suffix of keys at least its own keeps the key sequence sorted. |
| Treaps.Treap.Insert | src/treap.js:315-322 | A payload without a key gives `MissingKey` and changes nothing. Otherwise the result is a fresh node with the payload's key and the given priority. It joins the in-order sequence right after every node with key at most its own and before every node with a greater key, and the treap stays valid. |
| Treaps.Treap.NewNode | src/treap.js:157-164 | A new node has NIL links, the given key and priority, and is not in the tree; the treap stays valid. |
| Treaps.Grown | src/treap.js:157-164 | Extending the arena by one detached node changes neither the tree the links represent nor its key and heap order. |
| Treaps.Treap.TreeMin | src/treap.js:20-23 | From NIL it throws a TypeError. Otherwise it returns the first node of the subtree's in-order sequence, reached along left links only. |
| Treaps.Treap.TreeMax | src/treap.js:25-28 | From NIL it throws a TypeError. Otherwise it returns the last node of the subtree's in-order sequence, reached along right links only. |
| TreeWalks.LeftmostFirst | src/treap.js:20-23 | The node at the end of a left spine, having no left child, is the first of that subtree's in-order sequence. |
| TreeWalks.RightmostLast | src/treap.js:25-28 | The node at the end of a right spine is the last of that subtree's in-order sequence. |
| Treaps.Treap.TreeSuccessor | src/treap.js:118-129 | From NIL it throws a TypeError. From the node at in-order position `i` it returns the node at `i + 1`, or NIL when `i` is last. |
| Treaps.Treap.AscendRight | src/treap.js:122-128 | For a node with no right child, climbing while it is a right child stops at the next node in order, or at NIL past the last. |
| Treaps.Treap.TreePredecessor | src/treap.js:130-141 | From NIL it throws a TypeError. From the node at position `i` it returns the node at `i - 1`, or NIL when `i` is first. |
| Treaps.Treap.AscendLeft | src/treap.js:134-140 | For a node with no left child, climbing while it is a left child stops at the previous node in order, or at NIL before the first. |
| TreeWalks.NextBelow | src/treap.js:119-120 | When a node has a right subtree, its in-order successor is that subtree's first node. |
| TreeWalks.PrevBelow | src/treap.js:131-132 | When a node has a left subtree, its in-order predecessor is that subtree's last node. |
| TreeWalks.NextAbove | src/treap.js:123-128 | The parent reached from a left hole comes right after the whole subtree below it. |
| TreeWalks.PrevAbove | src/treap.js:135-140 | The parent reached from a right hole comes right before the whole subtree below it. |
| Treaps.Treap.TreeFind | src/treap.js:30-39 | Returns NIL exactly when no node of the subtree has key `k`; otherwise it returns a node of the subtree whose key is `k`. |
| TreeOrder.SearchSkips | src/treap.js:31-36 | In a key-ordered tree, a key smaller than the node's cannot be in its right subtree, and a larger one cannot be in its left subtree. |
| Treaps.Treap.Find | src/treap.js:388-390 | Returns NIL exactly when no node of the treap has key `k`; otherwise a node of the treap with key `k`. |
| Treaps.Treap.Transplant | src/treap.js:190-201 | The link table becomes `Transplanted`. `root` becomes `v` exactly when `u` had no parent, and keys and priorities are unchanged. |
| NodeSplice.TransplantedFacts | src/treap.js:190-201 | `_transplant` changes only the parent's child slot that held `u`, which now holds `v`, and `v`'s parent link, which now names `u`'s parent. |
| NodeSplice.TakeRightFacts | src/treap.js:285-287 | The successor takes over `n`'s right subtree: its right link and the subtree root's parent link now point at each other, and nothing else changes. |
| NodeSplice.PromotedFacts | src/treap.js:289-291 | The successor takes `n`'s place under `n`'s parent and adopts `n`'s left subtree; only these three rows change. |
| NodeSplice.SubstitutedFacts | src/treap.js:283-291 | After a detached successor is promoted, it has `n`'s parent and both of `n`'s subtrees, and all other rows are unchanged. |
| NodeSplice.SpliceLinks | src/treap.js:274-278 | When `n` lacks a child, transplanting its other subtree into its place gives consistent links for the tree without `n`. |
| NodeSplice.PromoteLinks | src/treap.js:289-291 | When the successor is `n`'s own right child, promoting it gives consistent links for the tree with the successor in `n`'s place. |
| NodeSplice.SubstituteLinks | src/treap.js:285-291 | A node outside the tree that takes over both of `n`'s subtrees and `n`'s parent gives consistent links for the tree with it in `n`'s place. |
| Treaps.SplicedOut | src/treap.js:274-278 | Splicing out a node with at most one child leaves a valid treap without it. The remaining in-order sequence loses only that node, and the node's own links are untouched. |
| Treaps.SuccessorShape | src/treap.js:281-291 | Promoting the leftmost node `m` of `n`'s right subtree into `n`'s place gives links representing the new tree. That tree is key-ordered, loses only `n` from the in-order sequence, and breaks heap order at most at `m`. |
| Treaps.DetachedSuccessor | src/treap.js:283-291 | When the successor is deeper than `n`'s right child, lifting out its right subtree and then promoting it gives consistent links for the new tree. |
| Treaps.AdjacentSuccessor | src/treap.js:289-291 | When the successor is `n`'s right child, promoting it directly gives consistent links for the new tree. |
| TreeRemoval.RemoveRoot | src/treap.js:270-306 | Replacing a node's subtree by one whose in-order sequence is its two subtrees' removes exactly that node from the whole sequence and keeps key order. |
| TreeRemoval.RemovedNode | src/treap.js:270-306 | The replacement subtree holds exactly the node's descendants, so the tree's node set loses only that node. |
| TreeRemoval.SpliceShape | src/treap.js:274-278 | Replacing a node that has at most one child by that child keeps heap order. |
| TreeRemoval.PromoteShape | src/treap.js:281-291 | Promoting the successor keeps the in-order sequence of the subtree minus `n`, and heap order can fail only below the promoted node. |
| TreeRemoval.PromoteHeap | src/treap.js:289-293 | The promoted successor is the only node that may be outranked by a child. |
| TreeRemoval.SuccessorPlace | src/treap.js:281-283 | The successor's position in the whole tree, and the tree left after its right subtree takes its place. Its parent is `n` exactly when it is `n`'s right child. |
| Treaps.Treap.ChildPriorities | src/treap.js:293-296 | The priorities the sink loop reads through a node's child links are those of its abstract children, or -1 for NIL. |
| Treaps.Treap.SinkStep | src/treap.js:295-300 | One iteration rotates the higher-priority child above the node, taking the left one only when it strictly outranks the right. The node stays the only place heap order may fail, the subtree's in-order sequence is unchanged, and the subtree below the node shrinks. |
| Treaps.Treap.SinkDown | src/treap.js:293-301 | The sink loop ends with a valid treap. The subtree's in-order sequence and the node set are unchanged, as are keys and priorities. |
| TreeHeap.SinkMove | src/treap.js:295-300 | The rotation the loop picks is a right rotation when the left child strictly outranks the right, and a left rotation otherwise. It keeps the in-order sequence, and only the sinking node can still break heap order. |
| TreeHeap.SinkDone | src/treap.js:293-294 | When neither child outranks the sinking node, the whole tree is a heap. |
| Treaps.Treap.TreapDelete | src/treap.js:270-306 | Removes exactly `n`. The in-order sequence was `a + [n] + b` and becomes `a + b`, and the treap stays valid with keys and priorities unchanged. Afterwards `n` is outside the tree with NIL child links, and its parent link keeps its old value. |
| Treaps.Treap.SpliceOut | src/treap.js:274-278 | With at most one child, `n` is replaced by that child. The treap stays valid, and the subtree's in-order sequence loses only `n`. |
| Treaps.Treap.SuccessorOut | src/treap.js:280-301 | With two children, the successor takes `n`'s place and sinks. The treap stays valid and the subtree's in-order sequence loses only `n`. |
| Treaps.Treap.PromoteSuccessor | src/treap.js:281-291 | The leftmost node of `n`'s right subtree takes `n`'s place. The subtree's in-order sequence loses only `n`, and heap order may fail only at the promoted node. |
| Treaps.Treap.SuccessorOf | src/treap.js:281 | The successor is the node at the end of the left spine of `n`'s right subtree, and it has no left child. |
| Treaps.Treap.Substitute | src/treap.js:283-291 | The link assignments of the promotion produce the promoted link table, with the successor as root exactly when `n` was the root. |
| Treaps.Treap.ClearLinks | src/treap.js:304-305 | Resetting a removed node's child links to NIL changes nothing the tree depends on. |
| Treaps.Treap.EraseNode | src/treap.js:355-359 | On NIL nothing changes. Otherwise the node at in-order position `i` is removed, every other node keeps its place, and the treap stays valid. |
| Treaps.Treap.Erase | src/treap.js:365-367 | With no node of key `k` nothing changes. Otherwise one node with key `k` is removed from the in-order sequence and nothing else is. |
| Treaps.Treap.FindAndElevate | src/treap.js:374-381 | Returns NIL, changing nothing, exactly when key `k` is absent. Otherwise it returns a node with key `k` whose priority has doubled; the treap stays valid and the in-order sequence is unchanged. |
| Treaps.Treap.Elevate | src/treap.js:377-378 | Doubling a node's priority and fixing up keeps the treap valid, with the same in-order sequence, nodes and keys. |
| Treaps.Elevated | src/treap.js:377-378 | Raising one node's priority leaves it the only node that may outrank its ancestors. |
| TreeHeap.RaiseRising | src/treap.js:377 | Raising a node's priority in a heap breaks heap order only between that node and its ancestors. |
| Treaps.Treap.ChangeKey | src/treap.js:331-349 | Corrected `changeKey`. The node keeps its identity and priority and takes key `k`, and the treap stays valid. The in-order sequence is the old one without the node, with the node reinserted at one position; no other node is lost. |
| Treaps.Treap.ChangeKeyAsWritten | src/treap.js:331-349 | `changeKey` as written. When the node is not the root (or is the only node), it behaves like the corrected one. When it is the root of a treap with two or more nodes, the treap ends up holding only that node. |
| Treaps.Treap.Unhook | src/treap.js:332-334 | The node is deleted and re-keyed. The direction flag is set exactly when the new key is smaller than the old. Every node after (or before) the old position bounds the new key from the side the upward walk needs. |
| Treaps.Treap.Detach | src/treap.js:332 | `_treapDelete` of a node in the tree: it leaves with NIL child links, and its parent link still names its old parent (NIL exactly when it was the root). |
| Treaps.Treap.SetKey | src/treap.js:334 | Writing the key of a node outside the tree keeps the treap valid and changes nothing else. |
| Treaps.Rekeyed | src/treap.js:334 | A key change at a node outside the tree keeps the tree's representation and key order. |
| Treaps.RekeyFits | src/treap.js:333-334 | A node's old key fit its position. After a smaller new key, every node after that position is at least the new key; after a larger or equal one, every node before it is at most the new key. |
| Treaps.Treap.Reinsert | src/treap.js:347-348 | `_treeInsert` from an ancestor whose range contains the key, followed by `_heapFixUp`, inserts the node at one position of the in-order sequence and leaves a valid treap. |
| Treaps.Treap.Climb | src/treap.js:336-345 | The upward walk stops at a node, possibly NIL when the tree is empty, below which the new key fits its path. |
| Treaps.Treap.ClimbLeft | src/treap.js:337-340 | Climbing while the key is smaller than the current node's, until the root, reaches a subtree in which the key fits. |
| Treaps.Treap.ClimbRight | src/treap.js:341-344 | Climbing while the key is larger than the current node's, until the root, reaches a subtree in which the key fits. |
| Treaps.ClimbUp | src/treap.js:339 | A step of the walk to a real parent moves one frame up the path. The nodes before and after the path split as that frame dictates. |
| Treaps.ClimbEnd | src/treap.js:338 | Where the walk may stop: the root has an empty path, and any other node's own key fits its path. So the walk's stopping test decides whether the new key fits there. |
| Treaps.Lone | src/treap.js:255-257 | A node with NIL links attached as the root alone forms a valid one-node treap; this is what `_treeInsert(NIL, node)` leaves. |
| TreeOrder.FitsAtNode | src/treap.js:249-253 | In a key-ordered tree, every node's key fits its own path, and its subtrees hold keys on the correct sides. |
| Treaps.Treap.RunStart | src/treap.js:399-402 | Walking back through predecessors while the key is `k` stops at a position with key `k` before which every key is smaller. |
| TreeOrder.RunStartFirst | src/treap.js:399 | In a sorted sequence, a position with key `k` whose predecessor has another key has only smaller keys before it. |
| Treaps.Treap.FindFirst | src/treap.js:396-404 | Corrected `findFirst`: returns NIL exactly when `k` is absent. Otherwise it returns the first node with key `k` in in-order. |
| Treaps.Treap.FindFirstAsWritten | src/treap.js:396-404 | `findFirst` as written: an absent key throws a TypeError, because `treePredecessor(NIL)` dereferences a null link. Otherwise it returns the first node with key `k`. |
| Treaps.Treap.FindNext | src/treap.js:411-414 | On NIL it throws a TypeError. Otherwise it returns the in-order successor when that successor has the same key, and NIL when there is none or its key differs. |
| Treaps.Treap.DuplicatesInOneRun | src/treap.js:396-414 | Starting at the first node with key `k`, the nodes reached by successive successors of the same key are exactly all nodes with key `k`, in in-order. |
| TreeOrder.FirstRunIsAll | src/treap.js:396-414 | In a sorted sequence, the run of key `k` that starts at its first occurrence contains every occurrence of `k`. |
| TreeOrder.RunIsWithKey | src/treap.js:411-414 | In a sorted sequence starting with key `k`, the maximal run of `k` equals the subsequence of all elements with key `k`. |
| Treaps.Treap.WalkForward | src/treap.js:425-432 | Stepping by successors from the node at position `i` until NIL yields exactly the in-order sequence from `i`. |
| Treaps.Treap.WalkBackward | src/treap.js:449-456 | Stepping by predecessors from the node at position `j - 1` until NIL yields the in-order sequence up to `j`, reversed. |
| Treaps.Treap.Iterate | src/treap.js:421-441 | Corrected iteration: yields every node once, in non-decreasing key order (the in-order sequence), and nothing for an empty treap. |
| Treaps.Treap.IterateAsWritten | src/treap.js:421-441 | Iteration as written: an empty treap throws a TypeError from `treeMin(NIL)`. Otherwise it yields every node once, in non-decreasing key order. |
| Treaps.Treap.ReverseIterate | src/treap.js:443-467 | Corrected reverse iteration yields exactly the reverse of the in-order sequence, and nothing for an empty treap. |
| Treaps.Treap.ReverseIterateAsWritten | src/treap.js:443-467 | Reverse iteration as written: an empty treap throws a TypeError from `treeMax(NIL)`. Otherwise it yields the reversed in-order sequence. |
| Treaps.Treap.InorderWalk | src/treap.js:49-55 | Visits the nodes of the subtree in in-order. |
| Treaps.Treap.Size | src/treap.js:469-475 | Counts the nodes: the length of the in-order sequence, equal to the number of distinct nodes. |
| Treaps.Treap.MaxHeight | src/treap.js:150-155 | Returns the height of the subtree, with NIL counting 0. |
| Treaps.Treap.TreapHeight | src/treap.js:477-479 | Returns the treap's height `h`, which satisfies `h <= size < 2^h`. |
| BinaryTrees.HeightBounds | src/treap.js:150-155 | A tree of height `h` has at least `h` and fewer than `2^h` nodes. |
| BinaryTrees.UniqueDistinct | src/treap.js:469-475 | A tree without repeated nodes has a repetition-free in-order sequence as long as its node set. |
| Treaps.Treap.ContentsFacts | src/treap.js:245-263 | In a valid treap the in-order sequence is sorted by key, repetition-free, and exactly the tree's nodes, and `root` is the tree's root. |
| Treaps.Treap.RealNodes | src/treap.js:5-10 | Every node in the in-order sequence is a real node (never NIL) with a key. |

## Left out

- **Pretty-printing.** `treeIndent`, `printIndented`, `printKey`, `consoleCharacters` and `Treap.print` (src/treap.js:64-111, 485-490) are console output and string formatting.
- **Unused walks.** `preorderWalk`, `postorderWalk` and `minHeight` (src/treap.js:42-62, 144-149) are not used by any treap operation. `isRightChild` (src/treap.js:16-18) is also never called.
- **index.js.** It installs the third-party `seedrandom` generator as the global random source. Neither that library nor the global state is modelled.
- **Random priorities.** `Math.random()` in the `TreapNode` constructor (src/treap.js:162) becomes the `prio` parameter of `Insert`.
  - Priorities are naturals rather than floating-point numbers in [0, 1), so ties are possible and are handled as the code handles them.
  - The `-Infinity` priority of `NIL` becomes -1.
  - Floating-point rounding or overflow when `findAndElevate` doubles a priority is not modelled.
- **Payload copying.** `Object.assign` (src/treap.js:163) copies arbitrary payload fields onto the node. The payload is modelled only by its optional `key`, and keys are integers. JavaScript's `<` on non-numeric keys and the `===` identity test are not modelled.
- **Iterator protocol.** The iterator objects (src/treap.js:421-467) become methods that return the whole visited sequence. The lazy, one-step-per-call protocol and a treap changing during iteration are not modelled.
- **`_treapInsert`.** It (src/treap.js:265-268) is inlined into `Insert` as the `TreeInsert` and `HeapFixUp` calls.
- **Reclamation.** Nodes are never reclaimed: a removed node keeps its arena slot, as a removed JavaScript node object stays reachable through a handle.
- **Handles not in the tree.** Passing a node that is not in the tree (and not `NIL`) to `eraseNode`, `changeKey`, `findNext`, `treeSuccessor` or `treePredecessor` is excluded by their preconditions; the source does not define what happens then.
- **test/test.js** is not part of this model.

## Findings

| source | as written | input that shows it | evidently intended | confidence | as-written member | corrected member |
|---|---|---|---|---|---|---|
| src/treap.js:336-347 | When `node` was the root, `_treapDelete` leaves `node.parent` at NIL. The upward walk stops at once because `NIL.key` is undefined, and `_treeInsert(NIL, node)` sets `root = node`, which drops every other node. | A root with key 1 and priority 5 whose right child has key 2 and priority 3; `changeKey(root, 3)` leaves a treap holding only the re-keyed node. | When there is no parent, re-insert from the current root, so every node is kept. | not executed | Treaps.Treap.ChangeKeyAsWritten | Treaps.Treap.ChangeKey |
| src/treap.js:396-398 | For an absent key, `treeFind` returns NIL. `treePredecessor(NIL)` then sees `NIL.left === null`, which is not NIL, and `treeMax(null)` throws a TypeError (src/treap.js:130-132, 25-26). | An empty treap, `findFirst(7)`. | Return NIL for an absent key, as `find` does. | not executed | Treaps.Treap.FindFirstAsWritten | Treaps.Treap.FindFirst |
| src/treap.js:421-423 | The forward iterator starts with `treeMin(this.root)`. On an empty treap this steps from NIL to `null` and throws a TypeError (src/treap.js:20-21). | A new, empty treap, iterated forward. | An empty treap yields nothing. | not executed | Treaps.Treap.IterateAsWritten | Treaps.Treap.Iterate |
| src/treap.js:443-447 | The reverse iterator starts with `treeMax(this.root)`. On an empty treap this steps from NIL to `null` and throws a TypeError (src/treap.js:25-26). | A new, empty treap, iterated in reverse. | An empty treap yields nothing. | not executed | Treaps.Treap.ReverseIterateAsWritten | Treaps.Treap.ReverseIterate |
