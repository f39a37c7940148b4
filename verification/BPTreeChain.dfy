/** The chain of leaves, and everything that holds of a tree between two calls. */
module BPTreeChain {
  import opened BPTreeModel
  import opened BPTreeOrder
  import opened BPTreeFill
  import opened BPTreeMemory

  /** Element `i` of the chain holds the `i`-th leaf and links to the next element. */
  ghost predicate LinkedInOrder(m: Memory, v: seq<Node>, ls: seq<Tree>, i: nat)
    requires i < |v| == |ls|
  {
    && v[i] in m && v[i].isLeaf && m[v[i]].tree == ls[i]
    && m[v[i]].next == if i + 1 < |v| then v[i + 1] else null
  }

  /** The `next` links run through all the leaves, in the order of the tree. */
  ghost predicate Chained(m: Memory, chain: seq<Node>, t: Tree) {
    && |chain| == |Leaves(t)|
    && (forall i :: 0 <= i < |chain| ==> LinkedInOrder(m, chain, Leaves(t), i))
    && (forall n :: n in m && n.isLeaf ==> n in chain)
    && Distinct(chain)
  }

  ghost predicate Healthy(t: Tree) {
    Ordered(t, KEY_MIN, KEY_SUP) && FilledRoot(t) && Shaped(t) && Balanced(t, Height(t))
  }

  ghost predicate Sound(m: Memory, root: Node?, chain: seq<Node>) {
    if root == null then m == map[] && chain == []
    else Settled(m, root) && Healthy(m[root].tree) && Chained(m, chain, m[root].tree)
  }

  lemma {:induction false} BalancedHeight(t: Tree, h: nat)
    requires Balanced(t, h)
    ensures Height(t) == h
  {
    if t.Inner? {
      BalancedHeight(t.kids[0], h - 1);
    }
  }

  /** Insertion of an absent key keeps a tree healthy and adds that key at its place. */
  lemma {:induction false} InsertHealthy(t: Tree, key: int, row: int)
    requires Healthy(t) && KEY_MIN <= key < KEY_SUP && LinearFind(Entries(t), key).None?
    ensures Healthy(Insert(t, key, row))
    ensures Entries(Insert(t, key, row)) == InsertSorted(Entries(t), Entry(key, row))
    ensures Height(Insert(t, key, row)) == Height(t) + if Ins(t, key, row).Split? then 1 else 0
  {
    InsertCorrect(t, key, row, Height(t));
    InsertFilled(t, key, row);
    OrderedShaped(Insert(t, key, row), KEY_MIN, KEY_SUP);
    BalancedHeight(Insert(t, key, row), if Ins(t, key, row).Split? then Height(t) + 1 else Height(t));
  }

  /** The leaf a descent ends in is the one at the slot of the key. */
  lemma {:induction false} DescentSlot(m: Memory, root: Node?, path: seq<Node>, key: int, e: nat)
    requires Settled(m, root) && Shaped(m[root].tree) && Descent(m, root, path, key) && e < |path|
    ensures Shaped(m[path[e]].tree)
    ensures LeafSlot(m[root].tree, key) < |Leaves(m[root].tree)|
    ensures LeafSlot(m[path[e]].tree, key) < |Leaves(m[path[e]].tree)|
    ensures Leaves(m[root].tree)[LeafSlot(m[root].tree, key)] == Leaves(m[path[e]].tree)[LeafSlot(m[path[e]].tree, key)]
    ensures Find(m[root].tree, key) == Find(m[path[e]].tree, key)
  {
    DescentShaped(m, root, path, key);
    InsLeaves(m[root].tree, key, 0);
    InsLeaves(m[path[e]].tree, key, 0);
    if e > 0 {
      DescentSlot(m, root, path, key, e - 1);
      var p, c := path[e - 1], path[e];
      assert Next(m, p, c, key) && Owns(m, p) && Labelled(m, p);
      SlotBelow(m[p].tree, key);
    }
  }

  lemma {:induction false} SlotBelow(t: Tree, key: int)
    requires t.Inner? && Shaped(t)
    ensures var c := t.kids[ChildIndex(t.keys, key)];
      && LeafSlot(t, key) < |Leaves(t)| && LeafSlot(c, key) < |Leaves(c)|
      && Leaves(t)[LeafSlot(t, key)] == Leaves(c)[LeafSlot(c, key)]
  {
    var i := ChildIndex(t.keys, key);
    FlatLeavesAround(t.kids, i);
    InsLeaves(t.kids[i], key, 0);
    SpliceInside(FlatLeaves(t.kids[..i]), Leaves(t.kids[i]), FlatLeaves(t.kids[i + 1..]), LeafSlot(t.kids[i], key), []);
  }

  /** No two leaves of a healthy tree are equal. */
  lemma {:induction false} LeavesDiffer(t: Tree, a: nat, b: nat)
    requires Healthy(t) && a < b < |Leaves(t)|
    ensures Leaves(t)[a] != Leaves(t)[b]
  {
    var ls := Leaves(t);
    LeavesEntries(t);
    RootLeavesFilled(t);
    EntriesSorted(t, KEY_MIN, KEY_SUP);
    assert |Entries(ls[a])| > 0 && |Entries(ls[b])| > 0;
    hide Healthy, Entries, Leaves, Flat;
    FlatAround(ls, a);
    FlatAround(ls[a + 1..], b - a - 1);
    assert ls[a + 1..][b - a - 1] == ls[b];
    var ea, eb := Entries(ls[a]), Entries(ls[b]);
    var before, between := Flat(ls[..a]), Flat(ls[a + 1..][..b - a - 1]);
    assert Entries(t)[|before|] == ea[0];
    assert Entries(t)[|before| + |ea| + |between|] == eb[0];
  }

  /** So the node a descent ends in stands in the chain at the slot of the key. */
  lemma {:induction false} ChainSlot(m: Memory, root: Node?, chain: seq<Node>, path: seq<Node>, key: int)
    requires root != null && Sound(m, root, chain) && Descent(m, root, path, key) && path[|path| - 1].isLeaf
    ensures var s := LeafSlot(m[root].tree, key);
      s < |chain| == |Leaves(m[root].tree)| && chain[s] == path[|path| - 1]
        && Leaves(m[root].tree)[s] == m[chain[s]].tree
  {
    var leaf, t := path[|path| - 1], m[root].tree;
    var s := LeafSlot(t, key);
    DescentSlot(m, root, path, key, |path| - 1);
    assert Owns(m, leaf) && Labelled(m, leaf);
    var j :| 0 <= j < |chain| && chain[j] == leaf;
    assert LinkedInOrder(m, chain, Leaves(t), j);
    if j < s { LeavesDiffer(t, j, s); }
    if s < j { LeavesDiffer(t, s, j); }
  }

  /** The leaves of `m'` are those of `m` and perhaps `q`; only `leaf` and `q` differ in tree or link. */
  ghost predicate OtherLeavesKept(m: Memory, m': Memory, leaf: Node, q: Node?) {
    && (forall n :: n in m && n.isLeaf ==> n in m')
    && (forall n :: n in m' && n.isLeaf ==> n in m || n == q)
    && (forall n :: n in m && n.isLeaf && n != leaf ==> m'[n].tree == m[n].tree && m'[n].next == m[n].next)
  }

  lemma {:induction false} ChainAfterPut(m: Memory, root: Node?, chain: seq<Node>, path: seq<Node>, key: int, row: int,
      m': Memory)
    requires root != null && Sound(m, root, chain) && Descent(m, root, path, key) && path[|path| - 1].isLeaf
    requires var leaf := path[|path| - 1];
      && OtherLeavesKept(m, m', leaf, null) && Shaped(m[leaf].tree)
      && Ins(m[leaf].tree, key, row) == Whole(m'[leaf].tree) && m'[leaf].next == m[leaf].next
    ensures Chained(m', chain, Insert(m[root].tree, key, row))
  {
    ChainSlot(m, root, chain, path, key);
    InsertLeaves(m[root].tree, key, row);
    var s, leaf := LeafSlot(m[root].tree, key), path[|path| - 1];
    forall i | 0 <= i < |chain| ensures LinkedInOrder(m', chain, Leaves(Insert(m[root].tree, key, row)), i) {
      assert LinkedInOrder(m, chain, Leaves(m[root].tree), i);
    }
  }

  lemma {:induction false} ChainSpliced(v: seq<Node>, s: nat, y: Node, w: seq<Node>)
    requires s < |v| && Distinct(v) && y !in v && w == v[..s] + [v[s], y] + v[s + 1..]
    ensures forall i :: 0 <= i < |w| ==> w[i] == if i <= s then v[i] else if i == s + 1 then y else v[i - 1]
    ensures Distinct(w) && forall n :: n in v || n == y ==> n in w
  {
    assert w[s + 1] == y;
    assert forall i :: 0 <= i < |v| ==> v[i] == w[if i <= s then i else i + 1];
  }

  lemma {:induction false} SplicedLinks(m: Memory, m': Memory, w: seq<Node>, v: seq<Node>, ls': seq<Tree>,
      ls: seq<Tree>, s: nat, y: Node, i: nat)
    requires s < |v| == |ls| && Distinct(v) && y !in v && OtherLeavesKept(m, m', v[s], y) && i <= |v|
    requires forall j :: 0 <= j < |v| ==> LinkedInOrder(m, v, ls, j)
    requires v[s] in m && v[s] in m' && y in m' && y.isLeaf && m'[v[s]].next == y && m'[y].next == m[v[s]].next
    requires w == v[..s] + [v[s], y] + v[s + 1..]
    requires ls' == ls[..s] + [m'[v[s]].tree, m'[y].tree] + ls[s + 1..]
    ensures LinkedInOrder(m', w, ls', i)
  {
    ChainSpliced(v, s, y, w);
    if i <= s {
      assert LinkedInOrder(m, v, ls, i);
    } else if i == s + 1 {
      assert LinkedInOrder(m, v, ls, s);
    } else {
      assert LinkedInOrder(m, v, ls, i - 1);
    }
  }

  lemma {:induction false} ChainInside(m: Memory, chain: seq<Node>, t: Tree)
    requires Chained(m, chain, t)
    ensures forall i :: 0 <= i < |chain| ==> chain[i] in m
  {
    forall i | 0 <= i < |chain| ensures chain[i] in m {
      assert LinkedInOrder(m, chain, Leaves(t), i);
    }
  }

  lemma {:induction false} ChainLinks(m: Memory, chain: seq<Node>, t: Tree)
    requires Chained(m, chain, t)
    ensures |chain| == |Leaves(t)|
    ensures forall i :: 0 <= i < |chain| ==> chain[i] in m
    ensures forall i :: 0 <= i < |chain| ==> m[chain[i]].tree == Leaves(t)[i]
    ensures forall i {:trigger chain[i]} ::
      0 <= i < |chain| ==> m[chain[i]].next == if i + 1 < |chain| then chain[i + 1] else null
  {
    ChainInside(m, chain, t);
    forall i {:trigger chain[i]} | 0 <= i < |chain|
      ensures m[chain[i]].tree == Leaves(t)[i]
      ensures m[chain[i]].next == if i + 1 < |chain| then chain[i + 1] else null
    {
      assert LinkedInOrder(m, chain, Leaves(t), i);
    }
  }

  lemma {:induction false} LeafInsertLeaves(t: Tree, key: int, row: int)
    requires t.Leaf? && Shaped(t) && Ins(t, key, row).Split?
    ensures ResultLeaves(Ins(t, key, row)) == [Ins(t, key, row).left, Ins(t, key, row).right]
  {
  }

  lemma {:induction false} Relink(m: Memory, chain: seq<Node>, t: Tree, s: nat, q: Node, m': Memory, t': Tree)
    requires Chained(m, chain, t) && s < |chain| && chain[s] in m && chain[s] in m' && q !in m && q in m' && q.isLeaf
    requires OtherLeavesKept(m, m', chain[s], q) && m'[chain[s]].next == q && m'[q].next == m[chain[s]].next
    requires Leaves(t') == Leaves(t)[..s] + [m'[chain[s]].tree, m'[q].tree] + Leaves(t)[s + 1..]
    ensures Chained(m', chain[..s] + [chain[s], q] + chain[s + 1..], t')
  {
    var chain' := chain[..s] + [chain[s], q] + chain[s + 1..];
    ChainInside(m, chain, t);
    ChainSpliced(chain, s, q, chain');
    forall i | 0 <= i < |chain'| ensures LinkedInOrder(m', chain', Leaves(t'), i) {
      SplicedLinks(m, m', chain', chain, Leaves(t'), Leaves(t), s, q, i);
    }
  }

  lemma {:induction false} ChainAfterSplit(m: Memory, root: Node?, chain: seq<Node>, path: seq<Node>, key: int,
      row: int, q: Node, m': Memory)
    requires root != null && Sound(m, root, chain) && Descent(m, root, path, key) && path[|path| - 1].isLeaf
    requires var leaf := path[|path| - 1];
      && OtherLeavesKept(m, m', leaf, q) && q !in m && q in m' && q.isLeaf && Shaped(m[leaf].tree)
      && Ins(m[leaf].tree, key, row).Split? && Ins(m[leaf].tree, key, row).left == m'[leaf].tree
      && Ins(m[leaf].tree, key, row).right == m'[q].tree
      && m'[leaf].next == q && m'[q].next == m[leaf].next
    ensures var s := LeafSlot(m[root].tree, key);
      s < |chain| && Chained(m', chain[..s] + [path[|path| - 1], q] + chain[s + 1..], Insert(m[root].tree, key, row))
  {
    ChainSlot(m, root, chain, path, key);
    InsertLeaves(m[root].tree, key, row);
    var leaf := path[|path| - 1];
    assert Owns(m, leaf) && Labelled(m, leaf);
    LeafInsertLeaves(m[leaf].tree, key, row);
    Relink(m, chain, m[root].tree, LeafSlot(m[root].tree, key), q, m', Insert(m[root].tree, key, row));
  }

  // ---------- What one insertion makes of the memory ----------

  /** The leaf has room: the pair is put into it, and the labels above are renewed. */
  ghost function AfterPut(m: Memory, path: seq<Node>, key: int, row: int): Memory
    requires path != [] && (forall e :: 0 <= e < |path| ==> path[e] in m)
    requires var leaf := path[|path| - 1]; |m[leaf].rows| == |m[leaf].keys|
  {
    var leaf := path[|path| - 1];
    var i := LeafIndex(m[leaf].keys, key);
    Relabel(PutLeaf(m, leaf, InsertAt(m[leaf].keys, i, key), InsertAt(m[leaf].rows, i, row)), path, key)
  }

  lemma {:induction false} PutSettles(m: Memory, root: Node?, path: seq<Node>, key: int, row: int)
    requires Settled(m, root) && Shaped(m[root].tree) && Descent(m, root, path, key)
    requires path[|path| - 1].isLeaf && |m[path[|path| - 1]].keys| < MAX_KEYS
    ensures var leaf := path[|path| - 1];
      && Typed(leaf, m[leaf]) && m[leaf].tree == Leaf(m[leaf].keys, m[leaf].rows)
      && var m' := AfterPut(m, path, key, row);
      && Settled(m', root) && m'[root].tree == Insert(m[root].tree, key, row)
      && OtherLeavesKept(m, m', leaf, null)
      && Ins(m[leaf].tree, key, row) == Whole(m'[leaf].tree) && m'[leaf].next == m[leaf].next
  {
    var leaf := path[|path| - 1];
    assert Owns(m, leaf) && Labelled(m, leaf);
    var i := LeafIndex(m[leaf].keys, key);
    var m1 := PutLeaf(m, leaf, InsertAt(m[leaf].keys, i, key), InsertAt(m[leaf].rows, i, row));
    LeafSettling(m, root, path, key, m1, null);
    RelabelSettles(m1, root, path, key, row, m[leaf].tree);
    PutLeaves(m1, path, key);
    assert |path| > 1 ==> path[0] != leaf;
  }

  lemma {:induction false} PutLeaves(m: Memory, path: seq<Node>, key: int)
    requires path != [] && (forall e :: 0 <= e < |path| ==> path[e] in m)
    requires forall e :: 0 <= e < |path| - 1 ==> !path[e].isLeaf
    ensures forall n :: n in m && n.isLeaf ==> Relabel(m, path, key)[n] == m[n]
  {
    forall n | n in m && n.isLeaf ensures n !in path[..|path| - 1] {
      assert forall e :: 0 <= e < |path| - 1 ==> path[..|path| - 1][e] == path[e];
    }
  }

  /** The leaf is full: it is split, and the new leaf is the pending sibling. */
  ghost function AfterSplit(m: Memory, leaf: Node, key: int, row: int, q: Node): Memory
    requires leaf in m && |m[leaf].rows| == |m[leaf].keys|
  {
    var i := LeafIndex(m[leaf].keys, key);
    HalveLeaf(m, leaf, InsertAt(m[leaf].keys, i, key), InsertAt(m[leaf].rows, i, row), q)
  }

  lemma {:induction false} SplitLeafPends(m: Memory, root: Node?, path: seq<Node>, key: int, row: int, q: Node)
    requires Settled(m, root) && Shaped(m[root].tree) && Descent(m, root, path, key)
    requires path[|path| - 1].isLeaf && |m[path[|path| - 1]].keys| == MAX_KEYS && q !in m && q.isLeaf
    ensures var leaf := path[|path| - 1];
      && Typed(leaf, m[leaf]) && m[leaf].tree == Leaf(m[leaf].keys, m[leaf].rows)
      && var m1 := AfterSplit(m, leaf, key, row, q);
      && m1[q].keys != []
      && Pending(m1, root, path, m1[q].keys[0], q, key, row, m[leaf].tree)
      && Goal(m1, path, key, row, m[leaf].tree) == Insert(m[root].tree, key, row)
  {
    var leaf := path[|path| - 1];
    assert Owns(m, leaf) && Labelled(m, leaf);
    var m1 := AfterSplit(m, leaf, key, row, q);
    LeafSettling(m, root, path, key, m1, q);
    assert q !in path;
    assert |path| > 1 ==> path[0] != leaf;
  }

  /** The memory a split leaf ends in: sound again, with the new leaf right after the old one in the chain. */
  lemma {:induction false} SplitLeafSound(m: Memory, root: Node?, chain: seq<Node>, path: seq<Node>, key: int,
      row: int, q: Node, m': Memory, root': Node)
    requires root != null && Sound(m, root, chain) && Descent(m, root, path, key) && path[|path| - 1].isLeaf
    requires KEY_MIN <= key < KEY_SUP && LinearFind(Entries(m[root].tree), key).None?
    requires |m[path[|path| - 1]].keys| == MAX_KEYS == |m[path[|path| - 1]].rows| && q !in m && q.isLeaf
    requires LeavesKept(AfterSplit(m, path[|path| - 1], key, row, q), m')
    requires Settled(m', root') && m'[root'].tree == Insert(m[root].tree, key, row)
    ensures var s := LeafSlot(m[root].tree, key);
      s < |chain| && Sound(m', root', chain[..s] + [path[|path| - 1], q] + chain[s + 1..])
  {
    var leaf := path[|path| - 1];
    assert Owns(m, leaf) && Labelled(m, leaf);
    InsertHealthy(m[root].tree, key, row);
    ChainAfterSplit(m, root, chain, path, key, row, q, m');
  }

  lemma {:induction false} PutSound(m: Memory, root: Node?, chain: seq<Node>, path: seq<Node>, key: int, row: int)
    requires root != null && Sound(m, root, chain) && Descent(m, root, path, key) && path[|path| - 1].isLeaf
    requires KEY_MIN <= key < KEY_SUP && LinearFind(Entries(m[root].tree), key).None?
    requires |m[path[|path| - 1]].keys| < MAX_KEYS
    ensures var leaf := path[|path| - 1];
      && |m[leaf].rows| == |m[leaf].keys|
      && Sound(AfterPut(m, path, key, row), root, chain)
      && AfterPut(m, path, key, row)[root].tree == Insert(m[root].tree, key, row)
  {
    PutSettles(m, root, path, key, row);
    InsertHealthy(m[root].tree, key, row);
    ChainAfterPut(m, root, chain, path, key, row, AfterPut(m, path, key, row));
  }

  lemma {:induction false} FirstSound(m: Memory, n: Node, key: int, row: int)
    requires KEY_MIN <= key < KEY_SUP && n.isLeaf
    requires m == map[n := Cell([key], [row], [], null, null, Leaf([key], [row]))]
    ensures Sound(m, n, [n])
  {
    assert Owns(m, n) && Labelled(m, n) && Placed(m, n, n);
    assert LinkedInOrder(m, [n], Leaves(m[n].tree), 0);
  }

  // ---------- What soundness says about the linked nodes ----------

  /** Node `n` stands at place `i` among the children of `p`. */
  ghost predicate ChildAt(m: Memory, p: Node, i: nat, n: Node) {
    p in m && i < |m[p].kids| && m[p].kids[i] == n
  }

  /** Parent pointers lead to ever larger trees, so there is no cycle; and every node but the root stands at
      exactly one place among all children, below its parent, so nothing is shared. */
  lemma {:induction false} ParentLarger(m: Memory, root: Node?, n: Node) returns (at: nat)
    requires Settled(m, root) && n in m && n != root
    ensures m[n].parent != null && m[n].parent in m && m[n].tree < m[m[n].parent].tree
    ensures forall p, i :: ChildAt(m, p, i, n) <==> p == m[n].parent && i == at
  {
    assert Placed(m, n, root);
    var p := m[n].parent;
    assert Owns(m, p) && Labelled(m, p);
    at :| 0 <= at < |m[p].kids| && m[p].kids[at] == n;
    assert m[p].tree.kids[at] == m[n].tree;
    forall q, i | ChildAt(m, q, i, n) ensures q == p && i == at {
      assert Owns(m, q);
    }
  }

  /** The way from a node along first children to a leaf. */
  ghost predicate LeftSpine(m: Memory, path: seq<Node>) {
    && path != [] && path[|path| - 1].isLeaf
    && forall e :: 0 <= e < |path| - 1 ==> !path[e].isLeaf && ChildAt(m, path[e], 0, path[e + 1])
  }

  lemma {:induction false} LeftPath(m: Memory, root: Node?, n: Node) returns (path: seq<Node>)
    requires Settled(m, root) && n in m && Shaped(m[n].tree)
    ensures LeftSpine(m, path) && path[0] == n && path[|path| - 1] in m
    ensures Leaves(m[n].tree) != [] && m[path[|path| - 1]].tree == Leaves(m[n].tree)[0]
    decreases m[n].tree
  {
    assert Owns(m, n) && Labelled(m, n);
    if n.isLeaf {
      path := [n];
    } else {
      var first := m[n].kids[0];
      assert m[n].tree.kids[0] == m[first].tree;
      path := LeftPath(m, root, first);
      assert ChildAt(m, n, 0, first);
      path := [n] + path;
    }
  }

  /** The chain starts at the leftmost leaf, and following `next` from there meets the stored pairs in ascending
      order, each once. */
  lemma {:induction false} ChainListsContents(m: Memory, root: Node, chain: seq<Node>) returns (path: seq<Node>)
    requires Sound(m, root, chain)
    ensures chain != [] && LeftSpine(m, path) && path[0] == root && path[|path| - 1] == chain[0]
    ensures forall i :: 0 <= i < |chain| ==> chain[i] in m
    ensures forall i {:trigger chain[i]} ::
      0 <= i < |chain| ==> m[chain[i]].next == if i + 1 < |chain| then chain[i + 1] else null
    ensures Flat(seq(|chain|, i requires 0 <= i < |chain| => m[chain[i]].tree)) == Entries(m[root].tree)
    ensures SortedEntries(Entries(m[root].tree), KEY_MIN, KEY_SUP)
  {
    var t := m[root].tree;
    path := LeftPath(m, root, root);
    ChainStarts(m, root, chain, path[|path| - 1]);
    ChainLinks(m, chain, t);
    assert seq(|chain|, i requires 0 <= i < |chain| => m[chain[i]].tree) == Leaves(t);
    LeavesEntries(t);
    EntriesSorted(t, KEY_MIN, KEY_SUP);
  }

  lemma {:induction false} ChainStarts(m: Memory, root: Node, chain: seq<Node>, leaf: Node)
    requires Sound(m, root, chain) && leaf in m && leaf.isLeaf
    requires Leaves(m[root].tree) != [] && m[leaf].tree == Leaves(m[root].tree)[0]
    ensures chain != [] && chain[0] == leaf
  {
    var j :| 0 <= j < |chain| && chain[j] == leaf;
    assert LinkedInOrder(m, chain, Leaves(m[root].tree), j);
    if j > 0 {
      LeavesDiffer(m[root].tree, 0, j);
    }
  }
}
