/** What the linked nodes hold, as a value: one cell per node. The pointer invariants, the state with one
    pending right sibling, and the steps that move it up to the root are all stated about such values. */
module BPTreeMemory {
  import opened BPTreeModel

  class Node {
    const isLeaf: bool
    const keys: array<int>
    const rows: array<int>
    const children: array<Node?>
    var keyCount: int
    var parent: Node?
    var next: Node?

    constructor (isLeaf: bool)
      ensures this.isLeaf == isLeaf
      ensures fresh(keys) && fresh(rows) && fresh(children) && keys != rows
      ensures keys.Length == rows.Length == MAX_KEYS && children.Length == MAX_KEYS + 1
      ensures keyCount == 0 && parent == null && next == null
    {
      this.isLeaf := isLeaf;
      keys := new int[MAX_KEYS](_ => 0);
      rows := new int[MAX_KEYS](_ => 0);
      children := new Node?[MAX_KEYS + 1](_ => null);
      keyCount, parent, next := 0, null, null;
      new;
      assert keys != rows;
    }
  }

  /** The part of a node in use, and the tree it is the root of. */
  datatype Cell = Cell(keys: seq<int>, rows: seq<int>, kids: seq<Node>, parent: Node?, next: Node?, tree: Tree)

  type Memory = map<Node, Cell>

  // ---------- Invariants ----------

  ghost predicate Typed(n: Node, c: Cell) {
    && |c.keys| <= MAX_KEYS
    && (if n.isLeaf then c.kids == [] && |c.rows| == |c.keys| else c.rows == [] && |c.kids| == |c.keys| + 1)
  }

  /** The children of `n` are different nodes of the tree, and each points back to `n`. */
  ghost predicate Owns(m: Memory, n: Node)
    requires n in m
  {
    && Typed(n, m[n])
    && (forall i :: 0 <= i < |m[n].kids| ==> m[n].kids[i] in m && m[m[n].kids[i]].parent == n)
    && (forall i, j :: 0 <= i < j < |m[n].kids| ==> m[n].kids[i] != m[n].kids[j])
  }

  ghost predicate Linked(m: Memory) {
    forall n {:trigger Owns(m, n)} :: n in m ==> Owns(m, n)
  }

  /** `n` is the root, or one of the children of its parent. */
  ghost predicate Placed(m: Memory, n: Node, root: Node?)
    requires n in m
  {
    && (m[n].parent == null <==> n == root)
    && (m[n].parent != null ==> m[n].parent in m && n in m[m[n].parent].kids)
  }

  /** Every node has its place in the tree, except that `loose` is not yet anybody's child. */
  ghost predicate Parented(m: Memory, root: Node?, loose: Node?) {
    && root in m
    && (forall n {:trigger Placed(m, n, root)} :: n in m && n != loose ==> Placed(m, n, root))
    && (loose != null ==> loose in m && loose != root && forall n :: n in m ==> loose !in m[n].kids)
  }

  /** The tree of `n` is made of its own keys and the trees of its children. */
  ghost predicate Labelled(m: Memory, n: Node)
    requires n in m && Owns(m, n)
  {
    if n.isLeaf then m[n].tree == Leaf(m[n].keys, m[n].rows)
    else m[n].tree.Inner? && m[n].tree.keys == m[n].keys && |m[n].tree.kids| == |m[n].kids| &&
         forall i :: 0 <= i < |m[n].kids| ==> m[n].tree.kids[i] == m[m[n].kids[i]].tree
  }

  /** The same, but the tree at position `i` is still `t`, what the child was before. */
  ghost predicate LabelledBut(m: Memory, n: Node, i: nat, t: Tree)
    requires n in m && Owns(m, n)
  {
    && m[n].tree.Inner? && m[n].tree.keys == m[n].keys && |m[n].tree.kids| == |m[n].kids|
    && i < |m[n].kids| && m[n].tree.kids[i] == t
    && forall j :: 0 <= j < |m[n].kids| && j != i ==> m[n].tree.kids[j] == m[m[n].kids[j]].tree
  }

  ghost predicate AllLabelled(m: Memory)
    requires Linked(m)
  {
    forall n {:trigger Labelled(m, n)} :: n in m ==> Owns(m, n) && Labelled(m, n)
  }

  /** A descent for `key`: from the root, each node the child that the separators of the one before point to. */
  ghost predicate Descent(m: Memory, root: Node?, path: seq<Node>, key: int) {
    && path != [] && path[0] == root
    && (forall e :: 0 <= e < |path| ==> path[e] in m)
    && (forall e, f :: 0 <= e < f < |path| ==> path[e] != path[f])
    && (forall e :: 0 <= e < |path| - 1 ==> !path[e].isLeaf && Next(m, path[e], path[e + 1], key))
  }

  ghost predicate Next(m: Memory, n: Node, c: Node, key: int)
    requires n in m
  {
    |m[n].kids| == |m[n].keys| + 1 && m[n].kids[ChildIndex(m[n].keys, key)] == c
  }

  /** A walk back to the root in which only the labels above the last node of the path are still to be renewed:
      that node was the root of the tree `before`. */
  ghost predicate Settling(m: Memory, root: Node?, path: seq<Node>, key: int, before: Tree) {
    && Linked(m) && Descent(m, root, path, key) && Shaped(before)
    && (forall e :: 0 <= e < |path| - 1 ==> Shaped(m[path[e]].tree))
    && (forall n {:trigger Labelled(m, n)} :: n in m && !(|path| > 1 && n == path[|path| - 2]) ==>
          Owns(m, n) && Labelled(m, n))
    && (|path| > 1 ==>
          var p := path[|path| - 2];
          Owns(m, p) && LabelledBut(m, p, ChildIndex(m[p].keys, key), before))
  }

  /** One pending right sibling: the last node of the path was split, `right` is still nobody's child. */
  ghost predicate Pending(m: Memory, root: Node?, path: seq<Node>, sep: int, right: Node, key: int, row: int,
      before: Tree) {
    && Settling(m, root, path, key, before) && Parented(m, root, right) && right !in path
    && Ins(before, key, row) == Split(m[path[|path| - 1]].tree, sep, m[right].tree)
  }

  /** The tree that a settled memory must represent. */
  ghost function Goal(m: Memory, path: seq<Node>, key: int, row: int, before: Tree): Tree
    requires path != [] && path[0] in m && Shaped(before) && (|path| > 1 ==> Shaped(m[path[0]].tree))
  {
    Insert(if |path| == 1 then before else m[path[0]].tree, key, row)
  }

  /** Nothing is pending: the pointers form one tree, every label is right. */
  ghost predicate Settled(m: Memory, root: Node?) {
    Linked(m) && Parented(m, root, null) && AllLabelled(m)
  }

  // ---------- Renewing the labels ----------

  /** The label of `p` with the present tree of its child on the path to `key`. */
  ghost function Renew(m: Memory, p: Node, c: Node, key: int): (m': Memory)
    requires p in m && c in m
    ensures m'.Keys == m.Keys
    ensures forall n :: n in m ==> m'[n] == m[n].(tree := m'[n].tree) && (n != p ==> m'[n] == m[n])
  {
    var i, t := ChildIndex(m[p].keys, key), m[p].tree;
    if t.Inner? && i < |t.kids| then m[p := m[p].(tree := Inner(m[p].keys, t.kids[i := m[c].tree]))] else m
  }

  /** New labels above the last node of the path, up to the root. */
  ghost function Relabel(m: Memory, path: seq<Node>, key: int): (m': Memory)
    requires forall e :: 0 <= e < |path| ==> path[e] in m
    ensures m'.Keys == m.Keys
    ensures forall n :: n in m ==> m'[n] == m[n].(tree := m'[n].tree)
    ensures forall n :: n in m && n !in path[..if path == [] then 0 else |path| - 1] ==> m'[n] == m[n]
    decreases |path|
  {
    if |path| <= 1 then m
    else
      var last := |path| - 1;
      assert path[..last][..last - 1] == path[..last - 1];
      Relabel(Renew(m, path[last - 1], path[last], key), path[..last], key)
  }

  lemma {:induction false} DescentPrefix(m: Memory, root: Node?, path: seq<Node>, key: int)
    requires Descent(m, root, path, key) && |path| > 1
    ensures Descent(m, root, path[..|path| - 1], key)
  {
  }

  /** Labels do not matter for the pointers. */
  lemma {:induction false} TreesOnly(m: Memory, root: Node?, path: seq<Node>, key: int, m': Memory)
    requires m'.Keys == m.Keys && forall n :: n in m ==> m'[n] == m[n].(tree := m'[n].tree)
    requires Linked(m) && Parented(m, root, null) && Descent(m, root, path, key)
    ensures Linked(m') && Parented(m', root, null) && Descent(m', root, path, key)
  {
    forall n | n in m' ensures Owns(m', n) && Placed(m', n, root) {
      assert Owns(m, n) && Placed(m, n, root);
    }
    forall e | 0 <= e < |path| - 1 ensures Next(m', path[e], path[e + 1], key) {
      assert Next(m, path[e], path[e + 1], key);
    }
  }

  lemma {:induction false} RenewLabels(m: Memory, root: Node?, path: seq<Node>, key: int, before: Tree, n: Node)
    requires Settling(m, root, path, key, before) && Parented(m, root, null) && |path| > 1
    requires n in m && !(|path| > 2 && n == path[|path| - 3])
    ensures var m' := Renew(m, path[|path| - 2], path[|path| - 1], key);
      Owns(m', n) && Labelled(m', n)
  {
    var last := |path| - 1;
    var p := path[last - 1];
    var i := ChildIndex(m[p].keys, key);
    assert Next(m, p, path[last], key) && Owns(m, p) && Owns(m, n) && Placed(m, p, root);
    if last > 1 { assert Next(m, path[last - 2], p, key) && Owns(m, path[last - 2]); }
    assert m[p].parent == if last > 1 then path[last - 2] else null;
    if n == p {
      assert m[p].kids[i] == path[last];
    } else {
      assert Labelled(m, n);
    }
  }

  lemma {:induction false} RenewSettling(m: Memory, root: Node?, path: seq<Node>, key: int, before: Tree)
    requires Settling(m, root, path, key, before) && Parented(m, root, null) && |path| > 1
    ensures var m' := Renew(m, path[|path| - 2], path[|path| - 1], key);
      Settling(m', root, path[..|path| - 1], key, m[path[|path| - 2]].tree) && Parented(m', root, null)
  {
    var last := |path| - 1;
    var p := path[last - 1];
    var m' := Renew(m, p, path[last], key);
    TreesOnly(m, root, path, key, m');
    {
      hide Descent;
      DescentPrefix(m', root, path, key);
    }
    forall n | n in m' && !(last > 1 && n == path[last - 2]) ensures Owns(m', n) && Labelled(m', n) {
      hide Settling, Parented, Labelled, Owns;
      RenewLabels(m, root, path, key, before, n);
    }
    assert Owns(m, p);
    if last > 1 {
      RenewAbove(m, root, path, key, before);
    }
    hide Descent, Labelled, LabelledBut, Parented, Linked;
  }

  lemma {:induction false} RenewAbove(m: Memory, root: Node?, path: seq<Node>, key: int, before: Tree)
    requires Settling(m, root, path, key, before) && |path| > 2
    requires Linked(Renew(m, path[|path| - 2], path[|path| - 1], key))
    ensures var m', q := Renew(m, path[|path| - 2], path[|path| - 1], key), path[|path| - 3];
      Owns(m', q) && LabelledBut(m', q, ChildIndex(m'[q].keys, key), m[path[|path| - 2]].tree)
  {
    var p, q := path[|path| - 2], path[|path| - 3];
    var m' := Renew(m, p, path[|path| - 1], key);
    assert Next(m, q, p, key) && Owns(m, q) && Owns(m', q) && Labelled(m, q);
  }

  /** When the last node of the path already carries what insertion makes of it, renewing the labels above
      gives the tree that insertion makes of the whole. */
  lemma {:induction false} RelabelSettles(m: Memory, root: Node?, path: seq<Node>, key: int, row: int, before: Tree)
    requires Settling(m, root, path, key, before) && Parented(m, root, null)
    requires Ins(before, key, row) == Whole(m[path[|path| - 1]].tree)
    ensures Settled(Relabel(m, path, key), root)
    ensures Relabel(m, path, key)[root].tree == Goal(m, path, key, row, before)
    decreases |path|
  {
    var last := |path| - 1;
    if last > 0 {
      var p := path[last - 1];
      assert Next(m, p, path[last], key);
      RenewSettling(m, root, path, key, before);
      RelabelSettles(Renew(m, p, path[last], key), root, path[..last], key, row, m[p].tree);
    }
  }

  // ---------- A parent with room takes the pending sibling ----------

  ghost function AddChild(m: Memory, p: Node, at: nat, sep: int, right: Node, t: Tree): Memory
    requires p in m && right in m && at <= |m[p].keys| && at < |m[p].kids|
  {
    var c := m[p].(keys := InsertAt(m[p].keys, at, sep), kids := InsertAt(m[p].kids, at + 1, right), tree := t);
    m[p := c][right := (if right == p then c else m[right]).(parent := p)]
  }

  lemma {:induction false} AddLinked(m: Memory, p: Node, at: nat, sep: int, right: Node, t: Tree)
    requires Linked(m) && right in m && (forall n :: n in m ==> right !in m[n].kids)
    requires p in m && p != right && !p.isLeaf && at <= |m[p].keys| < MAX_KEYS && at < |m[p].kids|
    ensures Linked(AddChild(m, p, at, sep, right, t))
  {
    var m' := AddChild(m, p, at, sep, right, t);
    var ks := m'[p].kids;
    assert forall i :: 0 <= i < |ks| ==>
      ks[i] == if i <= at then m[p].kids[i] else if i == at + 1 then right else m[p].kids[i - 1];
    assert Owns(m, p);
    forall n | n in m' && n != p ensures Owns(m', n) {
      assert Owns(m, n);
      AddOthers(m, p, at, sep, right, t, n);
    }
  }

  lemma {:induction false} AddOthers(m: Memory, p: Node, at: nat, sep: int, right: Node, t: Tree, n: Node)
    requires p in m && p != right && right in m && at <= |m[p].keys| && at < |m[p].kids|
    requires n in m && n != p && Owns(m, n) && right !in m[n].kids
    ensures Owns(AddChild(m, p, at, sep, right, t), n)
  {
  }

  lemma {:induction false} AddParented(m: Memory, root: Node?, p: Node, at: nat, sep: int, right: Node, t: Tree)
    requires Parented(m, root, right) && p in m && p != right && at <= |m[p].keys| && at < |m[p].kids|
    ensures Parented(AddChild(m, p, at, sep, right, t), root, null)
  {
    var m' := AddChild(m, p, at, sep, right, t);
    var ks := m'[p].kids;
    assert ks[at + 1] == right;
    assert forall i :: 0 <= i < |m[p].kids| ==> m[p].kids[i] == ks[if i <= at then i else i + 1];
    forall n | n in m' ensures Placed(m', n, root) {
      if n != right {
        assert Placed(m, n, root);
      }
    }
  }

  /** The tree of a node on the path, whose child on the path was split. */
  lemma {:induction false} AbsorbedLabel(m: Memory, root: Node?, path: seq<Node>, sep: int, right: Node, key: int,
      row: int, before: Tree)
    requires Pending(m, root, path, sep, right, key, row, before) && |path| > 1
    ensures var p, left := path[|path| - 2], path[|path| - 1];
      var i := ChildIndex(m[p].keys, key);
      && Owns(m, p) && p != right && m[p].kids[i] == left
      && Ins(m[p].tree, key, row) == MakeInner(InsertAt(m[p].keys, i, sep),
                                               InsertAt(m[p].tree.kids[i := m[left].tree], i + 1, m[right].tree))
  {
    var p, left := path[|path| - 2], path[|path| - 1];
    assert Next(m, p, left, key) && Owns(m, p);
  }

  /** A node that keeps its contents and the trees of its children keeps its label. */
  lemma {:induction false} LabelKept(m: Memory, m': Memory, n: Node)
    requires n in m && n in m' && Owns(m, n) && Owns(m', n) && Labelled(m, n)
    requires m'[n].keys == m[n].keys && m'[n].rows == m[n].rows && m'[n].kids == m[n].kids && m'[n].tree == m[n].tree
    requires forall c :: c in m[n].kids ==> m'[c].tree == m[c].tree
    ensures Labelled(m', n)
  {
  }

  lemma {:induction false} ParentOnPath(m: Memory, root: Node?, path: seq<Node>, key: int, before: Tree, loose: Node?)
    requires Settling(m, root, path, key, before) && Parented(m, root, loose) && |path| > 1 && loose !in path
    ensures m[path[|path| - 2]].parent == if |path| > 2 then path[|path| - 3] else null
  {
    var p := path[|path| - 2];
    assert Placed(m, p, root);
    if |path| > 2 {
      assert Next(m, path[|path| - 3], p, key) && Owns(m, path[|path| - 3]);
    }
  }

  /** One level further up: the stale child is now the node above the last one. */
  lemma {:induction false} StepUp(m: Memory, m': Memory, root: Node?, path: seq<Node>, key: int, before: Tree)
    requires Settling(m, root, path, key, before) && |path| > 1
    requires Linked(m') && forall n :: n in m ==> n in m'
    requires forall e :: 0 <= e < |path| - 2 ==> m'[path[e]] == m[path[e]]
    requires m[path[|path| - 2]].parent == if |path| > 2 then path[|path| - 3] else null
    requires forall n :: n in m && n != path[|path| - 2] && n != path[|path| - 1] ==> m'[n].tree == m[n].tree
    requires m[path[|path| - 1]].parent == path[|path| - 2]
    requires forall n :: n in m' && !(|path| > 2 && n == path[|path| - 3]) ==> Owns(m', n) && Labelled(m', n)
    ensures Settling(m', root, path[..|path| - 1], key, m[path[|path| - 2]].tree)
  {
    DescentUp(m, m', root, path, key);
    assert Owns(m, path[|path| - 2]);
    if |path| > 2 {
      LabelAbove(m, m', root, path, key, before);
    }
    hide Descent, Labelled, LabelledBut;
  }

  /** The descent up to the node above the last one stays a descent where its other nodes stay as they are. */
  lemma {:induction false} DescentUp(m: Memory, m': Memory, root: Node?, path: seq<Node>, key: int)
    requires Descent(m, root, path, key) && |path| > 1 && forall n :: n in m ==> n in m'
    requires forall e :: 0 <= e < |path| - 2 ==> m'[path[e]] == m[path[e]]
    ensures Descent(m', root, path[..|path| - 1], key)
  {
    DescentPrefix(m, root, path, key);
    forall e | 0 <= e < |path| - 2 ensures Next(m', path[e], path[e + 1], key) {
      assert Next(m, path[e], path[e + 1], key);
    }
  }

  /** Two levels above the end of the path the label still shows what the node below it was. */
  lemma {:induction false} LabelAbove(m: Memory, m': Memory, root: Node?, path: seq<Node>, key: int, before: Tree)
    requires Settling(m, root, path, key, before) && |path| > 2 && Linked(m') && forall n :: n in m ==> n in m'
    requires m'[path[|path| - 3]] == m[path[|path| - 3]]
    requires m[path[|path| - 2]].parent == path[|path| - 3] && m[path[|path| - 1]].parent == path[|path| - 2]
    requires forall n :: n in m && n != path[|path| - 2] && n != path[|path| - 1] ==> m'[n].tree == m[n].tree
    ensures var q := path[|path| - 3];
      Owns(m', q) && LabelledBut(m', q, ChildIndex(m'[q].keys, key), m[path[|path| - 2]].tree)
  {
    var p, q := path[|path| - 2], path[|path| - 3];
    assert Next(m, q, p, key) && Owns(m, q) && Owns(m', q) && Labelled(m, q);
  }

  lemma {:induction false} AddSame(m: Memory, p: Node, at: nat, sep: int, right: Node, t: Tree)
    requires p in m && right in m && right != p && at <= |m[p].keys| && at < |m[p].kids|
    ensures var m' := AddChild(m, p, at, sep, right, t);
      && m'.Keys == m.Keys && m'[p].tree == t
      && forall n :: n in m && n != p ==> m'[n].tree == m[n].tree && (n != right ==> m'[n] == m[n])
  {
  }

  lemma {:induction false} AddLabels(m: Memory, root: Node?, path: seq<Node>, sep: int, right: Node, key: int,
      row: int, before: Tree, n: Node)
    requires Pending(m, root, path, sep, right, key, row, before) && |path| > 1
    requires |m[path[|path| - 2]].keys| < MAX_KEYS
    requires n in m && !(|path| > 2 && n == path[|path| - 3])
    ensures var p := path[|path| - 2];
      var i := ChildIndex(m[p].keys, key);
      && i < |m[p].kids| && Ins(m[p].tree, key, row).Whole?
      && var m' := AddChild(m, p, i, sep, right, Ins(m[p].tree, key, row).tree);
      Owns(m', n) && Labelled(m', n)
  {
    {
      hide Pending;
      AbsorbedLabel(m, root, path, sep, right, key, row, before);
    }
    var p := path[|path| - 2];
    var i := ChildIndex(m[p].keys, key);
    var t := Ins(m[p].tree, key, row).tree;
    var m' := AddChild(m, p, i, sep, right, t);
    AddLinked(m, p, i, sep, right, t);
    assert Owns(m', n) && Owns(m, n);
    hide Ins, Linked, Shaped;
    if n == p {
      AddedLabel(m, p, i, path[|path| - 1], sep, right, before, t);
    } else {
      ParentOnPath(m, root, path, key, before, right);
      assert Labelled(m, n);
      LabelKept(m, m', n);
    }
  }

  lemma {:induction false} AddedLabel(m: Memory, p: Node, i: nat, left: Node, sep: int, right: Node, before: Tree,
      t: Tree)
    requires p in m && Owns(m, p) && LabelledBut(m, p, i, before) && m[p].kids[i] == left && m[left].parent == p
    requires right in m && right !in m[p].kids && p != right && !p.isLeaf && p !in m[p].kids
    requires t == Inner(InsertAt(m[p].keys, i, sep), InsertAt(m[p].tree.kids[i := m[left].tree], i + 1, m[right].tree))
    requires Owns(AddChild(m, p, i, sep, right, t), p)
    ensures Labelled(AddChild(m, p, i, sep, right, t), p)
  {
    var m' := AddChild(m, p, i, sep, right, t);
    forall j | 0 <= j < |m'[p].kids| ensures t.kids[j] == m'[m'[p].kids[j]].tree {
      assert m'[p].kids[j] == if j <= i then m[p].kids[j] else if j == i + 1 then right else m[p].kids[j - 1];
    }
  }

  lemma {:induction false} AddSettles(m: Memory, root: Node?, path: seq<Node>, sep: int, right: Node, key: int,
      row: int, before: Tree)
    requires Pending(m, root, path, sep, right, key, row, before) && |path| > 1
    requires |m[path[|path| - 2]].keys| < MAX_KEYS
    ensures var p := path[|path| - 2];
      var i := ChildIndex(m[p].keys, key);
      && i < |m[p].kids| && Ins(m[p].tree, key, row).Whole?
      && var m' := AddChild(m, p, i, sep, right, Ins(m[p].tree, key, row).tree);
      && Settling(m', root, path[..|path| - 1], key, m[p].tree) && Parented(m', root, null)
      && Ins(m[p].tree, key, row) == Whole(m'[p].tree)
  {
    {
      hide Pending;
      AbsorbedLabel(m, root, path, sep, right, key, row, before);
    }
    var p := path[|path| - 2];
    var i := ChildIndex(m[p].keys, key);
    var t := Ins(m[p].tree, key, row).tree;
    var m' := AddChild(m, p, i, sep, right, t);
    AddLinked(m, p, i, sep, right, t);
    AddParented(m, root, p, i, sep, right, t);
    hide Parented;
    {
      hide Settling;
      ParentOnPath(m, root, path, key, before, right);
    }
    hide Labelled, LabelledBut;
    AddSame(m, p, i, sep, right, t);
    forall n | n in m' && !(|path| > 2 && n == path[|path| - 3]) ensures Owns(m', n) && Labelled(m', n) {
      hide Settling, Pending, Owns;
      AddLabels(m, root, path, sep, right, key, row, before, n);
    }
    hide Linked, Pending, Shaped, AddChild;
    StepUp(m, m', root, path, key, before);
  }

  // ---------- A full parent is split itself ----------

  /** The keys and the children of `p` with the pending sibling among them: one key too many. */
  ghost function WideKeys(m: Memory, p: Node, at: nat, sep: int): seq<int>
    requires p in m && at <= |m[p].keys|
  {
    InsertAt(m[p].keys, at, sep)
  }

  ghost function WideKids(m: Memory, p: Node, at: nat, right: Node): seq<Node>
    requires p in m && at < |m[p].kids|
  {
    InsertAt(m[p].kids, at + 1, right)
  }

  /** `p` keeps the first half and `q` takes the second. */
  ghost function SplitInner(m: Memory, p: Node, at: nat, sep: int, right: Node, q: Node, l: Tree, r: Tree): Memory
    requires p in m && at <= |m[p].keys| && at < |m[p].kids| && |m[p].kids| == |m[p].keys| + 1
  {
    var ks, cs := WideKeys(m, p, at, sep), WideKids(m, p, at, right);
    var mid := |ks| / 2;
    map n | n in m.Keys + {q} ::
      if n == p then m[p].(keys := ks[..mid], kids := cs[..mid + 1], tree := l)
      else if n == q then Cell(ks[mid + 1..], [], cs[mid + 1..], m[p].parent, null, r)
      else if n in cs then m[n].(parent := if n in cs[mid + 1..] then q else p)
      else m[n]
  }

  ghost predicate Full(m: Memory, p: Node, at: nat, right: Node, q: Node) {
    && p in m && p != right && !p.isLeaf && at <= |m[p].keys| == MAX_KEYS && |m[p].kids| == |m[p].keys| + 1
    && right in m && (forall n :: n in m ==> right !in m[n].kids) && p !in m[p].kids
    && q !in m && !q.isLeaf
  }

  ghost predicate Distinct(s: seq<Node>) {
    forall j, k :: 0 <= j < k < |s| ==> s[j] != s[k]
  }

  lemma {:induction false} WideKidsAt(m: Memory, p: Node, at: nat, right: Node)
    requires p in m && at < |m[p].kids| && Owns(m, p) && right in m && right !in m[p].kids
    ensures var cs := WideKids(m, p, at, right);
      && (forall j :: 0 <= j < |cs| ==>
        cs[j] == if j <= at then m[p].kids[j] else if j == at + 1 then right else m[p].kids[j - 1])
      && Distinct(cs)
      && (forall n :: n in cs <==> n in m[p].kids || n == right)
      && (forall n :: n in cs ==> n in m)
  {
    var cs, kids := WideKids(m, p, at, right), m[p].kids;
    InsertDistinct(kids, at, right);
    forall n | n in cs ensures n in m {
      assert n in kids || n == right;
    }
  }

  /** One more element in a sequence of different ones. */
  lemma {:induction false} InsertDistinct(s: seq<Node>, at: nat, x: Node)
    requires at < |s| && x !in s && forall i, j :: 0 <= i < j < |s| ==> s[i] != s[j]
    ensures var r := InsertAt(s, at + 1, x);
      && (forall j :: 0 <= j < |r| ==> r[j] == if j <= at then s[j] else if j == at + 1 then x else s[j - 1])
      && Distinct(r)
      && (forall n :: n in r <==> n in s || n == x)
  {
    var r := InsertAt(s, at + 1, x);
    assert r == s[..at + 1] + [x] + s[at + 1..];
    assert s == s[..at + 1] + s[at + 1..];
  }

  lemma {:induction false} Halves(s: seq<Node>, k: nat)
    requires Distinct(s) && k <= |s|
    ensures Distinct(s[..k]) && Distinct(s[k..])
    ensures forall n :: n in s <==> n in s[..k] || n in s[k..]
    ensures forall n :: n in s[..k] ==> n !in s[k..]
  {
    assert forall j :: k <= j < |s| ==> s[k..][j - k] == s[j];
    assert forall j :: 0 <= j < k ==> s[..k][j] == s[j];
  }

  lemma {:induction false} SplitLinked(m: Memory, p: Node, at: nat, sep: int, right: Node, q: Node, l: Tree, r: Tree)
    requires Linked(m) && Full(m, p, at, right, q)
    ensures Linked(SplitInner(m, p, at, sep, right, q, l, r))
  {
    var m' := SplitInner(m, p, at, sep, right, q, l, r);
    var cs := WideKids(m, p, at, right);
    assert Owns(m, p);
    WideKidsAt(m, p, at, right);
    forall n | n in m' ensures Owns(m', n) {
      if n == p || n == q {
        SplitOwns(m, p, at, sep, right, q, l, r, n);
      } else {
        assert Owns(m, n);
        forall i | 0 <= i < |m[n].kids| ensures m'[m[n].kids[i]].parent == n {
          assert m[n].kids[i] !in cs;
        }
      }
    }
  }

  lemma {:induction false} SplitChild(m: Memory, p: Node, at: nat, sep: int, right: Node, q: Node, l: Tree, r: Tree,
      c: Node)
    requires Linked(m) && Full(m, p, at, right, q) && c in WideKids(m, p, at, right)
    ensures var m' := SplitInner(m, p, at, sep, right, q, l, r);
      && c in m && c in m' && m'[c].tree == m[c].tree
      && m'[c].parent == if c in WideKids(m, p, at, right)[(MAX_KEYS + 1) / 2 + 1..] then q else p
  {
    assert |WideKeys(m, p, at, sep)| == MAX_KEYS + 1;
    hide WideKeys;
    assert Owns(m, p);
    WideKidsAt(m, p, at, right);
  }

  lemma {:induction false} SplitOwns(m: Memory, p: Node, at: nat, sep: int, right: Node, q: Node, l: Tree, r: Tree,
      n: Node)
    requires Linked(m) && Full(m, p, at, right, q) && (n == p || n == q)
    ensures Owns(SplitInner(m, p, at, sep, right, q, l, r), n)
  {
    assert |WideKeys(m, p, at, sep)| == MAX_KEYS + 1 && |WideKids(m, p, at, right)| == MAX_KEYS + 2;
    hide WideKids, WideKeys, Linked;
    var m' := SplitInner(m, p, at, sep, right, q, l, r);
    assert Owns(m, p) by { LinkedAt(m, p); }
    WideKidsAt(m, p, at, right);
    Halves(WideKids(m, p, at, right), (MAX_KEYS + 1) / 2 + 1);
    forall i | 0 <= i < |m'[n].kids| ensures m'[n].kids[i] in m' && m'[m'[n].kids[i]].parent == n {
      assert m'[n].kids[i] in m'[n].kids;
      SplitChild(m, p, at, sep, right, q, l, r, m'[n].kids[i]);
    }
    assert Distinct(m'[n].kids);
  }

  lemma LinkedAt(m: Memory, n: Node)
    requires Linked(m) && n in m
    ensures Owns(m, n)
  {
  }

  lemma {:induction false} SplitParented(m: Memory, root: Node?, p: Node, at: nat, sep: int, right: Node, q: Node,
      l: Tree, r: Tree)
    requires Linked(m) && Parented(m, root, right) && Full(m, p, at, right, q)
    ensures Parented(SplitInner(m, p, at, sep, right, q, l, r), root, q)
  {
    var m' := SplitInner(m, p, at, sep, right, q, l, r);
    var cs := WideKids(m, p, at, right);
    assert Owns(m, p);
    WideKidsAt(m, p, at, right);
    Halves(cs, (MAX_KEYS + 1) / 2 + 1);
    forall n | n in m' && n != q ensures Placed(m', n, root) {
      if n != right { assert Placed(m, n, root); }
    }
    forall n | n in m' ensures q !in m'[n].kids {
      if n in m {
        assert Owns(m, n);
        assert forall c :: c in m[n].kids ==> c in m;
      }
    }
  }

  /** `l` and `r` are the halves of the tree of `p`, once it took the pending sibling. */
  ghost predicate Halved(m: Memory, p: Node, i: nat, left: Node, sep: int, right: Node, l: Tree, r: Tree)
    requires p in m && left in m && right in m && |m[p].keys| == MAX_KEYS && |m[p].kids| == MAX_KEYS + 1
    requires i < |m[p].kids|
  {
    && m[p].tree.Inner? && |m[p].tree.kids| == |m[p].kids|
    && var ts := InsertAt(m[p].tree.kids[i := m[left].tree], i + 1, m[right].tree);
      MakeInner(WideKeys(m, p, i, sep), ts) == Split(l, WideKeys(m, p, i, sep)[(MAX_KEYS + 1) / 2], r)
  }

  lemma {:induction false} SplitLabel(m: Memory, p: Node, i: nat, left: Node, sep: int, right: Node, q: Node,
      before: Tree, l: Tree, r: Tree, n: Node)
    requires Linked(m) && Full(m, p, i, right, q) && Owns(m, p) && LabelledBut(m, p, i, before) && m[p].kids[i] == left
    requires Halved(m, p, i, left, sep, right, l, r)
    requires n == p || n == q
    ensures Owns(SplitInner(m, p, i, sep, right, q, l, r), n) && Labelled(SplitInner(m, p, i, sep, right, q, l, r), n)
  {
    var m' := SplitInner(m, p, i, sep, right, q, l, r);
    SplitOwns(m, p, i, sep, right, q, l, r, n);
    SplitTrees(m, p, i, left, sep, right, q, before, l, r);
    HalvedTrees(m, p, i, left, sep, right, l, r);
    assert |WideKeys(m, p, i, sep)| == MAX_KEYS + 1;
    hide Linked, LabelledBut, Halved, WideKeys, WideKids;
    forall j | 0 <= j < |m'[n].kids| ensures m'[n].tree.kids[j] == m'[m'[n].kids[j]].tree {
      assert WideKids(m, p, i, right)[if n == p then j else (MAX_KEYS + 1) / 2 + 1 + j] == m'[n].kids[j];
    }
  }

  /** The trees of the full node's children with the pending sibling among them. */
  ghost function WideTrees(m: Memory, p: Node, i: nat, left: Node, right: Node): (ts: seq<Tree>)
    requires p in m && left in m && right in m && m[p].tree.Inner? && i < |m[p].tree.kids|
    ensures |ts| == |m[p].tree.kids| + 1
  {
    InsertAt(m[p].tree.kids[i := m[left].tree], i + 1, m[right].tree)
  }

  lemma {:induction false} SplitTrees(m: Memory, p: Node, i: nat, left: Node, sep: int, right: Node, q: Node,
      before: Tree, l: Tree, r: Tree)
    requires Linked(m) && Full(m, p, i, right, q) && Owns(m, p) && LabelledBut(m, p, i, before) && m[p].kids[i] == left
    ensures var m', cs := SplitInner(m, p, i, sep, right, q, l, r), WideKids(m, p, i, right);
      && left in m && |cs| == MAX_KEYS + 2
      && forall j :: 0 <= j < |cs| ==> cs[j] in m' && WideTrees(m, p, i, left, right)[j] == m'[cs[j]].tree
  {
    WideKidsAt(m, p, i, right);
    WideTreesAt(m, p, i, left, right, before);
    var cs := WideKids(m, p, i, right);
    assert |cs| == MAX_KEYS + 2;
    hide Linked, WideKeys, WideKids, WideTrees, LabelledBut;
    forall j | 0 <= j < |cs|
      ensures var m' := SplitInner(m, p, i, sep, right, q, l, r);
        cs[j] in m' && WideTrees(m, p, i, left, right)[j] == m'[cs[j]].tree
    {
      assert cs[j] in cs;
      SplitChild(m, p, i, sep, right, q, l, r, cs[j]);
    }
  }

  lemma {:induction false} WideTreesAt(m: Memory, p: Node, i: nat, left: Node, right: Node, before: Tree)
    requires p in m && right in m && right !in m[p].kids && Owns(m, p) && LabelledBut(m, p, i, before)
    requires m[p].kids[i] == left
    ensures var cs := WideKids(m, p, i, right);
      forall j :: 0 <= j < |cs| ==> cs[j] in m && WideTrees(m, p, i, left, right)[j] == m[cs[j]].tree
  {
    WideKidsAt(m, p, i, right);
    hide WideKids;
    var cs := WideKids(m, p, i, right);
    assert forall j :: 0 <= j < |cs| ==> cs[j] in cs;
  }

  lemma {:induction false} HalvedTrees(m: Memory, p: Node, i: nat, left: Node, sep: int, right: Node, l: Tree, r: Tree)
    requires p in m && left in m && right in m && |m[p].keys| == MAX_KEYS && |m[p].kids| == MAX_KEYS + 1
    requires i < |m[p].kids| && Halved(m, p, i, left, sep, right, l, r)
    ensures var ks, ts, mid := WideKeys(m, p, i, sep), WideTrees(m, p, i, left, right), (MAX_KEYS + 1) / 2;
      l == Inner(ks[..mid], ts[..mid + 1]) && r == Inner(ks[mid + 1..], ts[mid + 1..])
  {
  }

  lemma {:induction false} SplitPath(m: Memory, root: Node?, path: seq<Node>, sep: int, right: Node, key: int,
      before: Tree, q: Node, l: Tree, r: Tree)
    requires Settling(m, root, path, key, before) && Parented(m, root, right) && right !in path && |path| > 1
    requires Full(m, path[|path| - 2], ChildIndex(m[path[|path| - 2]].keys, key), right, q)
    ensures var p := path[|path| - 2];
      var m' := SplitInner(m, p, ChildIndex(m[p].keys, key), sep, right, q, l, r);
      forall e :: 0 <= e < |path| - 2 ==> m'[path[e]] == m[path[e]]
  {
    var p := path[|path| - 2];
    assert Owns(m, p);
    WideKidsAt(m, p, ChildIndex(m[p].keys, key), right);
    forall e | 0 <= e < |path| - 2 ensures path[e] !in WideKids(m, p, ChildIndex(m[p].keys, key), right) {
      assert Placed(m, path[e], root);
      if e > 0 {
        assert Next(m, path[e - 1], path[e], key) && Owns(m, path[e - 1]);
      }
    }
  }

  /** What the node above a split last node is, before it takes the pending sibling. */
  ghost predicate Splitting(m: Memory, root: Node?, path: seq<Node>, sep: int, right: Node, key: int, before: Tree,
      q: Node, p: Node, i: nat, l: Tree, r: Tree) {
    && Settling(m, root, path, key, before) && Parented(m, root, right) && right !in path && |path| > 1
    && p == path[|path| - 2] && i == ChildIndex(m[p].keys, key) && Full(m, p, i, right, q)
    && Owns(m, p) && m[p].kids[i] == path[|path| - 1] && Halved(m, p, i, path[|path| - 1], sep, right, l, r)
    && m[p].parent == if |path| > 2 then path[|path| - 3] else null
  }

  lemma {:induction false} SplitLabels(m: Memory, root: Node?, path: seq<Node>, sep: int, right: Node, key: int,
      before: Tree, q: Node, p: Node, i: nat, l: Tree, r: Tree, n: Node)
    requires Splitting(m, root, path, sep, right, key, before, q, p, i, l, r)
    requires n in m.Keys + {q} && !(|path| > 2 && n == path[|path| - 3])
    ensures var m' := SplitInner(m, p, i, sep, right, q, l, r); Owns(m', n) && Labelled(m', n)
  {
    if n == p || n == q {
      SplitLabel(m, p, i, path[|path| - 1], sep, right, q, before, l, r, n);
    } else {
      WideKidsAt(m, p, i, right);
      SplitLinked(m, p, i, sep, right, q, l, r);
      var m' := SplitInner(m, p, i, sep, right, q, l, r);
      assert Owns(m, n) && Labelled(m, n) && Owns(m', n);
      assert p !in m[n].kids;
      LabelKept(m, m', n);
    }
  }

  lemma {:induction false} SplitSame(m: Memory, p: Node, at: nat, sep: int, right: Node, q: Node, l: Tree, r: Tree)
    requires p in m && q !in m && at <= |m[p].keys| && at < |m[p].kids| && |m[p].kids| == |m[p].keys| + 1
    ensures var m' := SplitInner(m, p, at, sep, right, q, l, r);
      && m'.Keys == m.Keys + {q}
      && forall n :: n in m && n != p ==> m'[n].tree == m[n].tree
  {
    hide WideKids, WideKeys;
  }

  lemma {:induction false} SplittingLinked(m: Memory, root: Node?, path: seq<Node>, sep: int, right: Node, key: int,
      before: Tree, q: Node, p: Node, i: nat, l: Tree, r: Tree)
    requires Splitting(m, root, path, sep, right, key, before, q, p, i, l, r)
    ensures Linked(m)
  {
    hide Halved, Full, Parented, Linked, Descent;
  }

  lemma {:induction false} SplitSettles(m: Memory, root: Node?, path: seq<Node>, sep: int, right: Node, key: int,
      before: Tree, q: Node, p: Node, i: nat, l: Tree, r: Tree)
    requires Splitting(m, root, path, sep, right, key, before, q, p, i, l, r)
    ensures Settling(SplitInner(m, p, i, sep, right, q, l, r), root, path[..|path| - 1], key, m[p].tree)
  {
    {
      hide Settling, Parented, Full, Halved, Linked;
      SplittingLinked(m, root, path, sep, right, key, before, q, p, i, l, r);
      SplitLinked(m, p, i, sep, right, q, l, r);
      SplitPath(m, root, path, sep, right, key, before, q, l, r);
      SplitSame(m, p, i, sep, right, q, l, r);
    }
    hide SplitInner;
    var m' := SplitInner(m, p, i, sep, right, q, l, r);
    forall n | n in m' && !(|path| > 2 && n == path[|path| - 3]) ensures Owns(m', n) && Labelled(m', n) {
      hide Splitting, Settling, Labelled, Owns, WideKids, WideKeys;
      SplitLabels(m, root, path, sep, right, key, before, q, p, i, l, r, n);
    }
    hide Linked, Labelled, LabelledBut, Halved, WideKids, WideKeys, Shaped;
    StepUp(m, m', root, path, key, before);
  }

  /** The pending sibling moves one level up. */
  lemma {:induction false} SplitPends(m: Memory, root: Node?, path: seq<Node>, sep: int, right: Node, key: int,
      row: int, before: Tree, q: Node)
    requires Pending(m, root, path, sep, right, key, row, before) && |path| > 1
    requires |m[path[|path| - 2]].keys| == MAX_KEYS && q !in m && !q.isLeaf
    ensures var p := path[|path| - 2];
      var i := ChildIndex(m[p].keys, key);
      && |m[p].kids| == |m[p].keys| + 1 && Ins(m[p].tree, key, row).Split?
      && var s := Ins(m[p].tree, key, row);
      Pending(SplitInner(m, p, i, sep, right, q, s.left, s.right), root, path[..|path| - 1],
              WideKeys(m, p, i, sep)[(MAX_KEYS + 1) / 2], q, key, row, m[p].tree)
  {
    {
      hide Pending;
      AbsorbedLabel(m, root, path, sep, right, key, row, before);
    }
    var p := path[|path| - 2];
    var i := ChildIndex(m[p].keys, key);
    var s := Ins(m[p].tree, key, row);
    {
      hide Settling, Parented;
      ParentOnPath(m, root, path, key, before, right);
    }
    SplitSettles(m, root, path, sep, right, key, before, q, p, i, s.left, s.right);
    SplitParented(m, root, p, i, sep, right, q, s.left, s.right);
  }

  // ---------- The root itself was split ----------

  ghost function Grown(m: Memory, left: Node, sep: int, right: Node, top: Node): Memory
    requires left in m && right in m
  {
    map n | n in m.Keys + {top} ::
      if n == top then Cell([sep], [], [left, right], null, null, Inner([sep], [m[left].tree, m[right].tree]))
      else if n == left || n == right then m[n].(parent := top)
      else m[n]
  }

  lemma {:induction false} GrowPointers(m: Memory, left: Node, sep: int, right: Node, top: Node)
    requires Linked(m) && Parented(m, left, right) && top !in m && !top.isLeaf
    ensures Linked(Grown(m, left, sep, right, top)) && Parented(Grown(m, left, sep, right, top), top, null)
  {
    var m' := Grown(m, left, sep, right, top);
    assert m'[top].kids[0] == left && m'[top].kids[1] == right;
    assert Placed(m, left, left);
    forall n | n in m ensures left !in m[n].kids && top !in m[n].kids {
      assert Owns(m, n);
    }
    forall n | n in m' ensures Owns(m', n) {
      if n != top { assert Owns(m, n); }
    }
    forall n | n in m' ensures Placed(m', n, top) {
      if n != top && n != right { assert Placed(m, n, left); }
    }
  }

  /** A split root ends the walk: the tree is one level higher. */
  lemma {:induction false} GrowSettles(m: Memory, left: Node, sep: int, right: Node, key: int, row: int, before: Tree,
      top: Node)
    requires Pending(m, left, [left], sep, right, key, row, before) && top !in m && !top.isLeaf
    ensures Settled(Grown(m, left, sep, right, top), top)
    ensures Grown(m, left, sep, right, top)[top].tree == Goal(m, [left], key, row, before)
  {
    var m' := Grown(m, left, sep, right, top);
    assert left == [left][0];
    GrowPointers(m, left, sep, right, top);
    forall n | n in m' ensures Owns(m', n) && Labelled(m', n) {
      assert Owns(m', n);
      if n != top {
        assert Owns(m, n) && Labelled(m, n);
        assert forall c :: c in m[n].kids ==> c in m;
        LabelKept(m, m', n);
      }
    }
  }

  // ---------- The leaf ----------

  ghost function PutLeaf(m: Memory, leaf: Node, keys: seq<int>, rows: seq<int>): Memory
    requires leaf in m
  {
    m[leaf := m[leaf].(keys := keys, rows := rows, tree := Leaf(keys, rows))]
  }

  /** The leaf keeps the first half, the new leaf follows it with the second. */
  ghost function HalveLeaf(m: Memory, leaf: Node, keys: seq<int>, rows: seq<int>, q: Node): Memory
    requires leaf in m && |rows| == |keys|
  {
    var mid := |keys| / 2;
    m[leaf := m[leaf].(keys := keys[..mid], rows := rows[..mid], tree := Leaf(keys[..mid], rows[..mid]), next := q)]
      [q := Cell(keys[mid..], rows[mid..], [], m[leaf].parent, m[leaf].next, Leaf(keys[mid..], rows[mid..]))]
  }

  /** A descent in a settled memory, seen as a walk back that has not begun. */
  lemma {:induction false} LeafSettling(m: Memory, root: Node?, path: seq<Node>, key: int, m': Memory, loose: Node?)
    requires Settled(m, root) && Shaped(m[root].tree) && Descent(m, root, path, key) && path[|path| - 1].isLeaf
    requires forall n :: n in m' <==> n in m || (loose != null && n == loose)
    requires loose != null ==> loose !in m && loose.isLeaf
    requires forall n :: n in m && n != path[|path| - 1] ==> m'[n] == m[n]
    requires var leaf := path[|path| - 1]; m'[leaf].parent == m[leaf].parent
    requires forall n :: n in m' && (n == loose || n == path[|path| - 1]) ==>
      Typed(n, m'[n]) && m'[n].tree == Leaf(m'[n].keys, m'[n].rows)
    ensures Settling(m', root, path, key, m[path[|path| - 1]].tree) && Parented(m', root, loose)
  {
    var leaf := path[|path| - 1];
    LeafLinked(m, root, leaf, m', loose);
    LeafDescends(m, root, path, key, m');
    DescentShaped(m, root, path, key);
    LeafLabels(m, root, path, key, m', loose);
    hide Linked, Parented, AllLabelled, Descent, Labelled, LabelledBut;
  }

  lemma {:induction false} LeafLinked(m: Memory, root: Node?, leaf: Node, m': Memory, loose: Node?)
    requires Settled(m, root) && leaf in m && leaf.isLeaf
    requires forall n :: n in m' <==> n in m || (loose != null && n == loose)
    requires loose != null ==> loose !in m && loose.isLeaf
    requires (forall n :: n in m && n != leaf ==> m'[n] == m[n]) && m'[leaf].parent == m[leaf].parent
    requires forall n :: n in m' && (n == loose || n == leaf) ==> Typed(n, m'[n])
    ensures Linked(m') && Parented(m', root, loose)
  {
    hide AllLabelled;
    forall n | n in m ensures loose != null ==> loose !in m[n].kids {
      assert Owns(m, n);
    }
    forall n | n in m' ensures Owns(m', n) {
      if n in m { assert Owns(m, n); }
    }
    assert Owns(m, leaf);
    forall n | n in m' && n != loose ensures Placed(m', n, root) {
      assert Placed(m, n, root);
    }
  }

  lemma {:induction false} LeafDescends(m: Memory, root: Node?, path: seq<Node>, key: int, m': Memory)
    requires Descent(m, root, path, key) && path[|path| - 1].isLeaf && forall n :: n in m ==> n in m'
    requires forall n :: n in m && n != path[|path| - 1] ==> m'[n] == m[n]
    ensures Descent(m', root, path, key)
  {
    forall e | 0 <= e < |path| - 1 ensures Next(m', path[e], path[e + 1], key) {
      assert Next(m, path[e], path[e + 1], key);
    }
  }

  lemma {:induction false} DescentShaped(m: Memory, root: Node?, path: seq<Node>, key: int)
    requires Settled(m, root) && Shaped(m[root].tree) && Descent(m, root, path, key)
    ensures forall e :: 0 <= e < |path| ==> Shaped(m[path[e]].tree)
    decreases |path|
  {
    if |path| > 1 {
      DescentPrefix(m, root, path, key);
      DescentShaped(m, root, path[..|path| - 1], key);
      var p := path[|path| - 2];
      assert p == path[..|path| - 1][|path| - 2];
      assert Next(m, p, path[|path| - 1], key) && Owns(m, p) && Labelled(m, p);
      forall e | 0 <= e < |path| ensures Shaped(m[path[e]].tree) {
        if e < |path| - 1 { assert path[e] == path[..|path| - 1][e]; }
      }
    }
  }

  lemma {:induction false} LeafLabels(m: Memory, root: Node?, path: seq<Node>, key: int, m': Memory, loose: Node?)
    requires Settled(m, root) && Descent(m, root, path, key) && path[|path| - 1].isLeaf && Linked(m')
    requires forall n :: n in m' <==> n in m || (loose != null && n == loose)
    requires forall n :: n in m && n != path[|path| - 1] ==> m'[n] == m[n]
    requires forall n :: n in m' && (n == loose || n == path[|path| - 1]) ==>
      n.isLeaf && m'[n].tree == Leaf(m'[n].keys, m'[n].rows)
    ensures forall n :: n in m' && !(|path| > 1 && n == path[|path| - 2]) ==> Owns(m', n) && Labelled(m', n)
    ensures |path| > 1 ==>
      var p := path[|path| - 2];
      Owns(m', p) && LabelledBut(m', p, ChildIndex(m'[p].keys, key), m[path[|path| - 1]].tree)
  {
    var leaf := path[|path| - 1];
    if |path| > 1 {
      assert Next(m, path[|path| - 2], leaf, key) && Owns(m, path[|path| - 2]) && Labelled(m, path[|path| - 2]);
    }
    assert Placed(m, leaf, root);
    forall n | n in m' && !(|path| > 1 && n == path[|path| - 2]) ensures Owns(m', n) && Labelled(m', n) {
      assert Owns(m', n);
      if n in m && n != leaf {
        assert Owns(m, n) && Labelled(m, n);
        assert leaf !in m[n].kids;
        LabelKept(m, m', n);
      }
    }
    if |path| > 1 { assert Owns(m', path[|path| - 2]); }
  }

  // ---------- One whole step of the walk ----------

  /** What a walk back to the root leaves alone: the leaves, but for their parents. */
  ghost predicate LeavesKept(m: Memory, m': Memory) {
    && (forall n :: n in m ==> n in m')
    && (forall n :: n in m' && n.isLeaf ==> n in m && m'[n] == m[n].(parent := m'[n].parent))
  }

  /** The parent of the last node has room: it takes the pending sibling, and the labels above are renewed. */
  ghost function Adopt(m: Memory, path: seq<Node>, sep: int, right: Node, key: int, row: int): (m': Memory)
    requires |path| > 1 && forall e :: 0 <= e < |path| ==> path[e] in m
    requires var p := path[|path| - 2];
      right in m && ChildIndex(m[p].keys, key) < |m[p].kids| && Shaped(m[p].tree) && Ins(m[p].tree, key, row).Whole?
  {
    var p := path[|path| - 2];
    Relabel(AddChild(m, p, ChildIndex(m[p].keys, key), sep, right, Ins(m[p].tree, key, row).tree),
      path[..|path| - 1], key)
  }

  lemma {:induction false} AdoptSettles(m: Memory, root: Node?, path: seq<Node>, sep: int, right: Node, key: int,
      row: int, before: Tree)
    requires Pending(m, root, path, sep, right, key, row, before) && |path| > 1
    requires |m[path[|path| - 2]].keys| < MAX_KEYS
    ensures var p := path[|path| - 2];
      ChildIndex(m[p].keys, key) < |m[p].kids| && Shaped(m[p].tree) && Ins(m[p].tree, key, row).Whole?
    ensures Settled(Adopt(m, path, sep, right, key, row), root)
    ensures Adopt(m, path, sep, right, key, row)[root].tree == Goal(m, path, key, row, before)
    ensures LeavesKept(m, Adopt(m, path, sep, right, key, row))
  {
    var p := path[|path| - 2];
    AddSettles(m, root, path, sep, right, key, row, before);
    var m1 := AddChild(m, p, ChildIndex(m[p].keys, key), sep, right, Ins(m[p].tree, key, row).tree);
    var up := path[..|path| - 1];
    RelabelSettles(m1, root, up, key, row, m[p].tree);
    assert Goal(m1, up, key, row, m[p].tree) == Goal(m, path, key, row, before) by {
      assert up[0] == path[0];
      assert |path| > 2 ==> m1[path[0]].tree == m[path[0]].tree;
    }
    AdoptLeaves(m, path, sep, right, key, row);
  }

  lemma {:induction false} AdoptLeaves(m: Memory, path: seq<Node>, sep: int, right: Node, key: int, row: int)
    requires |path| > 1 && forall e :: 0 <= e < |path| ==> path[e] in m
    requires forall e :: 0 <= e < |path| - 1 ==> !path[e].isLeaf
    requires var p := path[|path| - 2];
      right in m && ChildIndex(m[p].keys, key) < |m[p].kids| && Shaped(m[p].tree) && Ins(m[p].tree, key, row).Whole?
    ensures LeavesKept(m, Adopt(m, path, sep, right, key, row))
  {
    var up := path[..|path| - 1];
    forall n | n in m && n.isLeaf ensures n !in up[..|up| - 1] {
      assert forall e :: 0 <= e < |up| - 1 ==> up[..|up| - 1][e] == path[e];
    }
  }

  /** Moving the pending sibling up changes neither the leaves nor what the walk is to end in. */
  lemma {:induction false} SplitKeeps(m: Memory, path: seq<Node>, at: nat, sep: int, right: Node, q: Node, l: Tree,
      r: Tree, key: int, row: int, before: Tree)
    requires |path| > 1 && (forall e :: 0 <= e < |path| ==> path[e] in m)
    requires (forall e :: 0 <= e < |path| - 1 ==> Shaped(m[path[e]].tree))
    requires (forall e, f :: 0 <= e < f < |path| ==> path[e] != path[f]) && Shaped(before)
    requires Full(m, path[|path| - 2], at, right, q)
    ensures var p := path[|path| - 2];
      var m' := SplitInner(m, p, at, sep, right, q, l, r);
      LeavesKept(m, m') && Goal(m', path[..|path| - 1], key, row, m[p].tree) == Goal(m, path, key, row, before)
  {
    assert path[..|path| - 1][0] == path[0];
  }

  lemma {:induction false} LeavesKeptTransitive(m: Memory, m1: Memory, m2: Memory)
    requires LeavesKept(m, m1) && LeavesKept(m1, m2)
    ensures LeavesKept(m, m2)
  {
  }

  /** Where the last node of a path hangs: below the one before it, or nowhere if it is the root. */
  lemma {:induction false} LastParent(m: Memory, root: Node?, path: seq<Node>, key: int, before: Tree, loose: Node?)
    requires Settling(m, root, path, key, before) && Parented(m, root, loose) && loose !in path
    ensures var left := path[|path| - 1];
      && m[left].parent == (if |path| == 1 then null else path[|path| - 2])
      && (|path| > 1 ==>
            var p := path[|path| - 2];
            var i := ChildIndex(m[p].keys, key);
            && Typed(p, m[p]) && !p.isLeaf && m[p].kids[i] == left && left in m[p].kids && p !in m[p].kids
            && (forall j :: 0 <= j < |m[p].kids| && m[p].kids[j] == left ==> j == i))
  {
    var left := path[|path| - 1];
    assert Placed(m, left, root);
    if |path| > 1 {
      var p := path[|path| - 2];
      assert Next(m, p, left, key) && Owns(m, p);
      ParentOnPath(m, root, path, key, before, loose);
    }
  }

  /** What the node above a split last node is, when it is full. */
  lemma {:induction false} SplitFacts(m: Memory, root: Node?, path: seq<Node>, sep: int, right: Node, key: int,
      row: int, before: Tree, i: nat)
    requires Pending(m, root, path, sep, right, key, row, before) && |path| > 1
    requires |m[path[|path| - 2]].keys| == MAX_KEYS && i == ChildIndex(m[path[|path| - 2]].keys, key)
    ensures forall e :: 0 <= e < |path| - 1 ==> Shaped(m[path[e]].tree)
    ensures var p := path[|path| - 2];
      && Typed(p, m[p]) && !p.isLeaf && Ins(m[p].tree, key, row).Split?
      && p != right && (forall n :: n in m ==> right !in m[n].kids) && p !in m[p].kids
      && Distinct(WideKids(m, p, i, right)) && p !in WideKids(m, p, i, right)
      && forall n :: n in WideKids(m, p, i, right) ==> n in m
  {
    var p := path[|path| - 2];
    AbsorbedLabel(m, root, path, sep, right, key, row, before);
    ParentOnPath(m, root, path, key, before, right);
    WideKidsAt(m, p, i, right);
  }
}
