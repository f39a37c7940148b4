/** The B+ tree of linked nodes: search, and insertion that splits bottom-up along parent pointers.
    One insertion makes the tree at the root the one that the top-down `BPTreeModel.Insert` describes. */
module BPTree {
  import opened Options
  import opened BPTreeModel
  import opened BPTreeMemory
  import opened BPTreeOrder
  import opened BPTreeFill
  import opened BPTreeChain

  // ---------- Nodes and their cells ----------

  /** No two nodes share an array. */
  ghost predicate Separate(S: set<Node>) {
    && (forall m, n :: m in S && n in S && m != n ==> m.keys != n.keys && m.rows != n.rows && m.children != n.children)
    && (forall m, n :: m in S && n in S ==> m.keys != n.rows)
  }

  /** The node holds what the cell says. */
  ghost predicate Holds(n: Node, c: Cell)
    reads n, n.keys, n.rows, n.children
  {
    && n.keys.Length == n.rows.Length == MAX_KEYS && n.children.Length == MAX_KEYS + 1
    && Typed(n, c) && n.keyCount == |c.keys| && n.parent == c.parent && n.next == c.next
    && n.keys[..|c.keys|] == c.keys
    && (n.isLeaf ==> n.rows[..|c.keys|] == c.rows)
    && (!n.isLeaf ==> n.children[..|c.kids|] == c.kids)
  }

  /** The nodes and their arrays all lie in the frame. */
  ghost predicate Covers(frame: set<object>, m: Memory) {
    forall n :: n in m ==> n in frame && n.keys in frame && n.rows in frame && n.children in frame
  }

  ghost predicate Represents(m: Memory, frame: set<object>)
    reads frame
  {
    Covers(frame, m) && Separate(m.Keys) && forall n {:trigger Holds(n, m[n])} :: n in m ==> Holds(n, m[n])
  }

  /** The frame with one more node. */
  ghost function With(frame: set<object>, n: Node): set<object> {
    frame + {n, n.keys, n.rows, n.children}
  }

  // ---------- Loops over arrays ----------

  /** Copies the first `count` elements with `x` put at position `at`. */
  method Merge<T(0)>(a: array<T>, count: nat, at: nat, x: T) returns (temp: array<T>)
    requires at <= count <= a.Length
    ensures fresh(temp) && temp[..] == InsertAt(a[..count], at, x)
  {
    ghost var merged := InsertAt(a[..count], at, x);
    temp := new T[count + 1];
    var i, j := 0, 0;
    while i < count + 1
      invariant 0 <= i <= count + 1
      invariant j == if i <= at then i else i - 1
      invariant temp[..i] == merged[..i]
    {
      if i == at {
        temp[i] := x;
      } else {
        temp[i] := a[j];
        j := j + 1;
      }
      i := i + 1;
    }
  }

  /** Copies `source[from..to]` to the front of `target`. */
  method CopyFront<T>(source: array<T>, from: nat, to: nat, target: array<T>)
    requires from <= to <= source.Length && to - from <= target.Length && source != target
    modifies target
    ensures target[..to - from] == source[from..to]
  {
    var i, j := from, 0;
    while i < to
      invariant from <= i <= to && j == i - from
      invariant target[..j] == source[from..i]
    {
      target[j] := source[i];
      i, j := i + 1, j + 1;
    }
  }

  /** Shifts the elements from `at` on one place up and puts `x` at `at`. */
  method ShiftIn<T>(a: array<T>, count: nat, at: nat, x: T)
    requires at <= count < a.Length
    modifies a
    ensures a[..count + 1] == InsertAt(old(a[..count]), at, x)
  {
    var i := count;
    while i > at
      invariant at <= i <= count
      invariant forall m :: 0 <= m < i ==> a[m] == old(a[m])
      invariant forall m :: i < m <= count ==> a[m] == old(a[m - 1])
    {
      a[i] := a[i - 1];
      i := i - 1;
    }
    a[at] := x;
  }

  // ---------- Single nodes ----------

  /** The position of the child among the children of its parent. */
  method FindChildIndex(parent: Node, child: Node, ghost c: Cell) returns (index: int)
    requires Holds(parent, c) && !parent.isLeaf
    ensures child in c.kids <==> index != -1
    ensures index != -1 ==> 0 <= index < |c.kids| && c.kids[index] == child
  {
    var i := 0;
    while i <= parent.keyCount
      invariant 0 <= i <= parent.keyCount + 1
      invariant child !in c.kids[..i]
    {
      assert parent.children[i] == parent.children[..|c.kids|][i];
      if parent.children[i] == child {
        return i;
      }
      i := i + 1;
    }
    return -1;
  }

  /** The first key position not smaller than `key`. */
  method FindKeyIndex(leaf: Node, key: int, ghost c: Cell) returns (index: nat)
    requires Holds(leaf, c)
    ensures index == LeafIndex(c.keys, key)
  {
    index := 0;
    while index < leaf.keyCount && leaf.keys[index] < key
      invariant 0 <= index <= leaf.keyCount
      invariant forall j :: 0 <= j < index ==> c.keys[j] < key
    {
      assert leaf.keys[index] == leaf.keys[..|c.keys|][index];
      index := index + 1;
    }
    assert index < |c.keys| ==> leaf.keys[index] == leaf.keys[..|c.keys|][index];
    LeafIndexUnique(c.keys, key, index);
  }

  lemma {:induction false} LeafIndexUnique(keys: seq<int>, key: int, i: nat)
    requires i <= |keys| && (forall j :: 0 <= j < i ==> keys[j] < key) && (i < |keys| ==> key <= keys[i])
    ensures LeafIndex(keys, key) == i
  {
    if i > 0 {
      assert forall j :: 0 <= j < i - 1 ==> keys[1..][j] == keys[j + 1];
      LeafIndexUnique(keys[1..], key, i - 1);
    }
  }

  lemma {:induction false} ChildIndexUnique(keys: seq<int>, key: int, i: nat)
    requires i <= |keys| && (forall j :: 0 <= j < i ==> keys[j] <= key) && (i < |keys| ==> key < keys[i])
    ensures ChildIndex(keys, key) == i
  {
    if i > 0 {
      assert forall j :: 0 <= j < i - 1 ==> keys[1..][j] == keys[j + 1];
      ChildIndexUnique(keys[1..], key, i - 1);
    }
  }

  method InsertIntoLeaf(leaf: Node, key: int, row: int, ghost c: Cell)
    requires Holds(leaf, c) && leaf.isLeaf && leaf.keyCount < MAX_KEYS && leaf.keys != leaf.rows
    modifies leaf`keyCount, leaf.keys, leaf.rows
    ensures var i := LeafIndex(c.keys, key);
      Holds(leaf, c.(keys := InsertAt(c.keys, i, key), rows := InsertAt(c.rows, i, row)))
  {
    var at := FindKeyIndex(leaf, key, c);
    ShiftIn(leaf.keys, leaf.keyCount, at, key);
    ShiftIn(leaf.rows, leaf.keyCount, at, row);
    leaf.keyCount := leaf.keyCount + 1;
  }

  method InsertIntoInternal(node: Node, childIndex: nat, key: int, right: Node, ghost c: Cell)
    requires Holds(node, c) && !node.isLeaf && childIndex <= node.keyCount < MAX_KEYS && node != right
    modifies node`keyCount, node.keys, node.children, right`parent
    ensures right.parent == node
    ensures Holds(node, c.(keys := InsertAt(c.keys, childIndex, key), kids := InsertAt(c.kids, childIndex + 1, right)))
  {
    ShiftIn(node.keys, node.keyCount, childIndex, key);
    ShiftIn(node.children, node.keyCount + 1, childIndex + 1, right);
    right.parent := node;
    node.keyCount := node.keyCount + 1;
  }

  /** Makes keys `from` to `to` and the children around them the contents of an internal node. */
  method FillInternal(node: Node, keys: array<int>, children: array<Node?>, from: nat, to: nat, ghost kids: seq<Node>)
    requires from <= to < children.Length && to <= keys.Length && to - from <= MAX_KEYS
    requires children[from..to + 1] == kids && node !in kids
    requires !node.isLeaf && keys != node.keys && keys != node.rows && children != node.children
    requires node.keys.Length == node.rows.Length == MAX_KEYS && node.children.Length == MAX_KEYS + 1
    modifies node`keyCount, node.keys, node.children, kids`parent
    ensures Holds(node, Cell(keys[from..to], [], kids, node.parent, node.next, Leaf([], [])))
    ensures forall i :: 0 <= i < |kids| ==> kids[i].parent == node
  {
    CopyFront(keys, from, to, node.keys);
    node.keyCount := to - from;
    var i, j := from, 0;
    while i < to + 1
      invariant from <= i <= to + 1 && j == i - from
      invariant node.keyCount == to - from && node.keys[..to - from] == keys[from..to]
      invariant children[from..to + 1] == kids
      invariant node.children[..j] == kids[..j]
      invariant forall m :: 0 <= m < j ==> kids[m].parent == node
    {
      assert children[i] == children[from..to + 1][j] == kids[j];
      node.children[j] := children[i];
      if node.children[j] != null {
        node.children[j].parent := node;
      }
      i, j := i + 1, j + 1;
    }
    assert node.children[..j] == kids;
  }

  /** Makes pairs `from` to `to` the contents of a leaf. */
  method FillLeaf(leaf: Node, keys: array<int>, rows: array<int>, from: nat, to: nat)
    requires from <= to <= keys.Length == rows.Length && to - from <= MAX_KEYS && leaf.isLeaf
    requires keys != leaf.keys && keys != leaf.rows && rows != leaf.keys && rows != leaf.rows && leaf.keys != leaf.rows
    requires leaf.keys.Length == leaf.rows.Length == MAX_KEYS && leaf.children.Length == MAX_KEYS + 1
    modifies leaf`keyCount, leaf.keys, leaf.rows
    ensures Holds(leaf, Cell(keys[from..to], rows[from..to], [], leaf.parent, leaf.next, Leaf([], [])))
  {
    CopyFront(keys, from, to, leaf.keys);
    CopyFront(rows, from, to, leaf.rows);
    leaf.keyCount := to - from;
  }

  method ClearChildren(node: Node)
    modifies node.children
    ensures forall i :: 0 <= i < node.children.Length ==> node.children[i] == null
  {
    var i := 0;
    while i < node.children.Length
      invariant 0 <= i <= node.children.Length
      invariant forall j :: 0 <= j < i ==> node.children[j] == null
    {
      node.children[i] := null;
      i := i + 1;
    }
  }

  /** An internal node above two others. */
  method NodeAbove(left: Node, sep: int, right: Node, ghost t: Tree, ghost frame: set<object>) returns (top: Node)
    modifies left`parent, right`parent
    ensures fresh(top) && fresh(top.keys) && fresh(top.rows) && fresh(top.children) && top.keys != top.rows
    ensures forall o :: o in With(frame, top) ==> o in frame || fresh(o)
    ensures !top.isLeaf && Holds(top, Cell([sep], [], [left, right], null, null, t))
    ensures left.parent == right.parent == top
  {
    top := new Node(false);
    top.keys[0] := sep;
    top.children[0] := left;
    top.children[1] := right;
    top.keyCount := 1;
    left.parent := top;
    right.parent := top;
  }

  // ---------- The steps of a split, on the nodes ----------

  /** Puts a node among the children of a parent that has room. */
  method AddToParent(parent: Node, childIndex: nat, sep: int, right: Node, ghost m: Memory, ghost frame: set<object>,
      ghost t: Tree)
    requires Represents(m, frame) && parent in m && right in m && parent != right && !parent.isLeaf
    requires childIndex <= |m[parent].keys| < MAX_KEYS && childIndex < |m[parent].kids|
    modifies parent`keyCount, parent.keys, parent.children, right`parent
    ensures Represents(AddChild(m, parent, childIndex, sep, right, t), frame)
  {
    assert Holds(parent, m[parent]) && Holds(right, m[right]);
    InsertIntoInternal(parent, childIndex, sep, right, m[parent]);
    ghost var m': Memory := AddChild(m, parent, childIndex, sep, right, t);
    forall n | n in m' ensures Holds(n, m'[n]) {
      if n != parent && n != right {
        assert old(Holds(n, m[n]));
      }
    }
  }

  /** Gives the first half of the merged keys and children back to the old node, the second to the new one. */
  method ShareOut(node: Node, newNode: Node, keys: array<int>, children: array<Node?>, ghost ks: seq<int>,
      ghost cs: seq<Node>)
    requires keys[..] == ks && children[..] == cs && |ks| == MAX_KEYS + 1 && |cs| == |ks| + 1
    requires Distinct(cs) && node !in cs && newNode !in cs && node != newNode
    requires Separate({node, newNode}) && !node.isLeaf && !newNode.isLeaf
    requires keys != node.keys && keys != node.rows && children != node.children
    requires keys != newNode.keys && keys != newNode.rows && children != newNode.children
    requires node.keys.Length == node.rows.Length == MAX_KEYS && node.children.Length == MAX_KEYS + 1
    requires newNode.keys.Length == newNode.rows.Length == MAX_KEYS && newNode.children.Length == MAX_KEYS + 1
    modifies node`keyCount, node.keys, node.children, newNode`keyCount, newNode`parent, newNode.keys
    modifies newNode.children, cs`parent
    ensures newNode.parent == node.parent
    ensures var mid := (MAX_KEYS + 1) / 2;
      && Holds(node, Cell(ks[..mid], [], cs[..mid + 1], node.parent, node.next, Leaf([], [])))
      && Holds(newNode, Cell(ks[mid + 1..], [], cs[mid + 1..], node.parent, newNode.next, Leaf([], [])))
      && forall n :: n in cs ==> n.parent == if n in cs[mid + 1..] then newNode else node
  {
    Halves(cs, (MAX_KEYS + 1) / 2 + 1);
    hide Distinct;
    FillHalves(node, newNode, keys, children, ks, cs);
    newNode.parent := node.parent;
  }

  /** The keys and children of both nodes. */
  method FillHalves(node: Node, newNode: Node, keys: array<int>, children: array<Node?>, ghost ks: seq<int>,
      ghost cs: seq<Node>)
    requires keys[..] == ks && children[..] == cs && |ks| == MAX_KEYS + 1 && |cs| == |ks| + 1
    requires Distinct(cs) && node !in cs && newNode !in cs && node != newNode
    requires Separate({node, newNode}) && !node.isLeaf && !newNode.isLeaf
    requires keys != node.keys && keys != node.rows && children != node.children
    requires keys != newNode.keys && keys != newNode.rows && children != newNode.children
    requires node.keys.Length == node.rows.Length == MAX_KEYS && node.children.Length == MAX_KEYS + 1
    requires newNode.keys.Length == newNode.rows.Length == MAX_KEYS && newNode.children.Length == MAX_KEYS + 1
    modifies node`keyCount, node.keys, node.children, newNode`keyCount, newNode.keys, newNode.children, cs`parent
    ensures var mid := (MAX_KEYS + 1) / 2;
      && Holds(node, Cell(ks[..mid], [], cs[..mid + 1], node.parent, node.next, Leaf([], [])))
      && Holds(newNode, Cell(ks[mid + 1..], [], cs[mid + 1..], newNode.parent, newNode.next, Leaf([], [])))
      && forall n :: n in cs ==> n.parent == if n in cs[mid + 1..] then newNode else node
  {
    var mid := (MAX_KEYS + 1) / 2;
    Halves(cs, mid + 1);
    assert node.keys != newNode.keys && node.rows != newNode.rows && node.children != newNode.children;
    assert node.keys != newNode.rows && newNode.keys != node.rows && newNode.keys != newNode.rows;
    hide Separate, Distinct, Holds;
    ClearChildren(node);
    FillInternal(node, keys, children, 0, mid, cs[..mid + 1]);
    FillInternal(newNode, keys, children, mid + 1, MAX_KEYS + 1, cs[mid + 1..]);
  }

  /** Splits a full internal node between itself and a new one, together with one more key and child. */
  method SplitArrays(node: Node, childIndex: nat, sep: int, right: Node, ghost c: Cell, ghost cs: seq<Node>,
      ghost frame: set<object>)
    returns (newNode: Node, promote: int)
    requires Holds(node, c) && !node.isLeaf && node.keys != node.rows && childIndex <= |c.keys| == MAX_KEYS
    requires cs == InsertAt(c.kids, childIndex + 1, right) && Distinct(cs) && node !in cs
    modifies node`keyCount, node.keys, node.children, cs`parent
    ensures fresh(newNode) && fresh(newNode.keys) && fresh(newNode.rows) && fresh(newNode.children) && !newNode.isLeaf
    ensures forall o :: o in With(frame, newNode) ==> o in frame || fresh(o)
    ensures newNode.keys != newNode.rows
    ensures var ks, mid := InsertAt(c.keys, childIndex, sep), (MAX_KEYS + 1) / 2;
      && promote == ks[mid]
      && Holds(node, c.(keys := ks[..mid], kids := cs[..mid + 1]))
      && Holds(newNode, Cell(ks[mid + 1..], [], cs[mid + 1..], c.parent, null, Leaf([], [])))
      && forall n :: n in cs ==> n.parent == if n in cs[mid + 1..] then newNode else node
  {
    var tempKeys := Merge(node.keys, node.keyCount, childIndex, sep);
    var tempChildren := Merge(node.children, node.keyCount + 1, childIndex + 1, right);
    promote := tempKeys[(node.keyCount + 1) / 2];
    newNode := new Node(false);
    ShareOut(node, newNode, tempKeys, tempChildren, InsertAt(c.keys, childIndex, sep), cs);
  }

  method SplitFull(parent: Node, childIndex: nat, sep: int, right: Node, ghost m: Memory, ghost frame: set<object>,
      ghost cs: seq<Node>, ghost l: Tree, ghost r: Tree)
    returns (newNode: Node, promote: int)
    requires Represents(m, frame) && parent in m && !parent.isLeaf && childIndex <= |m[parent].keys| == MAX_KEYS
    requires |m[parent].kids| == MAX_KEYS + 1 && cs == WideKids(m, parent, childIndex, right)
    requires Distinct(cs) && parent !in cs && forall n :: n in cs ==> n in m
    modifies parent`keyCount, parent.keys, parent.children, cs`parent
    ensures fresh(newNode) && fresh(newNode.keys) && fresh(newNode.rows) && fresh(newNode.children) && !newNode.isLeaf
    ensures forall o :: o in With(frame, newNode) ==> o in frame || fresh(o)
    ensures promote == WideKeys(m, parent, childIndex, sep)[(MAX_KEYS + 1) / 2]
    ensures Represents(SplitInner(m, parent, childIndex, sep, right, newNode, l, r), With(frame, newNode))
  {
    assert Holds(parent, m[parent]);
    newNode, promote := SplitArrays(parent, childIndex, sep, right, m[parent], cs, frame);
    ghost var m': Memory := SplitInner(m, parent, childIndex, sep, right, newNode, l, r);
    SeparateAdd(m.Keys, newNode);
    forall n | n in m' ensures Holds(n, m'[n]) {
      if n != parent && n != newNode {
        assert old(Holds(n, m[n]));
      }
    }
  }

  /** Makes a new root above the two halves of the old one. */
  method GrowRoot(left: Node, sep: int, right: Node, ghost m: Memory, ghost frame: set<object>) returns (top: Node)
    requires Represents(m, frame) && left in m && right in m && left != right
    modifies left`parent, right`parent
    ensures fresh(top) && fresh(top.keys) && fresh(top.rows) && fresh(top.children) && !top.isLeaf
    ensures forall o :: o in With(frame, top) ==> o in frame || fresh(o)
    ensures Represents(Grown(m, left, sep, right, top), With(frame, top))
  {
    top := NodeAbove(left, sep, right, Inner([sep], [m[left].tree, m[right].tree]), frame);
    ghost var m': Memory := Grown(m, left, sep, right, top);
    SeparateAdd(m.Keys, top);
    forall n | n in m' ensures Holds(n, m'[n]) {
      if n != top {
        assert old(Holds(n, m[n]));
      }
    }
  }

  /** Splits a full leaf between itself and a new one that follows it, together with one more pair. */
  method SplitLeafNode(leaf: Node, key: int, row: int, ghost m: Memory, ghost frame: set<object>)
    returns (newLeaf: Node)
    requires Represents(m, frame) && leaf in m && leaf.isLeaf && |m[leaf].keys| == MAX_KEYS == |m[leaf].rows|
    modifies leaf`keyCount, leaf`next, leaf.keys, leaf.rows
    ensures fresh(newLeaf) && fresh(newLeaf.keys) && fresh(newLeaf.rows) && fresh(newLeaf.children) && newLeaf.isLeaf
    ensures forall o :: o in With(frame, newLeaf) ==> o in frame || fresh(o)
    ensures var i := LeafIndex(m[leaf].keys, key);
      Represents(HalveLeaf(m, leaf, InsertAt(m[leaf].keys, i, key), InsertAt(m[leaf].rows, i, row), newLeaf),
        With(frame, newLeaf))
  {
    assert Holds(leaf, m[leaf]);
    newLeaf := SplitLeafArrays(leaf, key, row, m[leaf], frame);
    ghost var i := LeafIndex(m[leaf].keys, key);
    ghost var m': Memory := HalveLeaf(m, leaf, InsertAt(m[leaf].keys, i, key), InsertAt(m[leaf].rows, i, row), newLeaf);
    SeparateAdd(m.Keys, newLeaf);
    forall n | n in m' ensures Holds(n, m'[n]) {
      if n != leaf && n != newLeaf {
        assert old(Holds(n, m[n]));
      }
    }
  }

  /** Gives the first half of the merged pairs back to the old leaf, the second to the one that follows it. */
  method ShareOutLeaf(leaf: Node, newLeaf: Node, keys: array<int>, rows: array<int>, ghost ks: seq<int>,
      ghost rs: seq<int>)
    requires keys[..] == ks && rows[..] == rs && |ks| == |rs| == MAX_KEYS + 1
    requires leaf != newLeaf && Separate({leaf, newLeaf}) && leaf.isLeaf && newLeaf.isLeaf
    requires keys != leaf.keys && keys != leaf.rows && rows != leaf.keys && rows != leaf.rows
    requires keys != newLeaf.keys && keys != newLeaf.rows && rows != newLeaf.keys && rows != newLeaf.rows
    requires leaf.keys.Length == leaf.rows.Length == MAX_KEYS && leaf.children.Length == MAX_KEYS + 1
    requires newLeaf.keys.Length == newLeaf.rows.Length == MAX_KEYS && newLeaf.children.Length == MAX_KEYS + 1
    modifies leaf`keyCount, leaf`next, leaf.keys, leaf.rows, newLeaf`keyCount, newLeaf`next, newLeaf`parent
    modifies newLeaf.keys, newLeaf.rows
    ensures var mid := (MAX_KEYS + 1) / 2;
      && Holds(leaf, Cell(ks[..mid], rs[..mid], [], old(leaf.parent), newLeaf, Leaf([], [])))
      && Holds(newLeaf, Cell(ks[mid..], rs[mid..], [], old(leaf.parent), old(leaf.next), Leaf([], [])))
  {
    var mid := keys.Length / 2;
    assert keys[0..mid] == ks[..mid] && keys[mid..keys.Length] == ks[mid..];
    assert rows[0..mid] == rs[..mid] && rows[mid..rows.Length] == rs[mid..];
    FillLeaf(leaf, keys, rows, 0, mid);
    FillLeaf(newLeaf, keys, rows, mid, keys.Length);
    newLeaf.next := leaf.next;
    leaf.next := newLeaf;
    newLeaf.parent := leaf.parent;
  }

  method SplitLeafArrays(leaf: Node, key: int, row: int, ghost c: Cell, ghost frame: set<object>)
    returns (newLeaf: Node)
    requires Holds(leaf, c) && leaf.isLeaf && |c.keys| == MAX_KEYS && leaf.keys != leaf.rows
    modifies leaf`keyCount, leaf`next, leaf.keys, leaf.rows
    ensures fresh(newLeaf) && fresh(newLeaf.keys) && fresh(newLeaf.rows) && fresh(newLeaf.children) && newLeaf.isLeaf
    ensures forall o :: o in With(frame, newLeaf) ==> o in frame || fresh(o)
    ensures newLeaf.keys != newLeaf.rows
    ensures var i, mid := LeafIndex(c.keys, key), (MAX_KEYS + 1) / 2;
      var ks, rs := InsertAt(c.keys, i, key), InsertAt(c.rows, i, row);
      && Holds(leaf, c.(keys := ks[..mid], rows := rs[..mid], next := newLeaf))
      && Holds(newLeaf, Cell(ks[mid..], rs[mid..], [], c.parent, c.next, Leaf([], [])))
  {
    newLeaf := new Node(true);
    var at := FindKeyIndex(leaf, key, c);
    var tempKeys := Merge(leaf.keys, leaf.keyCount, at, key);
    var tempRows := Merge(leaf.rows, leaf.keyCount, at, row);
    ShareOutLeaf(leaf, newLeaf, tempKeys, tempRows, InsertAt(c.keys, at, key), InsertAt(c.rows, at, row));
  }

  lemma {:induction false} SeparateAdd(S: set<Node>, n: Node)
    requires Separate(S) && n.keys != n.rows
    requires forall o :: o in S ==> o.keys != n.keys && o.rows != n.rows && o.children != n.children
    requires forall o :: o in S ==> o.keys != n.rows && n.keys != o.rows
    ensures Separate(S + {n})
  {
  }

  /** Labels are not in the nodes. */
  lemma {:induction false} RelabelRepresents(m: Memory, m': Memory, frame: set<object>)
    requires Represents(m, frame) && m'.Keys == m.Keys && forall n :: n in m ==> m'[n] == m[n].(tree := m'[n].tree)
    ensures Represents(m', frame)
  {
    forall n | n in m' ensures Holds(n, m'[n]) {
      assert Holds(n, m[n]);
    }
  }

  // ---------- The walk back to the root ----------

  /** The root itself was split: a new root. */
  method RaiseRoot(left: Node, sep: int, right: Node, ghost m: Memory, ghost frame: set<object>, ghost key: int,
      ghost row: int, ghost before: Tree)
    returns (newRoot: Node, ghost m': Memory)
    requires Represents(m, frame) && Pending(m, left, [left], sep, right, key, row, before)
    modifies left`parent, right`parent
    ensures Represents(m', With(frame, newRoot)) && Settled(m', newRoot) && LeavesKept(m, m')
    ensures m'[newRoot].tree == Goal(m, [left], key, row, before)
    ensures forall o :: o in With(frame, newRoot) ==> o in frame || fresh(o)
  {
    assert [left][0] == left;
    newRoot := GrowRoot(left, sep, right, m, frame);
    GrowSettles(m, left, sep, right, key, row, before, newRoot);
    m' := Grown(m, left, sep, right, newRoot);
  }

  /** The parent has room: it takes the pending sibling. */
  method AdoptPending(parent: Node, childIndex: nat, sep: int, right: Node, ghost root: Node, ghost m: Memory,
      ghost frame: set<object>, ghost path: seq<Node>, ghost key: int, ghost row: int, ghost before: Tree)
    returns (ghost m': Memory)
    requires Represents(m, frame) && Pending(m, root, path, sep, right, key, row, before)
    requires |path| > 1 && parent == path[|path| - 2] && |m[parent].keys| < MAX_KEYS
    requires childIndex == ChildIndex(m[parent].keys, key)
    modifies parent`keyCount, parent.keys, parent.children, right`parent
    ensures Represents(m', frame) && Settled(m', root) && LeavesKept(m, m')
    ensures m'[root].tree == Goal(m, path, key, row, before)
  {
    AdoptSettles(m, root, path, sep, right, key, row, before);
    AbsorbedLabel(m, root, path, sep, right, key, row, before);
    ghost var t := Ins(m[parent].tree, key, row).tree;
    AddToParent(parent, childIndex, sep, right, m, frame, t);
    m' := Adopt(m, path, sep, right, key, row);
    RelabelRepresents(AddChild(m, parent, childIndex, sep, right, t), m', frame);
  }

  /** The parent is full: it is split, and its new sibling is the pending one. */
  method SplitPending(node: Node, childIndex: nat, sep: int, right: Node, ghost root: Node, ghost m: Memory,
      ghost frame: set<object>, ghost path: seq<Node>, ghost key: int, ghost row: int, ghost before: Tree)
    returns (newNode: Node, promote: int, ghost m': Memory)
    requires Represents(m, frame) && Pending(m, root, path, sep, right, key, row, before)
    requires |path| > 1 && node == path[|path| - 2] && |m[node].keys| == MAX_KEYS
    requires childIndex == ChildIndex(m[node].keys, key)
    modifies frame
    ensures Represents(m', With(frame, newNode)) && LeavesKept(m, m')
    ensures Pending(m', root, path[..|path| - 1], promote, newNode, key, row, m[node].tree)
    ensures Goal(m', path[..|path| - 1], key, row, m[node].tree) == Goal(m, path, key, row, before)
    ensures forall o :: o in With(frame, newNode) ==> o in frame || fresh(o)
  {
    SplitFacts(m, root, path, sep, right, key, row, before, childIndex);
    ghost var s := Ins(m[node].tree, key, row);
    newNode, promote := SplitFull(node, childIndex, sep, right, m, frame,
      WideKids(m, node, childIndex, right), s.left, s.right);
    SplitPends(m, root, path, sep, right, key, row, before, newNode);
    SplitKeeps(m, path, childIndex, sep, right, newNode, s.left, s.right, key, row, before);
    m' := SplitInner(m, node, childIndex, sep, right, newNode, s.left, s.right);
  }

  /** Splits the full parent and passes its new sibling on. */
  method SplitInternal(root: Node, node: Node, childIndex: nat, sep: int, right: Node, ghost m: Memory,
      ghost frame: set<object>, ghost path: seq<Node>, ghost key: int, ghost row: int, ghost before: Tree)
    returns (newRoot: Node, ghost m': Memory, ghost frame': set<object>)
    requires Represents(m, frame) && Pending(m, root, path, sep, right, key, row, before)
    requires |path| > 1 && node == path[|path| - 2] && |m[node].keys| == MAX_KEYS
    requires childIndex == ChildIndex(m[node].keys, key)
    modifies frame
    ensures Represents(m', frame') && Settled(m', newRoot) && LeavesKept(m, m')
    ensures m'[newRoot].tree == Goal(m, path, key, row, before)
    ensures forall o :: o in frame' ==> o in frame || fresh(o)
    decreases |path|, 0
  {
    ghost var m1: Memory;
    var newNode, promote;
    newNode, promote, m1 := SplitPending(node, childIndex, sep, right, root, m, frame, path, key, row, before);
    newRoot, m', frame' := InsertIntoParent(root, node, promote, newNode, m1, With(frame, newNode),
                                            path[..|path| - 1], key, row, m[node].tree);
    LeavesKeptTransitive(m, m1, m');
  }

  /** Gives the pending sibling its place: below a new root, in the parent, or in a parent that is split itself. */
  method InsertIntoParent(root: Node, left: Node, sep: int, right: Node, ghost m: Memory, ghost frame: set<object>,
      ghost path: seq<Node>, ghost key: int, ghost row: int, ghost before: Tree)
    returns (newRoot: Node, ghost m': Memory, ghost frame': set<object>)
    requires Represents(m, frame) && Pending(m, root, path, sep, right, key, row, before)
    requires left == path[|path| - 1]
    modifies frame
    ensures Represents(m', frame') && Settled(m', newRoot) && LeavesKept(m, m')
    ensures m'[newRoot].tree == Goal(m, path, key, row, before)
    ensures forall o :: o in frame' ==> o in frame || fresh(o)
    decreases |path|, 1
  {
    assert Holds(left, m[left]);
    LastParent(m, root, path, key, before, right);
    var parent := left.parent;
    if parent == null {
      assert path == [left];
      newRoot, m' := RaiseRoot(left, sep, right, m, frame, key, row, before);
      frame' := With(frame, newRoot);
      return;
    }
    assert Holds(parent, m[parent]);
    var childIndex := FindChildIndex(parent, left, m[parent]);
    assert childIndex == ChildIndex(m[parent].keys, key);
    if parent.keyCount < MAX_KEYS {
      m' := AdoptPending(parent, childIndex, sep, right, root, m, frame, path, key, row, before);
      newRoot, frame' := root, frame;
      return;
    }
    newRoot, m', frame' := SplitInternal(root, parent, childIndex, sep, right, m, frame, path, key, row, before);
  }

  // ---------- Descent ----------

  /** The child to descend into. */
  method FindSeparator(node: Node, key: int, ghost c: Cell) returns (i: nat)
    requires Holds(node, c)
    ensures i == ChildIndex(c.keys, key)
  {
    i := 0;
    while i < node.keyCount
      invariant 0 <= i <= node.keyCount
      invariant forall j :: 0 <= j < i ==> c.keys[j] <= key
    {
      assert node.keys[i] == node.keys[..|c.keys|][i];
      if key < node.keys[i] {
        break;
      }
      i := i + 1;
    }
    ChildIndexUnique(c.keys, key, i);
  }

  lemma {:induction false} DescentStep(m: Memory, root: Node, path: seq<Node>, key: int, c: Node)
    requires Settled(m, root) && Descent(m, root, path, key)
    requires !path[|path| - 1].isLeaf && forall e :: 0 <= e < |path| - 1 ==> m[path[|path| - 1]].tree < m[path[e]].tree
    requires var n := path[|path| - 1];
      ChildIndex(m[n].keys, key) < |m[n].kids| && c == m[n].kids[ChildIndex(m[n].keys, key)]
    ensures c in m && Descent(m, root, path + [c], key)
    ensures forall e :: 0 <= e < |path| ==> m[c].tree < m[path[e]].tree
  {
    var n := path[|path| - 1];
    assert Owns(m, n) && Labelled(m, n);
    assert m[c].tree < m[n].tree;
  }

  method FindLeaf(root: Node, key: int, ghost m: Memory, ghost frame: set<object>)
    returns (leaf: Node, ghost path: seq<Node>)
    requires Represents(m, frame) && Settled(m, root)
    ensures Descent(m, root, path, key) && leaf == path[|path| - 1] && leaf.isLeaf
  {
    leaf, path := root, [root];
    while !leaf.isLeaf
      invariant Descent(m, root, path, key) && leaf == path[|path| - 1]
      invariant forall e :: 0 <= e < |path| - 1 ==> m[leaf].tree < m[path[e]].tree
      decreases m[leaf].tree
    {
      assert Holds(leaf, m[leaf]);
      var i := FindSeparator(leaf, key, m[leaf]);
      var child := leaf.children[i];
      assert child == leaf.children[..|m[leaf].kids|][i];
      DescentStep(m, root, path, key, child);
      leaf, path := child, path + [child];
    }
  }

  /** The row stored with the key in a leaf. */
  method SearchLeaf(leaf: Node, key: int, ghost c: Cell) returns (found: bool, row: int)
    requires Holds(leaf, c) && leaf.isLeaf
    ensures found <==> key in c.keys
    ensures found ==> exists i :: 0 <= i < |c.keys| && c.keys[i] == key && c.rows[i] == row
  {
    var i := 0;
    while i < leaf.keyCount
      invariant 0 <= i <= leaf.keyCount
      invariant key !in c.keys[..i]
    {
      assert leaf.keys[i] == leaf.keys[..|c.keys|][i] && leaf.rows[i] == leaf.rows[..|c.keys|][i];
      if leaf.keys[i] == key {
        return true, leaf.rows[i];
      }
      i := i + 1;
    }
    return false, 0;
  }

  lemma {:induction false} LeafFindMeaning(keys: seq<int>, rows: seq<int>, key: int)
    requires |rows| == |keys| && Sorted(keys)
    ensures Find(Leaf(keys, rows), key).None? <==> key !in keys
    ensures forall i :: 0 <= i < |keys| && keys[i] == key ==> Find(Leaf(keys, rows), key) == Some(rows[i])
  {
    var p := LeafIndex(keys, key);
    forall i | 0 <= i < |keys| && keys[i] == key ensures i == p {
      assert p <= i;
      assert keys[p] >= key;
    }
  }

  /** What the leaf of a descent says about the key is what the whole tree says. */
  lemma {:induction false} DescentFinds(m: Memory, root: Node, path: seq<Node>, key: int)
    requires Settled(m, root) && Healthy(m[root].tree) && Descent(m, root, path, key) && path[|path| - 1].isLeaf
    ensures var leaf := path[|path| - 1];
      && Typed(leaf, m[leaf]) && |m[leaf].rows| == |m[leaf].keys|
      && (LinearFind(Entries(m[root].tree), key).None? <==> key !in m[leaf].keys)
      && forall i :: 0 <= i < |m[leaf].keys| && m[leaf].keys[i] == key ==>
           LinearFind(Entries(m[root].tree), key) == Some(m[leaf].rows[i])
  {
    var leaf := path[|path| - 1];
    assert Owns(m, leaf) && Labelled(m, leaf);
    DescentSlot(m, root, path, key, |path| - 1);
    DescentOrdered(m, root, path, key, |path| - 1, KEY_MIN, KEY_SUP);
    FindIsLinearFind(m[root].tree, key, KEY_MIN, KEY_SUP);
    LeafFindMeaning(m[leaf].keys, m[leaf].rows, key);
  }

  lemma {:induction false} DescentOrdered(m: Memory, root: Node, path: seq<Node>, key: int, e: nat, lo: int, hi: int)
    requires Settled(m, root) && Ordered(m[root].tree, lo, hi) && Descent(m, root, path, key) && e < |path|
    ensures exists lo', hi' :: Ordered(m[path[e]].tree, lo', hi')
  {
    if e > 0 {
      DescentOrdered(m, root, path, key, e - 1, lo, hi);
      var p := path[e - 1];
      var a, b :| Ordered(m[p].tree, a, b);
      assert Next(m, p, path[e], key) && Owns(m, p) && Labelled(m, p);
      var i := ChildIndex(m[p].keys, key);
      assert Ordered(m[p].tree.kids[i], Low(m[p].keys, i, a), High(m[p].keys, i, b));
    }
  }

  // ---------- The tree ----------

  class LinkedTree {
    var root: Node?
    ghost var memory: Memory
    ghost var frame: set<object>
    ghost var chain: seq<Node>   // the leaves, in the order of their `next` links

    ghost predicate Valid()
      reads this, frame
    {
      this !in frame && Represents(memory, frame) && Sound(memory, root, chain)
    }

    /** The tree that the nodes represent. */
    ghost function Value(): Option<Tree>
      reads this
      requires root != null ==> root in memory
    {
      if root == null then None else Some(memory[root].tree)
    }

    /** All stored pairs, ascending by key. */
    ghost function Contents(): seq<Entry>
      reads this
      requires root != null ==> root in memory
    {
      if root == null then [] else Entries(memory[root].tree)
    }

    constructor ()
      ensures Valid() && root == null && frame == {}
    {
      root, memory, frame, chain := null, map[], {}, [];
    }

    /** Finds what looking at every stored pair would find. */
    method Search(key: int) returns (found: bool, row: int)
      requires Valid()
      ensures LinearFind(Contents(), key) == if found then Some(row) else None
    {
      if root == null {
        return false, 0;
      }
      ghost var path;
      var leaf;
      leaf, path := FindLeaf(root, key, memory, frame);
      assert Holds(leaf, memory[leaf]);
      DescentFinds(memory, root, path, key);
      found, row := SearchLeaf(leaf, key, memory[leaf]);
    }

    /** Adds the pair of an absent key; refuses a present one and then changes nothing. */
    method Insert(key: int, row: int) returns (ok: bool)
      requires Valid() && KEY_MIN <= key < KEY_SUP
      modifies this, frame
      ensures Valid() && forall o :: o in frame ==> o in old(frame) || fresh(o)
      ensures ok <==> LinearFind(old(Contents()), key).None?
      ensures !ok ==> unchanged(this) && unchanged(old(frame))
      ensures ok ==> root != null && Contents() == InsertSorted(old(Contents()), Entry(key, row))
      ensures ok ==> Value() == Some(match old(Value())
                                     case None => Leaf([key], [row])
                                     case Some(t) => BPTreeModel.Insert(t, key, row))
    {
      if root == null {
        InsertFirst(key, row);
        return true;
      }
      var found, ignored := Search(key);
      if found {
        return false;
      }
      ghost var path;
      var leaf;
      leaf, path := FindLeaf(root, key, memory, frame);
      assert Holds(leaf, memory[leaf]);
      if leaf.keyCount < MAX_KEYS {
        InsertPlainly(leaf, key, row, path);
      } else {
        InsertSplitting(leaf, key, row, path);
      }
      return true;
    }

    method Install(newRoot: Node, ghost m: Memory, ghost f: set<object>, ghost c: seq<Node>)
      requires this !in f && Represents(m, f) && Sound(m, newRoot, c)
      modifies this
      ensures Valid() && root == newRoot && memory == m && frame == f && chain == c
    {
      root, memory, frame, chain := newRoot, m, f, c;
    }

    method InsertFirst(key: int, row: int)
      requires Valid() && KEY_MIN <= key < KEY_SUP && root == null
      modifies this
      ensures Valid() && root != null && (forall o :: o in frame ==> o in old(frame) || fresh(o))
      ensures Value() == Some(Leaf([key], [row])) && Contents() == [Entry(key, row)]
    {
      var node := new Node(true);
      node.keys[0] := key;
      node.rows[0] := row;
      node.keyCount := 1;
      ghost var m: Memory := map[node := Cell([key], [row], [], null, null, Leaf([key], [row]))];
      assert Holds(node, m[node]);
      FirstSound(m, node, key, row);
      Install(node, m, With(frame, node), [node]);
    }

    method InsertPlainly(leaf: Node, key: int, row: int, ghost path: seq<Node>)
      requires Valid() && KEY_MIN <= key < KEY_SUP && root != null && LinearFind(Contents(), key).None?
      requires Descent(memory, root, path, key) && leaf == path[|path| - 1] && leaf.isLeaf
      requires |memory[leaf].keys| < MAX_KEYS
      modifies this`memory, frame
      ensures Valid() && memory[root].tree == old(BPTreeModel.Insert(memory[root].tree, key, row))
      ensures Contents() == InsertSorted(old(Contents()), Entry(key, row))
    {
      ghost var m' := PutIntoLeaf(root, leaf, key, row, memory, frame, chain, path);
      memory := m';
    }

    method InsertSplitting(leaf: Node, key: int, row: int, ghost path: seq<Node>)
      requires Valid() && KEY_MIN <= key < KEY_SUP && root != null && LinearFind(Contents(), key).None?
      requires Descent(memory, root, path, key) && leaf == path[|path| - 1] && leaf.isLeaf
      requires |memory[leaf].keys| == MAX_KEYS
      modifies this, frame
      ensures Valid() && root != null && (forall o :: o in frame ==> o in old(frame) || fresh(o))
      ensures memory[root].tree == old(BPTreeModel.Insert(memory[root].tree, key, row))
      ensures Contents() == InsertSorted(old(Contents()), Entry(key, row))
    {
      ghost var m', frame', chain';
      var newRoot;
      newRoot, m', frame', chain' := SplitLeaf(root, leaf, key, row, memory, frame, chain, path);
      Install(newRoot, m', frame', chain');
    }
  }

  /** Puts the pair into a leaf that has room. */
  method PutIntoLeaf(ghost root: Node, leaf: Node, key: int, row: int, ghost m: Memory, ghost frame: set<object>,
      ghost chain: seq<Node>, ghost path: seq<Node>)
    returns (ghost m': Memory)
    requires Represents(m, frame) && Sound(m, root, chain) && Descent(m, root, path, key)
    requires leaf == path[|path| - 1] && leaf.isLeaf && |m[leaf].keys| < MAX_KEYS
    requires KEY_MIN <= key < KEY_SUP && LinearFind(Entries(m[root].tree), key).None?
    modifies leaf`keyCount, leaf.keys, leaf.rows
    ensures Represents(m', frame) && Sound(m', root, chain)
    ensures m'[root].tree == BPTreeModel.Insert(m[root].tree, key, row)
    ensures Entries(m'[root].tree) == InsertSorted(Entries(m[root].tree), Entry(key, row))
  {
    PutSound(m, root, chain, path, key, row);
    InsertHealthy(m[root].tree, key, row);
    PutInto(leaf, key, row, m, frame, path);
    m' := AfterPut(m, path, key, row);
  }

  method PutInto(leaf: Node, key: int, row: int, ghost m: Memory, ghost frame: set<object>, ghost path: seq<Node>)
    requires Represents(m, frame) && path != [] && (forall e :: 0 <= e < |path| ==> path[e] in m)
    requires leaf == path[|path| - 1] && leaf.isLeaf && |m[leaf].rows| == |m[leaf].keys| < MAX_KEYS
    modifies leaf`keyCount, leaf.keys, leaf.rows
    ensures Represents(AfterPut(m, path, key, row), frame)
  {
    assert Holds(leaf, m[leaf]);
    ghost var i := LeafIndex(m[leaf].keys, key);
    InsertIntoLeaf(leaf, key, row, m[leaf]);
    ghost var m1: Memory := PutLeaf(m, leaf, InsertAt(m[leaf].keys, i, key), InsertAt(m[leaf].rows, i, row));
    forall n | n in m1 ensures Holds(n, m1[n]) {
      if n != leaf {
        assert old(Holds(n, m[n]));
      }
    }
    RelabelRepresents(m1, AfterPut(m, path, key, row), frame);
  }

  /** Splits a full leaf and passes the new one on to the parent. */
  method SplitLeaf(root: Node, leaf: Node, key: int, row: int, ghost m: Memory, ghost frame: set<object>,
      ghost chain: seq<Node>, ghost path: seq<Node>)
    returns (newRoot: Node, ghost m': Memory, ghost frame': set<object>, ghost chain': seq<Node>)
    requires Represents(m, frame) && Sound(m, root, chain) && Descent(m, root, path, key)
    requires leaf == path[|path| - 1] && leaf.isLeaf && |m[leaf].keys| == MAX_KEYS
    requires KEY_MIN <= key < KEY_SUP && LinearFind(Entries(m[root].tree), key).None?
    modifies frame
    ensures Represents(m', frame') && Sound(m', newRoot, chain')
    ensures m'[newRoot].tree == BPTreeModel.Insert(m[root].tree, key, row)
    ensures Entries(m'[newRoot].tree) == InsertSorted(Entries(m[root].tree), Entry(key, row))
    ensures forall o :: o in frame' ==> o in frame || fresh(o)
  {
    assert Holds(leaf, m[leaf]);
    var newLeaf := SplitLeafNode(leaf, key, row, m, frame);
    SplitLeafPends(m, root, path, key, row, newLeaf);
    ghost var m1: Memory := AfterSplit(m, leaf, key, row, newLeaf);
    assert Holds(newLeaf, m1[newLeaf]);
    assert newLeaf.keys[0] == newLeaf.keys[..|m1[newLeaf].keys|][0];
    newRoot, m', frame' := InsertIntoParent(root, leaf, newLeaf.keys[0], newLeaf, m1, With(frame, newLeaf),
                                            path, key, row, m[leaf].tree);
    InsertHealthy(m[root].tree, key, row);
    SplitLeafSound(m, root, chain, path, key, row, newLeaf, m', newRoot);
    ghost var s := LeafSlot(m[root].tree, key);
    chain' := chain[..s] + [leaf, newLeaf] + chain[s + 1..];
  }
}
