/** The B+ tree as a value: the inductive tree that the linked nodes of module BPTree represent,
    its search and its insertion, and what insertion does to the entries, the order and the height. */
module BPTreeModel {
  import opened Options

  const MAX_KEYS := 31

  // The keys are C `int`s: KEY_MIN <= key < KEY_SUP.
  const KEY_MIN := -0x8000_0000
  const KEY_SUP := 0x8000_0000

  datatype Entry = Entry(key: int, row: int)

  datatype Tree =
    | Leaf(keys: seq<int>, rows: seq<int>)
    | Inner(keys: seq<int>, kids: seq<Tree>)

  /** A subtree after an insertion: still one node, or two nodes with a separator between them. */
  datatype Result = Whole(tree: Tree) | Split(left: Tree, sep: int, right: Tree)

  // ---------- Shape, order and height ----------

  ghost predicate Sorted(keys: seq<int>) {
    forall i, j :: 0 <= i < j < |keys| ==> keys[i] < keys[j]
  }

  ghost predicate Within(keys: seq<int>, lo: int, hi: int) {
    forall i :: 0 <= i < |keys| ==> lo <= keys[i] < hi
  }

  /** Child `i` of a node with these separators holds keys from Low (inclusive) to High (exclusive). */
  ghost function Low(keys: seq<int>, i: nat, lo: int): int
    requires i <= |keys|
  {
    if i == 0 then lo else keys[i - 1]
  }

  ghost function High(keys: seq<int>, i: nat, hi: int): int
    requires i <= |keys|
  {
    if i == |keys| then hi else keys[i]
  }

  /** Every node has as many rows as keys, or one child more than keys. */
  ghost predicate Shaped(t: Tree) {
    match t
    case Leaf(keys, rows) => |rows| == |keys|
    case Inner(keys, kids) => |kids| == |keys| + 1 && forall i :: 0 <= i < |kids| ==> Shaped(kids[i])
  }

  /** All keys lie in [lo, hi), strictly sorted, and every left subtree < separator <= every right subtree. */
  ghost predicate Ordered(t: Tree, lo: int, hi: int) {
    match t
    case Leaf(keys, rows) => |rows| == |keys| && Sorted(keys) && Within(keys, lo, hi)
    case Inner(keys, kids) =>
      && |kids| == |keys| + 1
      && Sorted(keys)
      && Within(keys, lo + 1, hi)
      && forall i :: 0 <= i < |kids| ==> Ordered(kids[i], Low(keys, i, lo), High(keys, i, hi))
  }

  /** Every leaf is `height` links below the root of `t`, and every node has its number of children. */
  ghost predicate Balanced(t: Tree, height: nat) {
    match t
    case Leaf(keys, rows) => height == 0 && |rows| == |keys|
    case Inner(keys, kids) =>
      height > 0 && |kids| == |keys| + 1 && forall i :: 0 <= i < |kids| ==> Balanced(kids[i], height - 1)
  }

  /** The number of links from the root to the leftmost leaf. */
  ghost function Height(t: Tree): nat {
    if t.Leaf? || t.kids == [] then 0 else 1 + Height(t.kids[0])
  }

  // ---------- Contents ----------

  ghost function Zip(keys: seq<int>, rows: seq<int>): (es: seq<Entry>)
    ensures |keys| == |rows| ==> |es| == |keys| && forall i :: 0 <= i < |es| ==> es[i] == Entry(keys[i], rows[i])
  {
    if |keys| != |rows| then [] else seq(|keys|, i requires 0 <= i < |keys| => Entry(keys[i], rows[i]))
  }

  /** The stored pairs, leaf after leaf. */
  ghost function Entries(t: Tree): seq<Entry>
    decreases t, 1
  {
    match t
    case Leaf(keys, rows) => Zip(keys, rows)
    case Inner(_, kids) => Flat(kids)
  }

  ghost function Flat(ts: seq<Tree>): seq<Entry>
    decreases ts, 0
  {
    if ts == [] then [] else Entries(ts[0]) + Flat(ts[1..])
  }

  /** The leaves, left to right. */
  ghost function Leaves(t: Tree): seq<Tree>
    decreases t, 1
  {
    match t
    case Leaf(_, _) => [t]
    case Inner(_, kids) => FlatLeaves(kids)
  }

  ghost function FlatLeaves(ts: seq<Tree>): seq<Tree>
    decreases ts, 0
  {
    if ts == [] then [] else Leaves(ts[0]) + FlatLeaves(ts[1..])
  }

  ghost predicate SortedEntries(es: seq<Entry>, lo: int, hi: int) {
    && (forall i :: 0 <= i < |es| ==> lo <= es[i].key < hi)
    && (forall i, j :: 0 <= i < j < |es| ==> es[i].key < es[j].key)
  }

  // ---------- Search ----------

  /** The child to descend into: the first separator greater than the key, or the last child. */
  function ChildIndex(keys: seq<int>, key: int): (i: nat)
    ensures i <= |keys|
    ensures forall j :: 0 <= j < i ==> keys[j] <= key
    ensures i < |keys| ==> key < keys[i]
  {
    if keys == [] || key < keys[0] then 0 else 1 + ChildIndex(keys[1..], key)
  }

  /** Where a leaf keeps the key, or would put it: the first key not smaller. */
  function LeafIndex(keys: seq<int>, key: int): (i: nat)
    ensures i <= |keys|
    ensures forall j :: 0 <= j < i ==> keys[j] < key
    ensures i < |keys| ==> key <= keys[i]
  {
    if keys == [] || key <= keys[0] then 0 else 1 + LeafIndex(keys[1..], key)
  }

  /** The reference search: the first stored pair with this key, looking at every pair. */
  ghost function LinearFind(es: seq<Entry>, key: int): Option<int> {
    if es == [] then None
    else if es[0].key == key then Some(es[0].row)
    else LinearFind(es[1..], key)
  }

  /** The search along the separators, in the one leaf they lead to. */
  ghost function Find(t: Tree, key: int): Option<int>
    requires Shaped(t)
  {
    match t
    case Leaf(keys, rows) =>
      var i := LeafIndex(keys, key);
      if i < |keys| && keys[i] == key then Some(rows[i]) else None
    case Inner(keys, kids) => Find(kids[ChildIndex(keys, key)], key)
  }

  // ---------- Insertion ----------

  function InsertAt<T>(s: seq<T>, i: nat, x: T): (r: seq<T>)
    requires i <= |s|
    ensures |r| == |s| + 1
  {
    s[..i] + [x] + s[i..]
  }

  /** The node with these keys and rows, cut in two when it has one key too many. */
  function MakeLeaf(keys: seq<int>, rows: seq<int>): Result
    requires |rows| == |keys|
  {
    if |keys| <= MAX_KEYS then Whole(Leaf(keys, rows))
    else
      var mid := |keys| / 2;
      Split(Leaf(keys[..mid], rows[..mid]), keys[mid], Leaf(keys[mid..], rows[mid..]))
  }

  /** The same for an internal node: the middle key moves up. */
  function MakeInner(keys: seq<int>, kids: seq<Tree>): Result
    requires |kids| == |keys| + 1
  {
    if |keys| <= MAX_KEYS then Whole(Inner(keys, kids))
    else
      var mid := |keys| / 2;
      Split(Inner(keys[..mid], kids[..mid + 1]), keys[mid], Inner(keys[mid + 1..], kids[mid + 1..]))
  }

  /** What a node becomes when its child `i` became `r`. */
  function Absorb(keys: seq<int>, kids: seq<Tree>, i: nat, r: Result): Result
    requires i <= |keys| && |kids| == |keys| + 1
  {
    match r
    case Whole(c) => Whole(Inner(keys, kids[i := c]))
    case Split(l, sep, c) => MakeInner(InsertAt(keys, i, sep), InsertAt(kids[i := l], i + 1, c))
  }

  /** Insertion below `t`, described from the root down. */
  ghost function Ins(t: Tree, key: int, row: int): Result
    requires Shaped(t)
  {
    match t
    case Leaf(keys, rows) =>
      var i := LeafIndex(keys, key);
      MakeLeaf(InsertAt(keys, i, key), InsertAt(rows, i, row))
    case Inner(keys, kids) =>
      var i := ChildIndex(keys, key);
      Absorb(keys, kids, i, Ins(kids[i], key, row))
  }

  /** Only a split root makes the tree one level higher. */
  function Grow(r: Result): Tree {
    match r
    case Whole(t) => t
    case Split(l, sep, c) => Inner([sep], [l, c])
  }

  ghost function Insert(t: Tree, key: int, row: int): Tree
    requires Shaped(t)
  {
    Grow(Ins(t, key, row))
  }
}
