/** How full the nodes of a B+ tree are: after any insertions, after ascending ones, and what that says
    about the number of keys and leaves. Also which leaf an insertion changes. */
module BPTreeFill {
  import opened BPTreeModel
  import opened BPTreeOrder

  const HALF := 16

  // ---------- Occupancy ----------

  /** Below the root: leaves hold 16 to 31 keys, internal nodes have 16 to 32 children. */
  ghost predicate Filled(t: Tree) {
    match t
    case Leaf(keys, rows) => HALF <= |keys| <= 31
    case Inner(keys, kids) => HALF <= |kids| <= 32 && forall i :: 0 <= i < |kids| ==> Filled(kids[i])
  }

  /** The root may be less full, but has a key. */
  ghost predicate FilledRoot(t: Tree) {
    match t
    case Leaf(keys, rows) => 1 <= |keys| <= 31
    case Inner(keys, kids) => 2 <= |kids| <= 32 && forall i :: 0 <= i < |kids| ==> Filled(kids[i])
  }

  ghost predicate FilledResult(r: Result) {
    match r
    case Whole(t) => Filled(t)
    case Split(l, _, c) => Filled(l) && Filled(c)
  }

  lemma {:induction false} AbsorbFilled(keys: seq<int>, kids: seq<Tree>, i: nat, r: Result)
    requires |kids| == |keys| + 1 <= 32 && i <= |keys| && FilledResult(r)
    requires forall j :: 0 <= j < |kids| ==> Filled(kids[j])
    ensures match Absorb(keys, kids, i, r)
      case Whole(t) =>
        t.Inner? && |kids| <= |t.kids| <= 32 && forall j :: 0 <= j < |t.kids| ==> Filled(t.kids[j])
      case Split(l, _, c) => Filled(l) && Filled(c)
  {
    if r.Split? {
      InsertAtElements(kids[i := r.left], i + 1, r.right);
    }
  }

  lemma {:induction false} InsertAtElements<T>(s: seq<T>, i: nat, x: T)
    requires i <= |s|
    ensures forall j :: 0 <= j < |s| + 1 ==>
      InsertAt(s, i, x)[j] == if j < i then s[j] else if j == i then x else s[j - 1]
  {
    var r := InsertAt(s, i, x);
    forall j | 0 <= j < |r| ensures r[j] == if j < i then s[j] else if j == i then x else s[j - 1] {
    }
  }

  lemma {:induction false} InsFilled(t: Tree, key: int, row: int)
    requires Shaped(t) && Filled(t)
    ensures FilledResult(Ins(t, key, row))
  {
    if t.Inner? {
      var i := ChildIndex(t.keys, key);
      InsFilled(t.kids[i], key, row);
      AbsorbFilled(t.keys, t.kids, i, Ins(t.kids[i], key, row));
    }
  }

  /** Every insertion keeps every node as full as the rules say. */
  lemma {:induction false} InsertFilled(t: Tree, key: int, row: int)
    requires Shaped(t) && FilledRoot(t)
    ensures FilledRoot(Insert(t, key, row))
  {
    if t.Inner? {
      var i := ChildIndex(t.keys, key);
      InsFilled(t.kids[i], key, row);
      AbsorbFilled(t.keys, t.kids, i, Ins(t.kids[i], key, row));
    }
  }

  function Power(b: nat, e: nat): (p: nat)
    ensures b > 0 ==> p > 0
  {
    if e == 0 then 1 else b * Power(b, e - 1)
  }

  lemma {:induction false} FlatLength(ts: seq<Tree>, c: nat)
    requires forall i :: 0 <= i < |ts| ==> |Entries(ts[i])| >= c
    ensures |Flat(ts)| >= |ts| * c
  {
    if ts == [] {
      assert |ts| * c == 0;
    } else {
      var n := |ts| - 1;
      FlatLength(ts[1..], c);
      assert (n + 1) * c == n * c + c;
      assert |Flat(ts)| == |Entries(ts[0])| + |Flat(ts[1..])|;
    }
  }

  lemma {:induction false} KidsLength(kids: seq<Tree>, atLeast: nat, c: nat)
    requires |kids| >= atLeast && forall i :: 0 <= i < |kids| ==> |Entries(kids[i])| >= c
    ensures |Flat(kids)| >= atLeast * c
  {
    FlatLength(kids, c);
    var more := |kids| - atLeast;
    assert |kids| * c == atLeast * c + more * c;
  }

  lemma {:induction false} FilledLength(t: Tree, h: nat)
    requires Filled(t) && Balanced(t, h)
    ensures |Entries(t)| >= Power(HALF, h + 1)
  {
    if t.Inner? {
      forall i | 0 <= i < |t.kids| ensures |Entries(t.kids[i])| >= Power(HALF, h) {
        FilledLength(t.kids[i], h - 1);
      }
      KidsLength(t.kids, HALF, Power(HALF, h));
    } else {
      assert Power(HALF, 1) == HALF * Power(HALF, 0);
    }
  }

  /** A tree whose leaves are `h` links below the root holds at least 2 * 16^h keys. */
  lemma {:induction false} SizeAtLeast(t: Tree, h: nat)
    requires FilledRoot(t) && Balanced(t, h) && h > 0
    ensures |Entries(t)| >= 2 * Power(HALF, h)
  {
    forall i | 0 <= i < |t.kids| ensures |Entries(t.kids[i])| >= Power(HALF, h) {
      FilledLength(t.kids[i], h - 1);
    }
    KidsLength(t.kids, 2, Power(HALF, h));
  }

  // ---------- The leaves ----------

  lemma {:induction false} FlatLeavesConcat(a: seq<Tree>, b: seq<Tree>)
    ensures FlatLeaves(a + b) == FlatLeaves(a) + FlatLeaves(b)
  {
    hide Leaves;
    if a == [] {
      assert a + b == b;
    } else {
      FlatLeavesConcat(a[1..], b);
      assert (a + b)[1..] == a[1..] + b;
      var first, rest := Leaves(a[0]), FlatLeaves(a[1..]);
      assert first + (rest + FlatLeaves(b)) == first + rest + FlatLeaves(b);
    }
  }

  lemma {:induction false} FlatLeavesAround(kids: seq<Tree>, i: nat)
    requires i < |kids|
    ensures FlatLeaves(kids) == FlatLeaves(kids[..i]) + Leaves(kids[i]) + FlatLeaves(kids[i + 1..])
  {
    assert kids == kids[..i] + ([kids[i]] + kids[i + 1..]);
    FlatLeavesConcat(kids[..i], [kids[i]] + kids[i + 1..]);
    assert ([kids[i]] + kids[i + 1..])[1..] == kids[i + 1..];
  }

  lemma {:induction false} FlatLeavesOne(t: Tree)
    ensures FlatLeaves([t]) == Leaves(t)
  {
    assert FlatLeaves([t][1..]) == [];
  }

  /** Leaf after leaf, the leaves hold what the tree holds. */
  lemma {:induction false} LeavesEntries(t: Tree)
    requires Shaped(t)
    ensures Flat(Leaves(t)) == Entries(t)
    ensures forall i :: 0 <= i < |Leaves(t)| ==> Leaves(t)[i].Leaf? && Shaped(Leaves(t)[i])
    decreases t, 1
  {
    if t.Leaf? {
      FlatOne(t);
    } else {
      FlatLeavesEntries(t.kids);
    }
  }

  lemma {:induction false} FlatLeavesEntries(ts: seq<Tree>)
    requires forall i :: 0 <= i < |ts| ==> Shaped(ts[i])
    ensures Flat(FlatLeaves(ts)) == Flat(ts)
    ensures forall i :: 0 <= i < |FlatLeaves(ts)| ==> FlatLeaves(ts)[i].Leaf? && Shaped(FlatLeaves(ts)[i])
    decreases ts, 0
  {
    if ts != [] {
      LeavesEntries(ts[0]);
      FlatLeavesEntries(ts[1..]);
      FlatConcat(Leaves(ts[0]), FlatLeaves(ts[1..]));
    }
  }

  /** The position, among all leaves, of the one the separators lead to. */
  ghost function LeafSlot(t: Tree, key: int): nat
    requires Shaped(t)
  {
    match t
    case Leaf(_, _) => 0
    case Inner(keys, kids) =>
      var i := ChildIndex(keys, key);
      |FlatLeaves(kids[..i])| + LeafSlot(kids[i], key)
  }

  ghost function ResultLeaves(r: Result): seq<Tree> {
    match r
    case Whole(t) => Leaves(t)
    case Split(l, _, c) => Leaves(l) + Leaves(c)
  }

  lemma {:induction false} MakeInnerLeaves(keys: seq<int>, kids: seq<Tree>)
    requires |kids| == |keys| + 1
    ensures ResultLeaves(MakeInner(keys, kids)) == FlatLeaves(kids)
  {
    var m := |keys| / 2 + 1;
    FlatLeavesConcat(kids[..m], kids[m..]);
    assert kids == kids[..m] + kids[m..];
  }

  lemma {:induction false} SplitLeavesAround(kids: seq<Tree>, i: nat, l: Tree, c: Tree)
    requires i < |kids|
    ensures FlatLeaves(InsertAt(kids[i := l], i + 1, c))
         == FlatLeaves(kids[..i]) + (Leaves(l) + Leaves(c)) + FlatLeaves(kids[i + 1..])
  {
    hide Leaves, FlatLeaves;
    var ks := InsertAt(kids[i := l], i + 1, c);
    assert ks == kids[..i] + ([l, c] + kids[i + 1..]);
    FlatLeavesConcat(kids[..i], [l, c] + kids[i + 1..]);
    FlatLeavesConcat([l, c], kids[i + 1..]);
    FlatLeavesConcat([l], [c]);
    FlatLeavesOne(l);
    FlatLeavesOne(c);
    assert [l, c] == [l] + [c];
  }

  lemma {:induction false} AbsorbLeaves(keys: seq<int>, kids: seq<Tree>, i: nat, r: Result)
    requires i <= |keys| && |kids| == |keys| + 1
    ensures ResultLeaves(Absorb(keys, kids, i, r)) ==
      FlatLeaves(kids[..i]) + ResultLeaves(r) + FlatLeaves(kids[i + 1..])
  {
    match r
    case Whole(c) =>
      FlatLeavesAround(kids[i := c], i);
      assert kids[i := c][..i] == kids[..i] && kids[i := c][i + 1..] == kids[i + 1..];
    case Split(l, sep, c) =>
      SplitLeavesAround(kids, i, l, c);
      MakeInnerLeaves(InsertAt(keys, i, sep), InsertAt(kids[i := l], i + 1, c));
  }

  /** Insertion replaces exactly one leaf, by itself with the new pair or by its two halves. */
  lemma {:induction false} InsLeaves(t: Tree, key: int, row: int)
    requires Shaped(t)
    ensures var ls, s := Leaves(t), LeafSlot(t, key);
      && s < |ls| && ls[s].Leaf? && Shaped(ls[s])
      && ResultLeaves(Ins(t, key, row)) == ls[..s] + ResultLeaves(Ins(ls[s], key, row)) + ls[s + 1..]
  {
    match t
    case Leaf(_, _) =>
      assert Leaves(t) == [t];
      assert ResultLeaves(Ins(t, key, row)) == [] + ResultLeaves(Ins(t, key, row)) + [];
    case Inner(keys, kids) =>
      InsLeaves(kids[ChildIndex(keys, key)], key, row);
      InsLeavesBelow(t, key, row);
  }

  lemma {:induction false} InsLeavesBelow(t: Tree, key: int, row: int)
    requires Shaped(t) && t.Inner?
    requires var k := t.kids[ChildIndex(t.keys, key)];
      var ls, s := Leaves(k), LeafSlot(k, key);
      && s < |ls| && ls[s].Leaf? && Shaped(ls[s])
      && ResultLeaves(Ins(k, key, row)) == ls[..s] + ResultLeaves(Ins(ls[s], key, row)) + ls[s + 1..]
    ensures var ls, s := Leaves(t), LeafSlot(t, key);
      && s < |ls| && ls[s].Leaf? && Shaped(ls[s])
      && ResultLeaves(Ins(t, key, row)) == ls[..s] + ResultLeaves(Ins(ls[s], key, row)) + ls[s + 1..]
  {
    hide MakeLeaf, MakeInner, Absorb, FlatLeaves;
    var keys, kids := t.keys, t.kids;
    var i := ChildIndex(keys, key);
    FlatLeavesAround(kids, i);
    AbsorbLeaves(keys, kids, i, Ins(kids[i], key, row));
    var s := LeafSlot(kids[i], key);
    var r := ResultLeaves(Ins(Leaves(kids[i])[s], key, row));
    SpliceInside(FlatLeaves(kids[..i]), Leaves(kids[i]), FlatLeaves(kids[i + 1..]), s, r);
  }

  lemma {:induction false} SpliceInside<T>(a: seq<T>, b: seq<T>, c: seq<T>, s: nat, r: seq<T>)
    requires s < |b|
    ensures var w := a + b + c;
      w[|a| + s] == b[s] && a + (b[..s] + r + b[s + 1..]) + c == w[..|a| + s] + r + w[|a| + s + 1..]
  {
    var w := a + b + c;
    assert w[..|a| + s] == a + b[..s];
    assert w[|a| + s + 1..] == b[s + 1..] + c;
  }

  lemma {:induction false} InsertLeaves(t: Tree, key: int, row: int)
    requires Shaped(t)
    ensures var ls, s := Leaves(t), LeafSlot(t, key);
      && s < |ls| && ls[s].Leaf? && Shaped(ls[s])
      && Leaves(Insert(t, key, row)) == ls[..s] + ResultLeaves(Ins(ls[s], key, row)) + ls[s + 1..]
  {
    InsLeaves(t, key, row);
    match Ins(t, key, row)
    case Whole(_) =>
    case Split(l, _, c) =>
      FlatLeavesConcat([l], [c]);
      FlatLeavesOne(l);
      FlatLeavesOne(c);
      assert [l, c] == [l] + [c];
  }

  // ---------- Ascending insertion ----------

  /** Exactly half full all the way down. */
  ghost predicate HalfFull(t: Tree) {
    match t
    case Leaf(keys, rows) => |keys| == HALF
    case Inner(keys, kids) => |keys| == HALF && forall i :: 0 <= i < |kids| ==> HalfFull(kids[i])
  }

  /** Everything off the right spine is exactly half full. */
  ghost predicate Packed(t: Tree) {
    match t
    case Leaf(_, _) => true
    case Inner(keys, kids) =>
      && |kids| > 0
      && (forall i :: 0 <= i < |kids| - 1 ==> HalfFull(kids[i]))
      && Packed(kids[|kids| - 1])
  }

  ghost predicate PackedResult(r: Result) {
    match r
    case Whole(t) => Packed(t)
    case Split(l, _, c) => HalfFull(l) && Packed(c)
  }

  lemma {:induction false} LargestGoesRight(t: Tree, key: int, lo: int, hi: int)
    requires t.Inner? && Ordered(t, lo, hi) && FilledKids(t.kids) && AllBelow(Entries(t), key)
    ensures ChildIndex(t.keys, key) == |t.keys| && AllBelow(Entries(t.kids[|t.keys|]), key)
  {
    var n := |t.keys|;
    FlatAround(t.kids, n);
    EntriesSorted(t.kids[n], Low(t.keys, n, lo), High(t.keys, n, hi));
    var a, b, c := Flat(t.kids[..n]), Entries(t.kids[n]), Flat(t.kids[n + 1..]);
    assert forall i :: 0 <= i < |b| ==> (a + b + c)[|a| + i] == b[i];
    NonEmpty(t.kids[n]);
    assert Low(t.keys, n, lo) <= b[0].key < key;
  }

  ghost predicate FilledKids(kids: seq<Tree>) {
    forall i :: 0 <= i < |kids| ==> Filled(kids[i]) && Shaped(kids[i])
  }

  lemma {:induction false} NonEmpty(t: Tree)
    requires Filled(t) && Shaped(t)
    ensures Entries(t) != []
  {
    if t.Inner? {
      NonEmpty(t.kids[0]);
    }
  }

  lemma {:induction false} AbsorbPacked(keys: seq<int>, kids: seq<Tree>, r: Result)
    requires |kids| == |keys| + 1 <= 32 && PackedResult(r)
    requires forall i :: 0 <= i < |kids| - 1 ==> HalfFull(kids[i])
    ensures PackedResult(Absorb(keys, kids, |keys|, r))
  {
  }

  /** Inserting a largest key keeps everything off the right spine exactly half full. */
  lemma {:induction false} InsPacked(t: Tree, key: int, row: int, lo: int, hi: int)
    requires Ordered(t, lo, hi) && Shaped(t) && AllBelow(Entries(t), key) && Packed(t)
    requires Filled(t) || FilledRoot(t)
    ensures PackedResult(Ins(t, key, row))
  {
    match t
    case Leaf(keys, rows) =>
      var i := LeafIndex(keys, key);
      assert forall j :: 0 <= j < |keys| ==> Zip(keys, rows)[j].key < key;
      assert i == |keys|;
    case Inner(keys, kids) =>
      var n := |keys|;
      LargestGoesRight(t, key, lo, hi);
      InsPacked(kids[n], key, row, Low(keys, n, lo), High(keys, n, hi));
      AbsorbPacked(keys, kids, Ins(kids[n], key, row));
  }

  lemma {:induction false} HalfFullLeaves(t: Tree)
    requires HalfFull(t) && Shaped(t)
    ensures forall i :: 0 <= i < |Leaves(t)| ==> Leaves(t)[i].Leaf? && |Leaves(t)[i].keys| == HALF
    decreases t, 1
  {
    if t.Inner? {
      HalfFullFlatLeaves(t.kids);
    }
  }

  lemma {:induction false} HalfFullFlatLeaves(ts: seq<Tree>)
    requires forall i :: 0 <= i < |ts| ==> HalfFull(ts[i]) && Shaped(ts[i])
    ensures forall i :: 0 <= i < |FlatLeaves(ts)| ==> FlatLeaves(ts)[i].Leaf? && |FlatLeaves(ts)[i].keys| == HALF
    decreases ts, 0
  {
    if ts != [] {
      HalfFullLeaves(ts[0]);
      HalfFullFlatLeaves(ts[1..]);
    }
  }

  /** In a packed tree every leaf but the last holds exactly 16 keys. */
  lemma {:induction false} PackedLeaves(t: Tree)
    requires Packed(t) && Shaped(t)
    ensures Leaves(t) != [] && Leaves(t)[|Leaves(t)| - 1].Leaf?
    ensures forall i :: 0 <= i < |Leaves(t)| - 1 ==> Leaves(t)[i].Leaf? && |Leaves(t)[i].keys| == HALF
  {
    if t.Inner? {
      var n := |t.kids| - 1;
      HalfFullFlatLeaves(t.kids[..n]);
      PackedLeaves(t.kids[n]);
      FlatLeavesConcat(t.kids[..n], [t.kids[n]]);
      FlatLeavesOne(t.kids[n]);
      assert t.kids == t.kids[..n] + [t.kids[n]];
    }
  }

  lemma {:induction false} FilledLeaves(t: Tree)
    requires Filled(t) && Shaped(t)
    ensures forall i :: 0 <= i < |Leaves(t)| ==> Leaves(t)[i].Leaf? && HALF <= |Leaves(t)[i].keys| <= 31
    decreases t, 1
  {
    if t.Inner? {
      FilledFlatLeaves(t.kids);
    }
  }

  lemma {:induction false} FilledFlatLeaves(ts: seq<Tree>)
    requires forall i :: 0 <= i < |ts| ==> Filled(ts[i]) && Shaped(ts[i])
    ensures forall i :: 0 <= i < |FlatLeaves(ts)| ==>
      FlatLeaves(ts)[i].Leaf? && HALF <= |FlatLeaves(ts)[i].keys| <= 31
    decreases ts, 0
  {
    if ts != [] {
      FilledLeaves(ts[0]);
      FilledFlatLeaves(ts[1..]);
    }
  }

  lemma {:induction false} RootLeavesFilled(t: Tree)
    requires FilledRoot(t) && Shaped(t)
    ensures Leaves(t) != []
    ensures forall i :: 0 <= i < |Leaves(t)| ==>
      Leaves(t)[i].Leaf? && 1 <= |Leaves(t)[i].keys| <= 31 && (|Leaves(t)| > 1 ==> |Leaves(t)[i].keys| >= HALF)
  {
    if t.Inner? {
      FilledFlatLeaves(t.kids);
      InsLeaves(t, 0, 0);
    }
  }

  lemma {:induction false} EqualLengths(ls: seq<Tree>, c: nat)
    requires forall i :: 0 <= i < |ls| ==> ls[i].Leaf? && Shaped(ls[i]) && |ls[i].keys| == c
    ensures |Flat(ls)| == |ls| * c
  {
    if ls != [] {
      EqualLengths(ls[1..], c);
    }
  }

  lemma {:induction false} LeafCount(n: nat, k: nat, last: nat)
    requires n == k * HALF + last && 1 <= last < 2 * HALF && (k > 0 ==> last >= HALF)
    ensures k + 1 == if n < HALF then 1 else n / HALF
  {
  }

  lemma {:induction false} LastLeaf(t: Tree)
    requires t.Leaf? && Shaped(t)
    ensures |Entries(t)| == |t.keys|
  {
  }

  lemma {:induction false} PackedCount(t: Tree)
    requires Packed(t) && Shaped(t) && FilledRoot(t)
    ensures |Entries(t)| >= 1
    ensures |Leaves(t)| == if |Entries(t)| < HALF then 1 else |Entries(t)| / HALF
  {
    var ls := Leaves(t);
    PackedLeaves(t);
    RootLeavesFilled(t);
    LeavesEntries(t);
    var k := |ls| - 1;
    hide Packed, Shaped, FilledRoot, Entries, Leaves;
    EqualLengths(ls[..k], HALF);
    FlatConcat(ls[..k], [ls[k]]);
    FlatOne(ls[k]);
    assert ls == ls[..k] + [ls[k]];
    LastLeaf(ls[k]);
    hide Flat;
    LeafCount(|Entries(t)|, k, |ls[k].keys|);
  }

  /** The tree after inserting the pairs one after the other. */
  ghost function Build(es: seq<Entry>): (t: Tree)
    requires es != [] && SortedEntries(es, KEY_MIN, KEY_SUP)
    ensures Ordered(t, KEY_MIN, KEY_SUP) && Shaped(t) && Entries(t) == es
  {
    var n := |es| - 1;
    if n == 0 then Leaf([es[0].key], [es[0].row])
    else
      var t := Build(es[..n]);
      LargestAppends(es);
      InsEntries(t, es[n].key, es[n].row, KEY_MIN, KEY_SUP);
      InsertOrdered(t, es[n].key, es[n].row);
      Insert(t, es[n].key, es[n].row)
  }

  lemma {:induction false} LargestAppends(es: seq<Entry>)
    requires es != [] && SortedEntries(es, KEY_MIN, KEY_SUP)
    ensures var n := |es| - 1;
      LinearFind(es[..n], es[n].key).None? && InsertSorted(es[..n], es[n]) == es
  {
    var n := |es| - 1;
    LinearFindMeaning(es[..n], es[n].key);
    InsertSortedAt(es[..n], [], es[n]);
    assert es[..n] + [] == es[..n];
    assert es == es[..n] + [es[n]];
  }

  lemma {:induction false} InsertOrdered(t: Tree, key: int, row: int)
    requires Ordered(t, KEY_MIN, KEY_SUP) && KEY_MIN <= key < KEY_SUP && LinearFind(Entries(t), key).None?
    ensures Shaped(t) && Ordered(Insert(t, key, row), KEY_MIN, KEY_SUP) && Shaped(Insert(t, key, row))
    ensures Entries(Insert(t, key, row)) == InsertSorted(Entries(t), Entry(key, row))
  {
    InsEntries(t, key, row, KEY_MIN, KEY_SUP);
    InsOrdered(t, key, row, KEY_MIN, KEY_SUP);
    GrowEntries(Ins(t, key, row));
    OrderedShaped(Insert(t, key, row), KEY_MIN, KEY_SUP);
  }

  lemma {:induction false} GrowEntries(r: Result)
    ensures Entries(Grow(r)) == ResultEntries(r)
  {
    match r
    case Whole(_) =>
    case Split(l, _, c) =>
      FlatConcat([l], [c]);
      FlatOne(l);
      FlatOne(c);
      assert [l, c] == [l] + [c];
  }

  /** A largest key keeps everything off the right spine exactly half full, also when the root is split. */
  lemma {:induction false} InsertPacked(t: Tree, key: int, row: int)
    requires Ordered(t, KEY_MIN, KEY_SUP) && Shaped(t) && AllBelow(Entries(t), key) && Packed(t) && FilledRoot(t)
    ensures Packed(Insert(t, key, row)) && FilledRoot(Insert(t, key, row))
  {
    {
      hide Ordered, Shaped, AllBelow, Packed, FilledRoot, Filled, PackedResult;
      InsPacked(t, key, row, KEY_MIN, KEY_SUP);
      InsertFilled(t, key, row);
    }
    hide Ordered, Shaped, AllBelow, FilledRoot, Entries, Ins;
  }

  /** One more step of the building. */
  lemma {:induction false} BuildStep(es: seq<Entry>)
    requires |es| > 1 && SortedEntries(es, KEY_MIN, KEY_SUP)
    ensures var n := |es| - 1;
      && SortedEntries(es[..n], KEY_MIN, KEY_SUP) && AllBelow(Entries(Build(es[..n])), es[n].key)
      && Build(es) == Insert(Build(es[..n]), es[n].key, es[n].row)
  {
    hide Ordered, Shaped, Entries, Insert;
  }

  lemma {:induction false} BuildPacked(es: seq<Entry>)
    requires es != [] && SortedEntries(es, KEY_MIN, KEY_SUP)
    ensures Packed(Build(es)) && FilledRoot(Build(es))
  {
    if |es| > 1 {
      hide Build, Packed, FilledRoot, Shaped, Ordered, Entries, SortedEntries, AllBelow, Insert;
      BuildStep(es);
      BuildPacked(es[..|es| - 1]);
      InsertPacked(Build(es[..|es| - 1]), es[|es| - 1].key, es[|es| - 1].row);
    }
  }

  /** n keys inserted in ascending order fill max(1, n / 16) leaves: all but the last hold exactly 16 keys,
      and so do the internal nodes off the right spine. */
  lemma {:induction false} AscendingFill(es: seq<Entry>)
    requires es != [] && SortedEntries(es, KEY_MIN, KEY_SUP)
    ensures Packed(Build(es)) && FilledRoot(Build(es))
    ensures var ls := Leaves(Build(es));
      && |ls| == (if |es| < HALF then 1 else |es| / HALF)
      && forall i :: 0 <= i < |ls| - 1 ==> ls[i].Leaf? && |ls[i].keys| == HALF
  {
    hide Build, Packed, FilledRoot, Shaped, Ordered, Leaves, Entries, SortedEntries;
    BuildPacked(es);
    PackedCount(Build(es));
    PackedLeaves(Build(es));
  }
}
