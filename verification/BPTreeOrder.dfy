/** What insertion and search mean: the separators never miss a stored key, insertion adds exactly one
    entry at its place in the sorted order, and the order and the equal leaf depth are kept. */
module BPTreeOrder {
  import opened Options
  import opened BPTreeModel

  // ---------- Entries of a sequence of subtrees ----------

  lemma {:induction false} FlatConcat(a: seq<Tree>, b: seq<Tree>)
    ensures Flat(a + b) == Flat(a) + Flat(b)
  {
    hide Entries;
    if a == [] {
      assert a + b == b;
    } else {
      FlatConcat(a[1..], b);
      assert (a + b)[1..] == a[1..] + b;
      var first, rest := Entries(a[0]), Flat(a[1..]);
      assert first + (rest + Flat(b)) == first + rest + Flat(b);
    }
  }

  lemma {:induction false} FlatOne(t: Tree)
    ensures Flat([t]) == Entries(t)
  {
    assert Flat([t][1..]) == [];
  }

  lemma {:induction false} FlatAround(kids: seq<Tree>, i: nat)
    requires i < |kids|
    ensures Flat(kids) == Flat(kids[..i]) + Entries(kids[i]) + Flat(kids[i + 1..])
  {
    assert kids == kids[..i] + ([kids[i]] + kids[i + 1..]);
    FlatConcat(kids[..i], [kids[i]] + kids[i + 1..]);
    FlatConcat([kids[i]], kids[i + 1..]);
    FlatOne(kids[i]);
  }

  // ---------- Order ----------

  lemma {:induction false} OrderedShaped(t: Tree, lo: int, hi: int)
    requires Ordered(t, lo, hi)
    ensures Shaped(t)
  {
    if t.Inner? {
      forall i | 0 <= i < |t.kids| ensures Shaped(t.kids[i]) {
        OrderedShaped(t.kids[i], Low(t.keys, i, lo), High(t.keys, i, hi));
      }
    }
  }

  lemma {:induction false} BalancedShaped(t: Tree, h: nat)
    requires Balanced(t, h)
    ensures Shaped(t)
  {
    if t.Inner? {
      forall i | 0 <= i < |t.kids| ensures Shaped(t.kids[i]) {
        BalancedShaped(t.kids[i], h - 1);
      }
    }
  }

  /** The stored pairs of an ordered tree are strictly ascending, within its bounds. */
  lemma {:induction false} EntriesSorted(t: Tree, lo: int, hi: int)
    requires Ordered(t, lo, hi)
    ensures SortedEntries(Entries(t), lo, hi)
    decreases t, |if t.Inner? then t.kids else []| + 1
  {
    if t.Inner? {
      PrefixSorted(t, |t.kids|, lo, hi);
      assert t.kids[..|t.kids|] == t.kids;
    }
  }

  lemma {:induction false} PrefixSorted(t: Tree, n: nat, lo: int, hi: int)
    requires t.Inner? && Ordered(t, lo, hi) && n <= |t.kids|
    ensures SortedEntries(Flat(t.kids[..n]), lo, if n == 0 then lo else High(t.keys, n - 1, hi))
    decreases t, n
  {
    if n > 0 {
      PrefixSorted(t, n - 1, lo, hi);
      EntriesSorted(t.kids[n - 1], Low(t.keys, n - 1, lo), High(t.keys, n - 1, hi));
      assert t.kids[..n] == t.kids[..n - 1] + [t.kids[n - 1]];
      FlatConcat(t.kids[..n - 1], [t.kids[n - 1]]);
      FlatOne(t.kids[n - 1]);
    }
  }

  lemma {:induction false} SuffixSorted(t: Tree, n: nat, lo: int, hi: int)
    requires t.Inner? && Ordered(t, lo, hi) && n <= |t.kids|
    ensures SortedEntries(Flat(t.kids[n..]), if n == |t.kids| then hi else Low(t.keys, n, lo), hi)
    decreases |t.kids| - n
  {
    if n < |t.kids| {
      SuffixSorted(t, n + 1, lo, hi);
      EntriesSorted(t.kids[n], Low(t.keys, n, lo), High(t.keys, n, hi));
      assert t.kids[n..][1..] == t.kids[n + 1..];
    }
  }

  // ---------- Search ----------

  lemma {:induction false} LinearFindSkip(a: seq<Entry>, b: seq<Entry>, key: int)
    requires forall i :: 0 <= i < |a| ==> a[i].key != key
    ensures LinearFind(a + b, key) == LinearFind(b, key)
  {
    if a == [] {
      assert a + b == b;
    } else {
      LinearFindSkip(a[1..], b, key);
      assert (a + b)[1..] == a[1..] + b;
    }
  }

  lemma {:induction false} LinearFindStop(a: seq<Entry>, b: seq<Entry>, key: int)
    requires forall i :: 0 <= i < |b| ==> b[i].key != key
    ensures LinearFind(a + b, key) == LinearFind(a, key)
  {
    if a == [] {
      LinearFindSkip(b, [], key);
      assert a + b == b == b + [];
    } else {
      LinearFindStop(a[1..], b, key);
      assert (a + b)[1..] == a[1..] + b;
    }
  }

  /** Linear search finds the row stored with the key, and only that. */
  lemma {:induction false} LinearFindMeaning(es: seq<Entry>, key: int)
    ensures LinearFind(es, key).None? <==> forall i :: 0 <= i < |es| ==> es[i].key != key
    ensures LinearFind(es, key).Some? ==> Entry(key, LinearFind(es, key).value) in es
  {
    if es != [] {
      LinearFindMeaning(es[1..], key);
      assert es == [es[0]] + es[1..];
    }
  }

  ghost predicate AllBelow(es: seq<Entry>, key: int) {
    forall i :: 0 <= i < |es| ==> es[i].key < key
  }

  ghost predicate AllAbove(es: seq<Entry>, key: int) {
    forall i :: 0 <= i < |es| ==> key < es[i].key
  }

  /** Only the child the separators point to can hold the key: what stands before is smaller,
      what stands after is larger. */
  lemma {:induction false} DescentIsolates(t: Tree, key: int, lo: int, hi: int)
    requires t.Inner? && Ordered(t, lo, hi)
    ensures var i := ChildIndex(t.keys, key);
      && Entries(t) == Flat(t.kids[..i]) + Entries(t.kids[i]) + Flat(t.kids[i + 1..])
      && AllBelow(Flat(t.kids[..i]), key)
      && AllAbove(Flat(t.kids[i + 1..]), key)
      && LinearFind(Entries(t), key) == LinearFind(Entries(t.kids[i]), key)
  {
    var i := ChildIndex(t.keys, key);
    FlatAround(t.kids, i);
    PrefixSorted(t, i, lo, hi);
    SuffixSorted(t, i + 1, lo, hi);
    LinearFindStop(Flat(t.kids[..i]) + Entries(t.kids[i]), Flat(t.kids[i + 1..]), key);
    LinearFindSkip(Flat(t.kids[..i]), Entries(t.kids[i]), key);
  }

  lemma {:induction false} LeafFind(keys: seq<int>, rows: seq<int>, key: int)
    requires |rows| == |keys| && Sorted(keys)
    ensures Find(Leaf(keys, rows), key) == LinearFind(Zip(keys, rows), key)
  {
    hide LinearFind;
    var es := Zip(keys, rows);
    LinearFindMeaning(es, key);
    if LinearFind(es, key).Some? {
      var j :| 0 <= j < |es| && es[j] == Entry(key, LinearFind(es, key).value);
      assert keys[j] == key && rows[j] == es[j].row;
      assert LeafIndex(keys, key) == j;
    } else {
      assert forall j :: 0 <= j < |keys| ==> es[j].key == keys[j];
    }
  }

  lemma {:induction false} FindIsLinearFind(t: Tree, key: int, lo: int, hi: int)
    requires Ordered(t, lo, hi)
    ensures Shaped(t) && Find(t, key) == LinearFind(Entries(t), key)
  {
    OrderedShaped(t, lo, hi);
    match t
    case Leaf(keys, rows) =>
      LeafFind(keys, rows, key);
    case Inner(keys, kids) =>
      var i := ChildIndex(keys, key);
      DescentIsolates(t, key, lo, hi);
      FindIsLinearFind(kids[i], key, Low(keys, i, lo), High(keys, i, hi));
  }

  // ---------- Insertion ----------

  /** The reference insertion: put the pair before the first larger key. */
  ghost function InsertSorted(es: seq<Entry>, e: Entry): seq<Entry> {
    if es == [] || e.key < es[0].key then [e] + es else [es[0]] + InsertSorted(es[1..], e)
  }

  ghost function ResultEntries(r: Result): seq<Entry> {
    match r
    case Whole(t) => Entries(t)
    case Split(l, _, c) => Entries(l) + Entries(c)
  }

  lemma {:induction false} InsertSortedAt(a: seq<Entry>, b: seq<Entry>, e: Entry)
    requires forall i :: 0 <= i < |a| ==> a[i].key <= e.key
    ensures InsertSorted(a + b, e) == a + InsertSorted(b, e)
  {
    if a == [] {
      assert a + b == b;
    } else {
      InsertSortedAt(a[1..], b, e);
      assert (a + b)[1..] == a[1..] + b;
    }
  }

  lemma {:induction false} InsertSortedBefore(a: seq<Entry>, b: seq<Entry>, e: Entry)
    requires forall i :: 0 <= i < |b| ==> e.key < b[i].key
    ensures InsertSorted(a + b, e) == InsertSorted(a, e) + b
  {
    if a == [] {
      assert a + b == b;
    } else {
      InsertSortedBefore(a[1..], b, e);
      assert (a + b)[1..] == a[1..] + b;
    }
  }

  /** Inserting an absent key adds that pair, and changes no other search. */
  lemma {:induction false} InsertSortedFind(es: seq<Entry>, e: Entry, key: int)
    requires LinearFind(es, e.key).None?
    ensures LinearFind(InsertSorted(es, e), key) == if key == e.key then Some(e.row) else LinearFind(es, key)
    ensures |InsertSorted(es, e)| == |es| + 1
  {
    if es == [] || e.key < es[0].key {
      assert ([e] + es)[1..] == es;
    } else {
      InsertSortedFind(es[1..], e, key);
      assert ([es[0]] + InsertSorted(es[1..], e))[1..] == InsertSorted(es[1..], e);
    }
  }

  lemma {:induction false} MakeLeafEntries(keys: seq<int>, rows: seq<int>)
    requires |rows| == |keys|
    ensures ResultEntries(MakeLeaf(keys, rows)) == Zip(keys, rows)
  {
  }

  lemma {:induction false} MakeInnerEntries(keys: seq<int>, kids: seq<Tree>)
    requires |kids| == |keys| + 1
    ensures ResultEntries(MakeInner(keys, kids)) == Flat(kids)
  {
    var m := |keys| / 2 + 1;
    FlatConcat(kids[..m], kids[m..]);
    assert kids == kids[..m] + kids[m..];
  }

  lemma {:induction false} SplitEntriesAround(kids: seq<Tree>, i: nat, l: Tree, c: Tree)
    requires i < |kids|
    ensures Flat(InsertAt(kids[i := l], i + 1, c)) == Flat(kids[..i]) + (Entries(l) + Entries(c)) + Flat(kids[i + 1..])
  {
    var ks := InsertAt(kids[i := l], i + 1, c);
    assert ks == kids[..i] + ([l, c] + kids[i + 1..]);
    FlatConcat(kids[..i], [l, c] + kids[i + 1..]);
    FlatConcat([l, c], kids[i + 1..]);
    FlatConcat([l], [c]);
    FlatOne(l);
    FlatOne(c);
    assert [l, c] == [l] + [c];
  }

  lemma {:induction false} AbsorbEntries(keys: seq<int>, kids: seq<Tree>, i: nat, r: Result)
    requires i <= |keys| && |kids| == |keys| + 1
    ensures ResultEntries(Absorb(keys, kids, i, r)) == Flat(kids[..i]) + ResultEntries(r) + Flat(kids[i + 1..])
  {
    match r
    case Whole(c) =>
      FlatAround(kids[i := c], i);
      assert kids[i := c][..i] == kids[..i] && kids[i := c][i + 1..] == kids[i + 1..];
    case Split(l, sep, c) =>
      SplitEntriesAround(kids, i, l, c);
      MakeInnerEntries(InsertAt(keys, i, sep), InsertAt(kids[i := l], i + 1, c));
  }

  lemma {:induction false} ZipInsertAt(keys: seq<int>, rows: seq<int>, i: nat, key: int, row: int)
    requires |rows| == |keys| && i <= |keys|
    ensures Zip(InsertAt(keys, i, key), InsertAt(rows, i, row)) == InsertAt(Zip(keys, rows), i, Entry(key, row))
  {
  }

  lemma {:induction false} LeafMissing(keys: seq<int>, rows: seq<int>, key: int)
    requires |rows| == |keys| && Sorted(keys) && LinearFind(Zip(keys, rows), key).None?
    ensures AllBelow(Zip(keys, rows)[..LeafIndex(keys, key)], key)
    ensures AllAbove(Zip(keys, rows)[LeafIndex(keys, key)..], key)
  {
    var i := LeafIndex(keys, key);
    LinearFindMeaning(Zip(keys, rows), key);
    if i < |keys| { assert Zip(keys, rows)[i].key != key; }
  }

  lemma {:induction false} InsertSortedIsInsertAt(es: seq<Entry>, i: nat, e: Entry)
    requires i <= |es| && AllBelow(es[..i], e.key) && AllAbove(es[i..], e.key)
    ensures InsertSorted(es, e) == InsertAt(es, i, e)
  {
    assert es == es[..i] + es[i..];
    InsertSortedAt(es[..i], es[i..], e);
    assert InsertSorted(es[i..], e) == [e] + es[i..];
    assert es[..i] + [e] + es[i..] == es[..i] + ([e] + es[i..]);
  }

  lemma {:induction false} LeafInsEntries(keys: seq<int>, rows: seq<int>, key: int, row: int)
    requires |rows| == |keys| && Sorted(keys) && LinearFind(Zip(keys, rows), key).None?
    ensures ResultEntries(Ins(Leaf(keys, rows), key, row)) == InsertSorted(Zip(keys, rows), Entry(key, row))
  {
    var i := LeafIndex(keys, key);
    LeafMissing(keys, rows, key);
    InsertSortedIsInsertAt(Zip(keys, rows), i, Entry(key, row));
    ZipInsertAt(keys, rows, i, key, row);
    MakeLeafEntries(InsertAt(keys, i, key), InsertAt(rows, i, row));
  }

  /** Inserting an absent key puts exactly its pair at its place among the stored pairs. */
  lemma {:induction false} InsEntries(t: Tree, key: int, row: int, lo: int, hi: int)
    requires Ordered(t, lo, hi)
    requires LinearFind(Entries(t), key).None?
    ensures Shaped(t) && ResultEntries(Ins(t, key, row)) == InsertSorted(Entries(t), Entry(key, row))
  {
    OrderedShaped(t, lo, hi);
    match t
    case Leaf(keys, rows) =>
      LeafInsEntries(keys, rows, key, row);
    case Inner(keys, kids) =>
      var i := ChildIndex(keys, key);
      var a, b, c := Flat(kids[..i]), Entries(kids[i]), Flat(kids[i + 1..]);
      DescentIsolates(t, key, lo, hi);
      InsEntries(kids[i], key, row, Low(keys, i, lo), High(keys, i, hi));
      AbsorbEntries(keys, kids, i, Ins(kids[i], key, row));
      InsertSortedBefore(a + b, c, Entry(key, row));
      InsertSortedAt(a, b, Entry(key, row));
  }

  ghost predicate OrderedResult(r: Result, lo: int, hi: int) {
    match r
    case Whole(t) => Ordered(t, lo, hi)
    case Split(l, sep, c) => lo < sep < hi && Ordered(l, lo, sep) && Ordered(c, sep, hi)
  }

  lemma {:induction false} MakeInnerOrdered(keys: seq<int>, kids: seq<Tree>, lo: int, hi: int)
    requires Ordered(Inner(keys, kids), lo, hi)
    ensures OrderedResult(MakeInner(keys, kids), lo, hi)
  {
    if |keys| > MAX_KEYS {
      var mid := |keys| / 2;
      SliceOrdered(keys, kids, 0, mid, lo, hi);
      SliceOrdered(keys, kids, mid + 1, |keys|, lo, hi);
      assert keys[..mid] == keys[0..mid] && kids[..mid + 1] == kids[0..mid + 1];
      assert keys[mid + 1..] == keys[mid + 1..|keys|] && kids[mid + 1..] == kids[mid + 1..|keys| + 1];
      hide Ordered;
    }
  }

  /** Children `a` to `b` with the separators between them are an ordered node of their own. */
  lemma {:induction false} SliceOrdered(keys: seq<int>, kids: seq<Tree>, a: nat, b: nat, lo: int, hi: int)
    requires Ordered(Inner(keys, kids), lo, hi) && a <= b <= |keys|
    ensures Ordered(Inner(keys[a..b], kids[a..b + 1]), Low(keys, a, lo), High(keys, b, hi))
  {
    var ks, cs, lo', hi' := keys[a..b], kids[a..b + 1], Low(keys, a, lo), High(keys, b, hi);
    forall i | 0 <= i < |cs| ensures Ordered(cs[i], Low(ks, i, lo'), High(ks, i, hi')) {
      assert Ordered(kids[a + i], Low(keys, a + i, lo), High(keys, a + i, hi));
    }
  }

  lemma {:induction false} InsertAtSorted(keys: seq<int>, i: nat, sep: int, lo: int, hi: int)
    requires Sorted(keys) && Within(keys, lo + 1, hi) && i <= |keys|
    requires Low(keys, i, lo) < sep < High(keys, i, hi)
    ensures Sorted(InsertAt(keys, i, sep)) && Within(InsertAt(keys, i, sep), lo + 1, hi)
  {
    var r := InsertAt(keys, i, sep);
    assert forall j :: 0 <= j < |r| ==> r[j] == if j < i then keys[j] else if j == i then sep else keys[j - 1];
  }

  lemma {:induction false} AbsorbOrdered(keys: seq<int>, kids: seq<Tree>, i: nat, r: Result, lo: int, hi: int)
    requires Ordered(Inner(keys, kids), lo, hi) && i <= |keys|
    requires OrderedResult(r, Low(keys, i, lo), High(keys, i, hi))
    ensures OrderedResult(Absorb(keys, kids, i, r), lo, hi)
  {
    match r
    case Whole(c) =>
      var ks := kids[i := c];
      assert forall j :: 0 <= j < |ks| ==> Ordered(ks[j], Low(keys, j, lo), High(keys, j, hi));
    case Split(l, sep, c) =>
      var keys', kids' := InsertAt(keys, i, sep), InsertAt(kids[i := l], i + 1, c);
      InsertAtSorted(keys, i, sep, lo, hi);
      forall j | 0 <= j < |kids'| ensures Ordered(kids'[j], Low(keys', j, lo), High(keys', j, hi)) {
        if j < i {
          assert Ordered(kids[j], Low(keys, j, lo), High(keys, j, hi));
        } else if j > i + 1 {
          assert Ordered(kids[j - 1], Low(keys, j - 1, lo), High(keys, j - 1, hi));
        }
      }
      MakeInnerOrdered(keys', kids', lo, hi);
  }

  lemma {:induction false} MakeLeafOrdered(keys: seq<int>, rows: seq<int>, lo: int, hi: int)
    requires |rows| == |keys| && Sorted(keys) && Within(keys, lo, hi)
    ensures OrderedResult(MakeLeaf(keys, rows), lo, hi)
  {
    if |keys| > MAX_KEYS {
      assert keys[0] < keys[|keys| / 2];
    }
  }

  lemma {:induction false} LeafInsOrdered(keys: seq<int>, rows: seq<int>, key: int, row: int, lo: int, hi: int)
    requires |rows| == |keys| && Sorted(keys) && Within(keys, lo, hi) && lo <= key < hi
    requires LinearFind(Zip(keys, rows), key).None?
    ensures OrderedResult(Ins(Leaf(keys, rows), key, row), lo, hi)
  {
    var i := LeafIndex(keys, key);
    LeafMissing(keys, rows, key);
    if i < |keys| { assert Zip(keys, rows)[i..][0].key == keys[i]; }
    InsertAtSorted(keys, i, key, lo - 1, hi);
    MakeLeafOrdered(InsertAt(keys, i, key), InsertAt(rows, i, row), lo, hi);
  }

  /** Insertion keeps the order; a split leaves everything left of the separator smaller than it. */
  lemma {:induction false} InsOrdered(t: Tree, key: int, row: int, lo: int, hi: int)
    requires Ordered(t, lo, hi) && lo <= key < hi
    requires LinearFind(Entries(t), key).None?
    ensures Shaped(t) && OrderedResult(Ins(t, key, row), lo, hi)
  {
    OrderedShaped(t, lo, hi);
    match t
    case Leaf(keys, rows) =>
      LeafInsOrdered(keys, rows, key, row, lo, hi);
    case Inner(keys, kids) =>
      var i := ChildIndex(keys, key);
      DescentIsolates(t, key, lo, hi);
      InsOrdered(kids[i], key, row, Low(keys, i, lo), High(keys, i, hi));
      AbsorbOrdered(keys, kids, i, Ins(kids[i], key, row), lo, hi);
  }

  ghost predicate BalancedResult(r: Result, h: nat) {
    match r
    case Whole(t) => Balanced(t, h)
    case Split(l, _, c) => Balanced(l, h) && Balanced(c, h)
  }

  lemma {:induction false} AbsorbBalanced(keys: seq<int>, kids: seq<Tree>, i: nat, r: Result, h: nat)
    requires i <= |keys| && |kids| == |keys| + 1 && h > 0 && BalancedResult(r, h - 1)
    requires forall j :: 0 <= j < |kids| ==> Balanced(kids[j], h - 1)
    ensures BalancedResult(Absorb(keys, kids, i, r), h)
  {
    match r
    case Whole(_) =>
    case Split(l, sep, c) =>
      var more := InsertAt(kids[i := l], i + 1, c);
      assert forall j :: 0 <= j < |more| ==> Balanced(more[j], h - 1);
      MakeInnerBalanced(InsertAt(keys, i, sep), more, h);
  }

  lemma {:induction false} MakeInnerBalanced(keys: seq<int>, kids: seq<Tree>, h: nat)
    requires |kids| == |keys| + 1 && h > 0 && forall j :: 0 <= j < |kids| ==> Balanced(kids[j], h - 1)
    ensures BalancedResult(MakeInner(keys, kids), h)
  {
  }

  lemma {:induction false} InsBalanced(t: Tree, key: int, row: int, h: nat)
    requires Balanced(t, h)
    ensures Shaped(t) && BalancedResult(Ins(t, key, row), h)
  {
    BalancedShaped(t, h);
    if t.Inner? {
      var i := ChildIndex(t.keys, key);
      InsBalanced(t.kids[i], key, row, h - 1);
      AbsorbBalanced(t.keys, t.kids, i, Ins(t.kids[i], key, row), h);
    }
  }

  /** The whole insertion: one more pair at its place, still ordered, all leaves still equally deep,
      and one level more exactly when the root itself was split. */
  lemma {:induction false} InsertCorrect(t: Tree, key: int, row: int, h: nat)
    requires Ordered(t, KEY_MIN, KEY_SUP) && Balanced(t, h) && KEY_MIN <= key < KEY_SUP
    requires LinearFind(Entries(t), key).None?
    ensures Shaped(t)
    ensures Entries(Insert(t, key, row)) == InsertSorted(Entries(t), Entry(key, row))
    ensures Ordered(Insert(t, key, row), KEY_MIN, KEY_SUP)
    ensures Balanced(Insert(t, key, row), if Ins(t, key, row).Split? then h + 1 else h)
  {
    InsEntries(t, key, row, KEY_MIN, KEY_SUP);
    InsOrdered(t, key, row, KEY_MIN, KEY_SUP);
    InsBalanced(t, key, row, h);
    match Ins(t, key, row)
    case Whole(_) =>
    case Split(l, sep, c) =>
      FlatConcat([l], [c]);
      FlatOne(l);
      FlatOne(c);
      assert [l, c] == [l] + [c];
  }
}
