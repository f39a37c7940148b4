/** The temporary index over one column of a loaded table: hash chains for equality, sorted entries for ranges. */
module Index {
  import opened Text
  import opened Options
  import opened Sql
  import opened TableModel
  import opened Storage
  import opened RangeOrder
  import StorageFacts
  import Reference
  import TextLaws

  const HASH_BUCKET_COUNT := 101
  const ULONG_SUP := 0x1_0000_0000_0000_0000

  // ---------- Hash ----------

  ghost function Hash(text: string): (h: nat)
    ensures h < ULONG_SUP
  {
    if text == [] then 5381 else (Hash(text[..|text| - 1]) * 33 + text[|text| - 1] as int) % ULONG_SUP
  }

  ghost function Bucket(text: string): (b: nat)
    ensures b < HASH_BUCKET_COUNT
  {
    Hash(text) % HASH_BUCKET_COUNT
  }

  /** Shifting by five places and adding is a multiplication by 33, in machine words as well. */
  lemma HashStep(hash: nat, c: nat)
    ensures ((hash * 32) % ULONG_SUP + hash + c) % ULONG_SUP == (hash * 33 + c) % ULONG_SUP
  {
  }

  method HashString(text: string) returns (hash: nat)
    ensures hash == Hash(text)
  {
    hash := 5381;
    var i := 0;
    while i < |text|
      invariant 0 <= i <= |text| && hash == Hash(text[..i])
    {
      assert text[..i + 1][..i] == text[..i];
      HashStep(hash, text[i] as int);
      hash := ((hash * 32) % ULONG_SUP + hash + text[i] as int) % ULONG_SUP;
      i := i + 1;
    }
    assert text[..i] == text;
  }

  // ---------- Lists of offsets ----------

  datatype OffsetList = OffsetList(items: seq<int>, capacity: nat)

  ghost predicate Roomy(list: OffsetList) {
    |list.items| <= list.capacity && (list.items != [] ==> list.capacity > 0)
  }

  function AppendOffset(list: OffsetList, offset: int): (r: OffsetList)
    requires Roomy(list)
    ensures Roomy(r) && r.items == list.items + [offset]
  {
    var capacity :=
      if list.capacity == 0 then 4
      else if |list.items| >= list.capacity then list.capacity * 2
      else list.capacity;
    OffsetList(list.items + [offset], capacity)
  }

  // ---------- Equality ----------

  /** The offsets of the rows whose cell is this value, byte for byte, in row order. */
  ghost function EqualTo(es: seq<RangeEntry>, value: string): seq<int> {
    if es == [] then []
    else
      var rest := EqualTo(es[..|es| - 1], value);
      var e := es[|es| - 1];
      if e.key == value then rest + [e.offset] else rest
  }

  /** No cell of another spelling parses as the value does. */
  ghost predicate OneSpelling(es: seq<RangeEntry>, value: string) {
    forall i :: 0 <= i < |es| && ParseAlike(es[i].key, value) ==> es[i].key == value
  }

  ghost predicate ParseAlike(a: string, b: string) {
    IsInteger(a) && IsInteger(b) && ParseInteger(a) == ParseInteger(b)
  }

  /** Integers parse alike if they are the same number, or are cut off at the same end of `long long`. */
  lemma ParseAlikeExactly(a: string, b: string)
    requires IsInteger(a) && IsInteger(b)
    ensures ParseAlike(a, b) <==> NumberOf(a) == NumberOf(b) || SameEnd(NumberOf(a), NumberOf(b))
  {
    CompareExactly(a, b);
  }

  /** A scan for a number at or above the end of `long long` finds every other such number; the hash chains do not. */
  lemma {:induction false} CutOffAlike(m: int, n: int, offset: int)
    requires m >= LLONG_MAX && n >= LLONG_MAX && m != n
    ensures var es, value := [RangeEntry(Decimal(m), offset)], Decimal(n);
      !OneSpelling(es, value) && EqualTo(es, value) == [] && Offsets(Choose(es, "=", value)) == [offset]
  {
    hide IsInteger, ParseInteger, Decimal;
    var es, value := [RangeEntry(Decimal(m), offset)], Decimal(n);
    ParseAlikeExactly(Decimal(m), value);
    SpellingAt(Decimal(m), value);
    assert ParseAlike(es[0].key, value);
    assert es[..0] == [];
    assert Choose(es, "=", value) == [es[0]];
  }

  /** The hash chains look at spelling, a scan at numbers: they agree exactly where there is one spelling. */
  lemma {:induction false} EqualsIsScan(es: seq<RangeEntry>, value: string)
    ensures EqualTo(es, value) == Offsets(Choose(es, "=", value)) <==> OneSpelling(es, value)
    ensures |EqualTo(es, value)| <= |Choose(es, "=", value)|
    ensures |EqualTo(es, value)| == |Choose(es, "=", value)| ==> OneSpelling(es, value)
  {
    hide IsInteger, ParseInteger;
    if es != [] {
      var n := |es| - 1;
      EqualsIsScan(es[..n], value);
      SpellingAt(es[n].key, value);
      assert OneSpelling(es, value) ==> OneSpelling(es[..n], value);
    }
  }

  /** "007" is the number 7 in another spelling: a scan for "7" finds it, the hash chains do not. */
  lemma {:induction false} SpellingDiffers(offset: int)
    ensures var es := [RangeEntry("007", offset)];
      !OneSpelling(es, "7") && EqualTo(es, "7") == [] && Offsets(Choose(es, "=", "7")) == [offset]
  {
    var es := [RangeEntry("007", offset)];
    assert es[..0] == [];
    assert "007"[..2] == "00" && "00"[..1] == "0" && "0"[..0] == "" && "7"[..0] == "";
    assert Magnitude("007") == 7 && Magnitude("7") == 7;
    assert ParseAlike(es[0].key, "7");
    assert Choose(es, "=", "7") == [es[0]];
  }

  lemma {:induction false} SpellingAt(key: string, value: string)
    ensures CompareValues(key, value) == 0 <==> key == value || ParseAlike(key, value)
  {
    hide IsInteger, ParseInteger;
  }

  class HashNode {
    const key: string
    var offsets: OffsetList
    var next: HashNode?

    constructor (key: string, offset: int, next: HashNode?)
      ensures this.key == key && this.next == next && Roomy(offsets) && offsets.items == [offset]
    {
      this.key := key;
      this.offsets := AppendOffset(OffsetList([], 0), offset);
      this.next := next;
    }
  }

  ghost function NodeAt(nodes: seq<HashNode>, i: nat): HashNode? {
    if i < |nodes| then nodes[i] else null
  }

  ghost predicate LinkAt(nodes: seq<HashNode>, i: nat)
    requires i < |nodes|
    reads nodes`next
  {
    nodes[i].next == NodeAt(nodes, i + 1)
  }

  /** These are the nodes of a chain, from its head to its end. */
  ghost predicate Chain(head: HashNode?, nodes: seq<HashNode>)
    reads nodes`next
  {
    head == NodeAt(nodes, 0) && forall i :: 0 <= i < |nodes| ==> LinkAt(nodes, i)
  }

  /** The nodes of a chain are known, belong to its bucket and have different keys. */
  ghost predicate KeysIn(chains: seq<seq<HashNode>>, b: nat, nodes: set<HashNode>)
    requires b < |chains|
  {
    && (forall i :: 0 <= i < |chains[b]| ==> chains[b][i] in nodes && Bucket(chains[b][i].key) == b)
    && (forall i, j :: 0 <= i < j < |chains[b]| ==> chains[b][i].key != chains[b][j].key)
  }

  ghost predicate Stored(nodes: set<HashNode>, key: string) {
    exists n :: n in nodes && n.key == key
  }

  /** A node with a new key at the head of the chain of its bucket. */
  lemma {:induction false} KeysMore(chains: seq<seq<HashNode>>, b: nat, nodes: set<HashNode>, node: HashNode)
    requires |chains| == HASH_BUCKET_COUNT && b < |chains| && KeysIn(chains, b, nodes)
    requires forall n :: n in nodes ==> n.key != node.key
    ensures var bucket := Bucket(node.key);
      KeysIn(chains[bucket := [node] + chains[bucket]], b, nodes + {node})
  {
    hide Bucket;
    var bucket := Bucket(node.key);
    var chain := chains[bucket := [node] + chains[bucket]][b];
    forall i | 0 <= i < |chain| ensures chain[i] in nodes + {node} && Bucket(chain[i].key) == b {
      if b == bucket && i > 0 {
        assert chain[i] == chains[b][i - 1];
      }
    }
  }

  lemma {:induction false} ChainMore(node: HashNode, nodes: seq<HashNode>)
    requires Chain(node.next, nodes)
    ensures Chain(node, [node] + nodes)
  {
    var more := [node] + nodes;
    forall i | 0 <= i < |more| ensures LinkAt(more, i) {
      assert i > 0 ==> LinkAt(nodes, i - 1);
    }
  }

  class EqualityIndex {
    const buckets: array<HashNode?>
    ghost var chains: seq<seq<HashNode>>
    ghost var nodes: set<HashNode>
    ghost var content: map<string, seq<int>>

    /** Every chain is well formed, and every key stands in exactly one node, which is in its own bucket. */
    ghost predicate Valid()
      reads this, buckets, nodes
    {
      && buckets.Length == |chains| == HASH_BUCKET_COUNT
      && (forall b :: 0 <= b < |chains| ==> KeysIn(chains, b, nodes) && Chain(buckets[b], chains[b]))
      && (forall n :: n in nodes ==> n in chains[Bucket(n.key)])
      && (forall n :: n in nodes ==> Holds(n))
      && (forall key :: key in content ==> Stored(nodes, key))
    }

    ghost predicate Holds(node: HashNode)
      reads this, node
    {
      Roomy(node.offsets) && node.key in content && content[node.key] == node.offsets.items
    }

    constructor ()
      ensures Valid() && fresh(buckets) && nodes == {} && content == map[]
    {
      buckets := new HashNode?[HASH_BUCKET_COUNT](_ => null);
      chains := seq(HASH_BUCKET_COUNT, _ => []);
      nodes := {};
      content := map[];
    }

    ghost function Lookup(key: string): seq<int>
      reads this
    {
      if key in content then content[key] else []
    }

    /** The node of this key in its bucket. */
    method FindNode(key: string) returns (node: HashNode?, bucket: nat)
      requires Valid()
      ensures bucket == Bucket(key)
      ensures node == null <==> key !in content
      ensures node != null ==> node.key == key && node in nodes && Holds(node)
      ensures node != null ==> forall n :: n in nodes && n != node ==> n.key != key
    {
      hide Hash;
      assert key in content ==> Stored(nodes, key);
      var hash := HashString(key);
      bucket := hash % HASH_BUCKET_COUNT;
      assert KeysIn(chains, bucket, nodes) && Chain(buckets[bucket], chains[bucket]);
      node := buckets[bucket];
      ghost var i := 0;
      while node != null
        invariant 0 <= i <= |chains[bucket]|
        invariant node == NodeAt(chains[bucket], i)
        invariant forall j :: 0 <= j < i ==> chains[bucket][j].key != key
        decreases |chains[bucket]| - i
      {
        if node.key == key {
          return;
        }
        assert LinkAt(chains[bucket], i);
        node := node.next;
        i := i + 1;
      }
    }

    /** Adds an offset to those of the key. */
    method Add(key: string, offset: int)
      requires Valid()
      modifies this, buckets, nodes
      ensures Valid() && fresh(nodes - old(nodes))
      ensures content == old(content)[key := old(Lookup(key)) + [offset]]
    {
      var node, bucket := FindNode(key);
      if node != null {
        AppendTo(node, offset);
      } else {
        Push(key, offset, bucket);
        assert [] + [offset] == [offset];
      }
    }

    method AppendTo(node: HashNode, offset: int)
      requires Valid() && node in nodes && Holds(node)
      requires forall n :: n in nodes && n != node ==> n.key != node.key
      modifies this`content, node`offsets
      ensures Valid() && content == old(content)[node.key := old(content)[node.key] + [offset]]
    {
      hide Bucket, Hash;
      node.offsets := AppendOffset(node.offsets, offset);
      content := content[node.key := node.offsets.items];
      forall b | 0 <= b < |chains| ensures KeysIn(chains, b, nodes) && Chain(buckets[b], chains[b]) {
        hide KeysIn;
        assert old(KeysIn(chains, b, nodes)) && old(Chain(buckets[b], chains[b]));
      }
      forall n | n in nodes ensures Holds(n) {
        assert old(Holds(n));
      }
      assert Stored(nodes, node.key);
    }

    /** A node for a new key goes to the head of its chain. */
    method Push(key: string, offset: int, bucket: nat)
      requires Valid() && key !in content && bucket == Bucket(key)
      modifies this, buckets
      ensures Valid() && content == old(content)[key := [offset]]
      ensures fresh(nodes - old(nodes))
    {
      hide Bucket, Hash, KeysIn, Chain;
      assert KeysIn(chains, bucket, nodes) && Chain(buckets[bucket], chains[bucket]);
      var node := LinkNode(key, offset, bucket, chains[bucket]);
      forall b | 0 <= b < |chains| && b != bucket ensures Chain(buckets[b], chains[b]) {
        assert old(KeysIn(chains, b, nodes)) && old(Chain(buckets[b], chains[b]));
      }
      Enter(node, bucket);
    }

    /** The pointers of a new node: behind it what was the chain of the bucket. */
    method LinkNode(key: string, offset: int, bucket: nat, ghost chain: seq<HashNode>) returns (node: HashNode)
      requires bucket < buckets.Length && Chain(buckets[bucket], chain)
      modifies buckets
      ensures fresh(node) && node.key == key && Roomy(node.offsets) && node.offsets.items == [offset]
      ensures Chain(node, [node] + chain)
      ensures forall b :: 0 <= b < buckets.Length ==> buckets[b] == if b == bucket then node else old(buckets[b])
    {
      hide Chain;
      node := new HashNode(key, offset, buckets[bucket]);
      ChainMore(node, chain);
      buckets[bucket] := node;
    }

    /** The new node becomes part of what is known about the index. */
    ghost method Enter(node: HashNode, bucket: nat)
      requires buckets.Length == |chains| == HASH_BUCKET_COUNT && bucket == Bucket(node.key) && node !in nodes
      requires forall b :: 0 <= b < |chains| ==> KeysIn(chains, b, nodes)
      requires forall b :: 0 <= b < |chains| ==>
        Chain(buckets[b], if b == bucket then [node] + chains[b] else chains[b])
      requires forall n :: n in nodes ==> n in chains[Bucket(n.key)] && Holds(n)
      requires forall key :: key in content ==> Stored(nodes, key)
      requires node.key !in content && Roomy(node.offsets)
      modifies this`chains, this`nodes, this`content
      ensures Valid() && content == old(content)[node.key := node.offsets.items] && nodes == old(nodes) + {node}
    {
      hide Bucket, Hash, KeysIn, Chain, Roomy;
      var after := chains[bucket := [node] + chains[bucket]];
      forall b | 0 <= b < |after| ensures KeysIn(after, b, nodes + {node}) {
        KeysMore(chains, b, nodes, node);
      }
      chains := after;
      nodes := nodes + {node};
      content := content[node.key := node.offsets.items];
      forall n | n in nodes ensures Holds(n) {
        assert n != node ==> old(Holds(n));
      }
      forall k | k in content ensures Stored(nodes, k) {
        assert k == node.key || old(Stored(nodes, k));
        assert node in nodes;
      }
    }

    /** The offsets recorded for a value. */
    method Query(value: string) returns (offsets: seq<int>)
      requires Valid()
      ensures offsets == Lookup(value)
    {
      var node, bucket := FindNode(value);
      if node == null {
        return [];
      }
      return node.offsets.items;
    }
  }

  // ---------- The index of a column ----------

  ghost predicate Rectangular(t: TableData) {
    |t.offsets| == |t.rows| && forall k :: 0 <= k < |t.rows| ==> |t.rows[k]| == |t.columns|
  }

  /** The cells of a column with the offsets of their rows, in row order. */
  ghost function Cells(t: TableData, column: nat): (es: seq<RangeEntry>)
    requires Rectangular(t) && column < |t.columns|
    ensures |es| == |t.rows|
  {
    seq(|t.rows|, k requires 0 <= k < |t.rows| => RangeEntry(t.rows[k][column], t.offsets[k]))
  }

  ghost predicate AllFit(es: seq<RangeEntry>) {
    forall k :: 0 <= k < |es| ==> |es[k].key| <= 255
  }

  /** What a range query promises about a column: the scan's choice, in the order of the index. */
  ghost predicate InOrder(offsets: seq<int>, chosen: seq<RangeEntry>) {
    exists es :: offsets == Offsets(es) && multiset(es) == multiset(chosen) && Ordered(es)
  }

  ghost predicate Permuted(offsets: seq<int>, chosen: seq<RangeEntry>) {
    exists es :: offsets == Offsets(es) && multiset(es) == multiset(chosen)
  }

  class TableIndex {
    const columnIndex: nat
    const equality: EqualityIndex
    const entries: array<RangeEntry>
    ghost const source: seq<RangeEntry>

    ghost predicate Valid()
      reads this, entries, equality, equality.buckets, equality.nodes
    {
      && equality.Valid()
      && (forall value :: equality.Lookup(value) == EqualTo(source, value))
      && multiset(entries[..]) == multiset(source)
      && (Consistent(KeysOf(source)) ==> Ordered(entries[..]))
    }

    constructor (column: nat, equality: EqualityIndex, entries: array<RangeEntry>, ghost source: seq<RangeEntry>)
      ensures this.columnIndex == column && this.equality == equality && this.entries == entries
      ensures this.source == source
    {
      this.columnIndex := column;
      this.equality := equality;
      this.entries := entries;
      this.source := source;
    }

    /** The offsets of the rows whose cell is the value, byte for byte, in row order. */
    method QueryEquals(value: string) returns (offsets: seq<int>)
      requires Valid()
      ensures offsets == EqualTo(source, value)
    {
      offsets := equality.Query(value);
    }

    /** The offsets for one of the operators `!=`, `>`, `>=`, `<` and `<=`, in the order of the index. */
    method QueryRange(op: string, value: string) returns (offsets: Option<seq<int>>)
      requires Valid()
      ensures offsets.None? <==> op !in {"!=", ">", ">=", "<", "<="}
      ensures offsets.Some? ==>
        Answer(entries[..], op, value).Some? && offsets.value == Offsets(Answer(entries[..], op, value).value)
      ensures op == "!=" ==> Permuted(offsets.value, Choose(source, op, value))
      ensures Ranges(op) && Consistent(KeysOf(source) + {value}) ==> InOrder(offsets.value, Choose(source, op, value))
      ensures Ranges(op) && Uniform(source, value) ==> InOrder(offsets.value, Choose(source, op, value))
    {
      hide EqualityIndex.Valid, Ordered, CompareValues, IsInteger, Choose, Bound;
      ghost var es := entries[..];
      if op == "!=" {
        var items := FilterUnequal(value);
        ChoosePermutes(es, source, op, value);
        return Some(items);
      }
      var start, end := 0, entries.Length;
      if op == ">" {
        start := UpperBound(entries, value);
      } else if op == ">=" {
        start := LowerBound(entries, value);
      } else if op == "<" {
        end := LowerBound(entries, value);
      } else if op == "<=" {
        end := UpperBound(entries, value);
      } else {
        return None;
      }
      var items := CopyOffsets(start, end);
      assert entries[start..end] == if Less(op) then es[..end] else es[start..];
      if Uniform(source, value) {
        UniformConsistent(source, value);
      }
      if Consistent(KeysOf(source) + {value}) {
        ConsistentAnswer(es, source, op, value);
      }
      return Some(items);
    }

    method CopyOffsets(start: nat, end: nat) returns (items: seq<int>)
      requires start <= end <= entries.Length
      ensures items == Offsets(entries[start..end])
    {
      items := [];
      var i := 0;
      while i < end - start
        invariant 0 <= i <= end - start && items == Offsets(entries[start..start + i])
      {
        items := items + [entries[start + i].offset];
        i := i + 1;
      }
    }

    method FilterUnequal(value: string) returns (items: seq<int>)
      ensures items == Offsets(Choose(entries[..], "!=", value))
    {
      hide CompareValues;
      items := [];
      var i := 0;
      while i < entries.Length
        invariant 0 <= i <= entries.Length && items == Offsets(Choose(entries[..i], "!=", value))
      {
        assert entries[..i + 1][..i] == entries[..i];
        if CompareValues(entries[i].key, value) != 0 {
          items := items + [entries[i].offset];
        }
        i := i + 1;
      }
      assert entries[..i] == entries[..];
    }
  }

  lemma {:induction false} ConsistentAnswer(es: seq<RangeEntry>, source: seq<RangeEntry>, op: string, value: string)
    requires multiset(es) == multiset(source) && (Consistent(KeysOf(source)) ==> Ordered(es))
    requires Ranges(op) && Consistent(KeysOf(source) + {value})
    ensures Answer(es, op, value) == Some(Choose(es, op, value))
    ensures multiset(Choose(es, op, value)) == multiset(Choose(source, op, value)) && Ordered(Choose(es, op, value))
  {
    hide Ordered, Choose, Bound, Partitioned, ChainsAt;
    PermutedKeys(es, source);
    OrderedKeys(es);
    ConsistentPartitioned(es, value, Inclusive(op));
    AnswerExact(es, op, value);
    ChoosePermutes(es, source, op, value);
    ChooseOrdered(es, op, value);
  }

  /** Over all values of the column and all operators, the range index answers exactly if and only if no value
      that is no integer stands between two integers the wrong way round. */
  lemma {:induction false} ColumnExact(index: TableIndex)
    requires index.Valid()
    ensures AllExact(index.entries[..]) <==> Separated(KeysOf(index.source))
  {
    hide AllExact, KeysOrdered, Consistent, Separated, KeysOf, Ordered, EqualityIndex.Valid;
    var es := index.entries[..];
    PermutedKeys(es, index.source);
    ConsistentExactly(KeysOf(index.source));
    RangesExact(es);
    if Consistent(KeysOf(index.source)) {
      OrderedKeys(es);
    }
  }

  /** The first entry that is not below the value. */
  method LowerBound(entries: array<RangeEntry>, value: string) returns (left: nat)
    ensures left == Bound(entries[..], value, false, 0, entries.Length)
  {
    hide CompareValues;
    left := 0;
    var right := entries.Length;
    while left < right
      invariant left <= right <= entries.Length
      invariant Bound(entries[..], value, false, left, right) == Bound(entries[..], value, false, 0, entries.Length)
    {
      var middle := left + (right - left) / 2;
      if CompareValues(entries[middle].key, value) < 0 {
        left := middle + 1;
      } else {
        right := middle;
      }
    }
  }

  /** The first entry that is above the value. */
  method UpperBound(entries: array<RangeEntry>, value: string) returns (left: nat)
    ensures left == Bound(entries[..], value, true, 0, entries.Length)
  {
    hide CompareValues;
    left := 0;
    var right := entries.Length;
    while left < right
      invariant left <= right <= entries.Length
      invariant Bound(entries[..], value, true, left, right) == Bound(entries[..], value, true, 0, entries.Length)
    {
      var middle := left + (right - left) / 2;
      if CompareValues(entries[middle].key, value) <= 0 {
        left := middle + 1;
      } else {
        right := middle;
      }
    }
  }

  method SortRange(entries: array<RangeEntry>)
    modifies entries
    ensures multiset(entries[..]) == multiset(old(entries[..]))
    ensures Consistent(KeysOf(old(entries[..]))) ==> Ordered(entries[..])
  {
    hide Consistent, KeysOf, Ordered, SortEntries;
    var sorted := SortEntries(entries[..]);
    Sorting(entries[..]);
    assert |multiset(sorted)| == |multiset(entries[..])|;
    forall i | 0 <= i < entries.Length {
      entries[i] := sorted[i];
    }
    assert entries[..] == sorted;
  }

  lemma {:induction false} NoneEntered(none: seq<RangeEntry>)
    requires none == []
    ensures AllFit(none) && forall value :: EqualTo(none, value) == []
  {
  }

  lemma {:induction false} FitMore(es: seq<RangeEntry>, i: nat)
    requires i < |es|
    ensures es[..i + 1] == es[..i] + [es[i]]
    ensures AllFit(es[..i + 1]) <==> AllFit(es[..i]) && |es[i].key| < MAX_VALUE_LEN
    ensures |es[i].key| >= MAX_VALUE_LEN ==> !AllFit(es)
  {
    assert es[..i + 1] == es[..i] + [es[i]];
  }

  /** Enters one row into both indexes, unless its cell is too long for the second. */
  method EnterRow(equality: EqualityIndex, entries: array<RangeEntry>, i: nat, cell: string, offset: int,
      ghost done: seq<RangeEntry>)
    returns (fits: bool)
    requires equality.Valid() && i < entries.Length && entries[..i] == done
    requires forall value :: equality.Lookup(value) == EqualTo(done, value)
    modifies equality, equality.buckets, equality.nodes, entries
    ensures equality.Valid() && fresh(equality.nodes - old(equality.nodes))
    ensures forall value :: equality.Lookup(value) == EqualTo(done + [RangeEntry(cell, offset)], value)
    ensures fits == (|cell| < MAX_VALUE_LEN)
    ensures fits ==> entries[..i + 1] == done + [RangeEntry(cell, offset)]
  {
    hide EqualityIndex.Valid;
    equality.Add(cell, offset);
    assert (done + [RangeEntry(cell, offset)])[..i] == done;
    var (copy, ok) := SafeCopy(MAX_VALUE_LEN, cell);
    if !ok {
      return false;
    }
    entries[i] := RangeEntry(copy, offset);
    return true;
  }

  /** Both indexes of a column; none if the column does not exist or a cell is too long. */
  method Build(table: TableData, column: int) returns (index: TableIndex?)
    requires Rectangular(table)
    ensures index != null <==> 0 <= column < |table.columns| && AllFit(Cells(table, column))
    ensures index != null ==> index.Valid() && index.columnIndex == column && index.source == Cells(table, column)
  {
    hide EqualityIndex.Valid, Consistent, KeysOf, Ordered, EqualTo, AllFit;
    if column < 0 || column >= |table.columns| {
      return null;
    }
    var equality := new EqualityIndex();
    var entries := new RangeEntry[|table.rows|];
    ghost var source := Cells(table, column);
    var i := 0;
    NoneEntered(source[..0]);
    while i < |table.rows|
      invariant 0 <= i <= |table.rows|
      invariant equality.Valid() && fresh(equality) && fresh(equality.buckets) && fresh(equality.nodes)
      invariant forall value :: equality.Lookup(value) == EqualTo(source[..i], value)
      invariant AllFit(source[..i]) && entries[..i] == source[..i]
    {
      FitMore(source, i);
      var fits := EnterRow(equality, entries, i, table.rows[i][column], table.offsets[i], source[..i]);
      if !fits {
        return null;
      }
      i := i + 1;
    }
    assert source[..i] == source == entries[..];
    SortRange(entries);
    index := new TableIndex(column, equality, entries, source);
  }

  // ---------- From the index back to the file ----------

  ghost function EqualRows(rows: seq<Row>, column: nat, value: string): seq<Row>
    requires forall k :: 0 <= k < |rows| ==> column < |rows[k]|
  {
    if rows == [] then []
    else
      var rest := EqualRows(rows[..|rows| - 1], column, value);
      var last := rows[|rows| - 1];
      if last[column] == value then rest + [last] else rest
  }

  lemma {:induction false} EqualCells(t: TableData, column: nat, value: string, n: nat, file: string)
    requires Rectangular(t) && column < |t.columns| && n <= |t.rows|
    requires forall k :: 0 <= k < |t.rows| ==> RowAt(file, t.offsets[k], |t.columns|) == Some(t.rows[k])
    ensures var os := EqualTo(Cells(t, column)[..n], value);
      var rows := EqualRows(t.rows[..n], column, value);
      && |os| == |rows|
      && forall i :: 0 <= i < |os| ==> RowAt(file, os[i], |t.columns|) == Some(rows[i])
  {
    hide RowAt;
    if n > 0 {
      EqualCells(t, column, value, n - 1, file);
      assert Cells(t, column)[..n][..n - 1] == Cells(t, column)[..n - 1];
      assert t.rows[..n][..n - 1] == t.rows[..n - 1];
    }
  }

  /** Reading the file at the offsets that the hash chains give yields the rows of the table whose cell is the
      value, in order. */
  lemma {:induction false} IndexedRows(file: string, column: nat, value: string)
    requires Load(file).Some? && column < |Load(file).value.columns|
    ensures var t := Load(file).value;
      Rectangular(t) && forall k :: 0 <= k < |t.rows| ==> column < |t.rows[k]|
    ensures var t := Load(file).value;
      var os := EqualTo(Cells(t, column), value);
      var rows := EqualRows(t.rows, column, value);
      && |os| == |rows|
      && forall i :: 0 <= i < |os| ==> RowAt(file, os[i], |t.columns|) == Some(rows[i])
  {
    hide RowAt, Load;
    StorageFacts.RereadAtOffset(file);
    var t := Load(file).value;
    assert t.rows[..|t.rows|] == t.rows && Cells(t, column)[..|t.rows|] == Cells(t, column);
    EqualCells(t, column, value, |t.rows|, file);
  }

  /** Place `k` is that of the row behind the `i`-th entry of a choice. */
  ghost predicate RowBehind(file: string, t: TableData, es: seq<RangeEntry>, at: seq<nat>, i: nat)
    requires i < |es| == |at|
  {
    at[i] < |t.rows| && RowAt(file, es[i].offset, |t.columns|) == Some(t.rows[at[i]])
  }

  /** The entries of a column differ, since their offsets do. */
  lemma {:induction false} CellsDiffer(t: TableData, column: nat, k: nat)
    requires Rectangular(t) && column < |t.columns| && k < |t.rows|
    requires forall i, j :: 0 <= i < j < |t.offsets| ==> t.offsets[i] < t.offsets[j]
    ensures multiset(Cells(t, column))[Cells(t, column)[k]] == 1
  {
    var es := Cells(t, column);
    assert es == es[..k] + ([es[k]] + es[k + 1..]);
    assert es[k] !in es[..k] && es[k] !in es[k + 1..];
  }

  /** Reading the file at the offsets of any arrangement of the choice, as a range query gives them, yields each
      row whose cell satisfies the condition exactly once, and no other. */
  lemma {:induction false} RangeRows(file: string, column: nat, op: string, value: string, es: seq<RangeEntry>)
    returns (at: seq<nat>)
    requires Load(file).Some? && column < |Load(file).value.columns| && Rectangular(Load(file).value)
    requires multiset(es) == multiset(Choose(Cells(Load(file).value, column), op, value))
    ensures |at| == |es| && forall i :: 0 <= i < |es| ==> RowBehind(file, Load(file).value, es, at, i)
    ensures forall i, j :: 0 <= i < j < |at| ==> at[i] != at[j]
    ensures var rows := Load(file).value.rows;
      forall k :: 0 <= k < |rows| ==> (k in at <==> Reference.Satisfies(rows[k][column], op, value))
  {
    hide Load, RowAt, CompareValues, Matches, Choose, Reference.Satisfies;
    StorageFacts.RereadAtOffset(file);
    var t := Load(file).value;
    var cells := Cells(t, column);
    ChooseIn(cells, op, value);
    ChooseWithin(cells, op, value);
    at := PlacesIn(t, column, es, Choose(cells, op, value));
    forall i, j | 0 <= i < j < |at| ensures at[i] != at[j] {
      ChooseCounts(cells, op, value, es[i]);
      CellsDiffer(t, column, at[i]);
      if es[i] == es[j] {
        Twice(es, i, j);
      }
    }
    forall k | 0 <= k < |t.rows| ensures k in at <==> Reference.Satisfies(t.rows[k][column], op, value) {
      TextLaws.MatchesExact(t.rows[k][column], op, value);
      assert cells[k].key == t.rows[k][column];
      ChosenPlace(t, column, Choose(cells, op, value), es, at, k);
    }
  }

  lemma {:induction false} ChosenPlace(t: TableData, column: nat, chosen: seq<RangeEntry>, es: seq<RangeEntry>,
      at: seq<nat>, k: nat)
    requires Rectangular(t) && column < |t.columns| && k < |t.rows| && multiset(es) == multiset(chosen)
    requires forall i, j :: 0 <= i < j < |t.offsets| ==> t.offsets[i] < t.offsets[j]
    requires |at| == |es| && forall i :: 0 <= i < |es| ==> at[i] < |t.rows| && Cells(t, column)[at[i]] == es[i]
    ensures k in at <==> Cells(t, column)[k] in chosen
  {
    var cell := Cells(t, column)[k];
    assert cell in chosen <==> cell in multiset(es);
    if k in at {
      var i :| 0 <= i < |at| && at[i] == k;
      assert es[i] in multiset(es);
    }
    if cell in multiset(es) {
      var i :| 0 <= i < |es| && es[i] == cell;
      assert t.offsets[at[i]] == t.offsets[k];
      assert at[i] == k;
    }
  }

  lemma {:induction false} Twice(es: seq<RangeEntry>, i: nat, j: nat)
    requires i < j < |es| && es[i] == es[j]
    ensures multiset(es)[es[i]] >= 2
  {
    assert es == es[..j] + ([es[j]] + es[j + 1..]);
    assert es[..j][i] == es[i];
    assert es[i] in multiset(es[..j]);
  }

  /** Where the entries of a choice stand in the column. */
  lemma {:induction false} PlacesIn(t: TableData, column: nat, es: seq<RangeEntry>, chosen: seq<RangeEntry>)
    returns (at: seq<nat>)
    requires Rectangular(t) && column < |t.columns| && multiset(es) == multiset(chosen)
    requires forall e :: e in chosen ==> e in Cells(t, column)
    ensures |at| == |es| && forall i :: 0 <= i < |es| ==> at[i] < |t.rows| && Cells(t, column)[at[i]] == es[i]
  {
    forall i | 0 <= i < |es| ensures es[i] in Cells(t, column) {
      assert es[i] in multiset(es);
    }
    at := PlacesOf(Cells(t, column), es);
  }

  lemma {:induction false} PlacesOf(cells: seq<RangeEntry>, es: seq<RangeEntry>) returns (at: seq<nat>)
    requires forall i :: 0 <= i < |es| ==> es[i] in cells
    ensures |at| == |es| && forall i :: 0 <= i < |es| ==> at[i] < |cells| && cells[at[i]] == es[i]
  {
    if es == [] {
      at := [];
    } else {
      var n := |es| - 1;
      at := PlacesOf(cells, es[..n]);
      var k :| 0 <= k < |cells| && cells[k] == es[n];
      at := at + [k];
    }
  }
}
