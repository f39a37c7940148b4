/** The order of a range index, its two binary searches, and when they answer a range query exactly. */
module RangeOrder {
  import opened Text
  import opened TableModel
  import opened Options

  datatype RangeEntry = RangeEntry(key: string, offset: int)

  // ---------- Order ----------

  function CompareEntries(a: RangeEntry, b: RangeEntry): int {
    var c := CompareValues(a.key, b.key);
    if c != 0 then c else Sign(a.offset - b.offset)
  }

  ghost predicate Ordered(es: seq<RangeEntry>) {
    forall i, j :: 0 <= i < j < |es| ==> CompareEntries(es[i], es[j]) <= 0
  }

  /** Comparing with the value is a comparison of numbers throughout, or of strings throughout. */
  ghost predicate Uniform(es: seq<RangeEntry>, value: string) {
    || (IsInteger(value) && forall i :: 0 <= i < |es| ==> IsInteger(es[i].key))
    || (forall i :: 0 <= i < |es| ==> !IsInteger(es[i].key))
  }

  lemma {:induction false} StrCmpTransitive(a: string, b: string, c: string)
    ensures StrCmp(a, b) <= 0 && StrCmp(b, c) <= 0 ==> StrCmp(a, c) <= 0
    ensures StrCmp(a, b) < 0 && StrCmp(b, c) <= 0 ==> StrCmp(a, c) < 0
    ensures StrCmp(a, b) <= 0 && StrCmp(b, c) < 0 ==> StrCmp(a, c) < 0
  {
    if a != [] && b != [] && c != [] && a[0] == b[0] == c[0] {
      StrCmpTransitive(a[1..], b[1..], c[1..]);
    }
  }

  lemma {:induction false} StrCmpFlips(a: string, b: string)
    ensures Sign(StrCmp(a, b)) == -Sign(StrCmp(b, a))
  {
    if a != [] && b != [] && a[0] == b[0] {
      StrCmpFlips(a[1..], b[1..]);
    }
  }

  lemma {:induction false} CompareFlips(a: string, b: string)
    ensures CompareValues(a, b) == -CompareValues(b, a)
  {
    StrCmpFlips(a, b);
  }

  // ---------- Consistent values ----------

  ghost function KeysOf(es: seq<RangeEntry>): set<string> {
    set e | e in es :: e.key
  }

  ghost predicate ChainsAt(x: string, y: string, z: string) {
    CompareValues(x, y) <= 0 && CompareValues(y, z) <= 0 ==> CompareValues(x, z) <= 0
  }

  /** The comparison is transitive on these values. */
  ghost predicate Consistent(keys: set<string>) {
    forall x, y, z :: x in keys && y in keys && z in keys ==> ChainsAt(x, y, z)
  }

  ghost predicate SeparatesAt(x: string, y: string, z: string) {
    IsInteger(x) && IsInteger(y) && !IsInteger(z) && StrCmp(x, z) < 0 && StrCmp(z, y) < 0 ==>
      ParseInteger(x) < ParseInteger(y)
  }

  /** If a value that is no integer stands, as a string, above one integer and below another, the first is the
      smaller number. */
  ghost predicate Separated(keys: set<string>) {
    forall x, y, z :: x in keys && y in keys && z in keys ==> SeparatesAt(x, y, z)
  }

  lemma {:induction false} ChainsSeparate(x: string, y: string, z: string)
    requires ChainsAt(y, x, z)
    ensures SeparatesAt(x, y, z)
  {
    hide IsInteger, ParseInteger;
    StrCmpFlips(y, z);
  }

  lemma {:induction false} SeparateChains(x: string, y: string, z: string)
    requires SeparatesAt(y, x, z) && SeparatesAt(x, z, y) && SeparatesAt(z, y, x)
    ensures ChainsAt(x, y, z)
  {
    hide IsInteger, ParseInteger;
    StrCmpTransitive(x, y, z);
    StrCmpFlips(x, y);
    StrCmpFlips(y, z);
    StrCmpFlips(x, z);
  }

  /** What makes the comparison transitive on the values of a column. */
  lemma {:induction false} ConsistentExactly(keys: set<string>)
    ensures Consistent(keys) <==> Separated(keys)
  {
    hide ChainsAt, SeparatesAt;
    if Consistent(keys) {
      forall x, y, z | x in keys && y in keys && z in keys ensures SeparatesAt(x, y, z) {
        ChainsSeparate(x, y, z);
      }
    }
    if Separated(keys) {
      forall x, y, z | x in keys && y in keys && z in keys ensures ChainsAt(x, y, z) {
        SeparateChains(x, y, z);
      }
    }
  }

  /** Values of one kind are consistent with each other, and so is a value to compare them with. */
  lemma {:induction false} UniformConsistent(es: seq<RangeEntry>, value: string)
    requires Uniform(es, value)
    ensures Consistent(KeysOf(es) + {value})
  {
    hide IsInteger, ParseInteger, Consistent;
    var keys := KeysOf(es) + {value};
    forall x, y, z | x in keys && y in keys && z in keys ensures SeparatesAt(x, y, z) {
      StrCmpFlips(x, z);
    }
    ConsistentExactly(keys);
  }

  lemma {:induction false} ConsistentAt(keys: set<string>, x: string, y: string, z: string)
    requires Consistent(keys) && x in keys && y in keys && z in keys
    ensures CompareValues(x, y) <= 0 && CompareValues(y, z) <= 0 ==> CompareValues(x, z) <= 0
    ensures CompareValues(x, y) <= 0 && CompareValues(y, z) <= 0 && CompareValues(x, z) == 0 ==>
      CompareValues(x, y) == 0 && CompareValues(y, z) == 0
  {
    hide CompareValues;
    assert ChainsAt(x, y, z) && ChainsAt(y, z, x) && ChainsAt(z, x, y);
    CompareFlips(x, y);
    CompareFlips(y, z);
    CompareFlips(x, z);
  }

  lemma {:induction false} EntriesTransitive(keys: set<string>, a: RangeEntry, b: RangeEntry, c: RangeEntry)
    requires Consistent(keys) && a.key in keys && b.key in keys && c.key in keys
    requires CompareEntries(a, b) <= 0 && CompareEntries(b, c) <= 0
    ensures CompareEntries(a, c) <= 0
  {
    hide CompareValues, Consistent;
    ConsistentAt(keys, a.key, b.key, c.key);
  }

  // ---------- Sorting ----------

  function InsertEntry(es: seq<RangeEntry>, e: RangeEntry): seq<RangeEntry> {
    if es != [] && CompareEntries(es[|es| - 1], e) > 0 then InsertEntry(es[..|es| - 1], e) + [es[|es| - 1]]
    else es + [e]
  }

  function SortEntries(es: seq<RangeEntry>): seq<RangeEntry> {
    if es == [] then [] else InsertEntry(SortEntries(es[..|es| - 1]), es[|es| - 1])
  }

  lemma {:induction false} InsertPermutes(es: seq<RangeEntry>, e: RangeEntry)
    ensures multiset(InsertEntry(es, e)) == multiset(es) + multiset{e}
  {
    if es != [] && CompareEntries(es[|es| - 1], e) > 0 {
      InsertPermutes(es[..|es| - 1], e);
      assert es == es[..|es| - 1] + [es[|es| - 1]];
    }
  }

  lemma {:induction false} InsertOrders(es: seq<RangeEntry>, e: RangeEntry, keys: set<string>)
    requires Ordered(es) && Consistent(keys) && KeysOf(es) <= keys && e.key in keys
    ensures Ordered(InsertEntry(es, e))
  {
    hide CompareValues, Sign, CompareEntries, Consistent;
    var n := |es| - 1;
    assert forall i :: 0 <= i < |es| ==> es[i].key in KeysOf(es);
    if es != [] && CompareEntries(es[n], e) > 0 {
      assert KeysOf(es[..n]) <= KeysOf(es);
      InsertOrders(es[..n], e, keys);
      InsertPermutes(es[..n], e);
      EntriesFlip(es[n], e);
      var front := InsertEntry(es[..n], e);
      forall i | 0 <= i < |front| ensures CompareEntries(front[i], es[n]) <= 0 {
        assert front[i] in multiset(front);
        if front[i] != e {
          assert front[i] in es[..n];
        }
      }
    } else {
      forall i | 0 <= i < |es| ensures CompareEntries(es[i], e) <= 0 {
        if i < n {
          EntriesTransitive(keys, es[i], es[n], e);
        }
      }
    }
  }

  lemma {:induction false} EntriesFlip(a: RangeEntry, b: RangeEntry)
    ensures Sign(CompareEntries(a, b)) == -Sign(CompareEntries(b, a))
    ensures CompareEntries(a, b) > 0 ==> CompareEntries(b, a) <= 0
  {
    hide CompareValues;
    CompareFlips(a.key, b.key);
  }

  lemma {:induction false} SortingPermutes(es: seq<RangeEntry>)
    ensures multiset(SortEntries(es)) == multiset(es)
  {
    hide InsertEntry;
    if es != [] {
      var n := |es| - 1;
      assert es == es[..n] + [es[n]];
      SortingPermutes(es[..n]);
      InsertPermutes(SortEntries(es[..n]), es[n]);
    }
  }

  lemma {:induction false} SortingOrders(es: seq<RangeEntry>, keys: set<string>)
    requires Consistent(keys) && KeysOf(es) <= keys
    ensures Ordered(SortEntries(es))
  {
    hide InsertEntry, CompareEntries, Consistent;
    if es != [] {
      var n := |es| - 1;
      var sorted := SortEntries(es[..n]);
      assert es[n].key in KeysOf(es) && KeysOf(es[..n]) <= KeysOf(es);
      SortingOrders(es[..n], keys);
      SortingPermutes(es[..n]);
      PermutedKeys(sorted, es[..n]);
      InsertOrders(sorted, es[n], keys);
    }
  }

  lemma {:induction false} PermutedKeys(a: seq<RangeEntry>, b: seq<RangeEntry>)
    requires multiset(a) == multiset(b)
    ensures KeysOf(a) == KeysOf(b)
  {
    assert forall e :: e in a <==> e in multiset(a);
    assert forall e :: e in b <==> e in multiset(b);
  }

  /** Sorting permutes; where the comparison is transitive on the values it also orders. */
  lemma {:induction false} Sorting(es: seq<RangeEntry>)
    ensures multiset(SortEntries(es)) == multiset(es)
    ensures Consistent(KeysOf(es)) ==> Ordered(SortEntries(es))
  {
    hide SortEntries, Ordered, Consistent;
    SortingPermutes(es);
    if Consistent(KeysOf(es)) {
      SortingOrders(es, KeysOf(es));
    }
  }

  // ---------- Queries ----------

  ghost predicate Ranges(op: string) {
    op == "<" || op == ">=" || op == "<=" || op == ">"
  }

  /** The entries a full look at the index selects. */
  ghost function Choose(es: seq<RangeEntry>, op: string, value: string): seq<RangeEntry> {
    if es == [] then []
    else
      var rest := Choose(es[..|es| - 1], op, value);
      var e := es[|es| - 1];
      if Matches(CompareValues(e.key, value), op) then rest + [e] else rest
  }

  function Offsets(es: seq<RangeEntry>): (r: seq<int>)
    ensures |r| == |es|
  {
    seq(|es|, i requires 0 <= i < |es| => es[i].offset)
  }

  /** Binary search for the first entry in a window that is not below the value, or is above it. */
  ghost function Bound(es: seq<RangeEntry>, value: string, above: bool, left: nat, right: nat): (k: nat)
    requires left <= right <= |es|
    ensures left <= k <= right
    decreases right - left
  {
    if left == right then left
    else
      var middle := left + (right - left) / 2;
      if Front(es[middle], value, above) then Bound(es, value, above, middle + 1, right)
      else Bound(es, value, above, left, middle)
  }

  ghost function Answer(es: seq<RangeEntry>, op: string, value: string): Option<seq<RangeEntry>> {
    if op == "!=" then Some(Choose(es, op, value))
    else if op == ">" then Some(es[Bound(es, value, true, 0, |es|)..])
    else if op == ">=" then Some(es[Bound(es, value, false, 0, |es|)..])
    else if op == "<" then Some(es[..Bound(es, value, false, 0, |es|)])
    else if op == "<=" then Some(es[..Bound(es, value, true, 0, |es|)])
    else None
  }

  /** No entry that is to stand behind the boundary comes before one that is to stand in front of it. */
  ghost predicate Partitioned(es: seq<RangeEntry>, value: string, above: bool) {
    forall i, j :: 0 <= i < j < |es| && Front(es[j], value, above) ==> Front(es[i], value, above)
  }

  ghost predicate Front(e: RangeEntry, value: string, above: bool) {
    var c := CompareValues(e.key, value);
    c < 0 || (above && c == 0)
  }

  lemma {:induction false} BoundStep(es: seq<RangeEntry>, value: string, above: bool, left: nat, right: nat)
    requires left <= right <= |es|
    ensures left == right ==> Bound(es, value, above, left, right) == left
    ensures left < right ==>
      var middle := left + (right - left) / 2;
      Bound(es, value, above, left, right) ==
        if Front(es[middle], value, above) then Bound(es, value, above, middle + 1, right)
        else Bound(es, value, above, left, middle)
  {
    hide Front;
  }

  /** Whatever the data, the search stops at a place where the two sides meet. */
  lemma {:induction false} BoundMeets(es: seq<RangeEntry>, value: string, above: bool, left: nat, right: nat)
    requires left <= right <= |es|
    requires left > 0 ==> Front(es[left - 1], value, above)
    requires right < |es| ==> !Front(es[right], value, above)
    ensures var k := Bound(es, value, above, left, right);
      (k > 0 ==> Front(es[k - 1], value, above)) && (k < |es| ==> !Front(es[k], value, above))
    decreases right - left
  {
    hide Front, Bound;
    BoundStep(es, value, above, left, right);
    if left < right {
      var middle := left + (right - left) / 2;
      if Front(es[middle], value, above) {
        BoundMeets(es, value, above, middle + 1, right);
      } else {
        BoundMeets(es, value, above, left, middle);
      }
    }
  }

  /** If the first k entries are chosen and no other, the choice is the first k entries. */
  lemma {:induction false} ChoosePrefix(es: seq<RangeEntry>, op: string, value: string, k: nat)
    requires k <= |es|
    requires forall i :: 0 <= i < |es| ==> (Matches(CompareValues(es[i].key, value), op) <==> i < k)
    ensures Choose(es, op, value) == es[..k]
  {
    if es != [] {
      var n := |es| - 1;
      ChoosePrefix(es[..n], op, value, if k <= n then k else n);
      assert es[..n] + [es[n]] == es;
      if k <= n {
        assert es[..n][..k] == es[..k];
      }
    } else {
      assert es[..k] == [];
    }
  }

  lemma {:induction false} ChooseSuffix(es: seq<RangeEntry>, op: string, value: string, k: nat)
    requires k <= |es|
    requires forall i :: 0 <= i < |es| ==> (Matches(CompareValues(es[i].key, value), op) <==> i >= k)
    ensures Choose(es, op, value) == es[k..]
  {
    if es != [] {
      var n := |es| - 1;
      ChooseSuffix(es[..n], op, value, if k <= n then k else n);
      if k <= n {
        assert es[..n][k..] + [es[n]] == es[k..];
      }
    } else {
      assert es[k..] == [];
    }
  }

  lemma {:induction false} ChooseIn(es: seq<RangeEntry>, op: string, value: string)
    ensures forall e :: e in Choose(es, op, value) ==> Matches(CompareValues(e.key, value), op)
    ensures forall e :: e in es && Matches(CompareValues(e.key, value), op) ==> e in Choose(es, op, value)
  {
    if es != [] {
      ChooseIn(es[..|es| - 1], op, value);
    }
  }

  ghost predicate Inclusive(op: string) {
    op == "<=" || op == ">"
  }

  ghost predicate Less(op: string) {
    op == "<" || op == "<="
  }

  lemma {:induction false} MatchesFront(op: string, e: RangeEntry, value: string)
    requires Ranges(op)
    ensures Matches(CompareValues(e.key, value), op) == (Front(e, value, Inclusive(op)) == Less(op))
  {
    hide CompareValues;
  }

  lemma {:induction false} PartitionedExact(es: seq<RangeEntry>, op: string, value: string)
    requires Ranges(op) && Partitioned(es, value, Inclusive(op))
    ensures Answer(es, op, value) == Some(Choose(es, op, value))
  {
    hide CompareValues, Matches, Bound, Front, Choose;
    var above := Inclusive(op);
    var k := Bound(es, value, above, 0, |es|);
    BoundMeets(es, value, above, 0, |es|);
    forall i | 0 <= i < |es| ensures Matches(CompareValues(es[i].key, value), op) <==> (i < k) == Less(op) {
      MatchesFront(op, es[i], value);
    }
    if Less(op) {
      ChoosePrefix(es, op, value, k);
    } else {
      ChooseSuffix(es, op, value, k);
    }
  }

  /** If one of two adjoining parts is the whole choice, all of it is chosen and nothing of the other. */
  lemma {:induction false} ChoiceIsPart(a: seq<RangeEntry>, b: seq<RangeEntry>, first: bool, op: string, value: string)
    requires Choose(a + b, op, value) == if first then a else b
    ensures forall i :: 0 <= i < |a| ==> (Matches(CompareValues(a[i].key, value), op) <==> first)
    ensures forall i :: 0 <= i < |b| ==> (Matches(CompareValues(b[i].key, value), op) <==> !first)
  {
    hide CompareValues, Matches, Choose;
    ChooseConcat(a, b, op, value);
    ChooseIn(a + b, op, value);
    ChooseIn(a, op, value);
    ChooseIn(b, op, value);
    var part := if first then a else b;
    forall i | 0 <= i < |part| ensures Matches(CompareValues(part[i].key, value), op) {
      assert part[i] in Choose(a + b, op, value);
    }
    ChoosePrefix(part, op, value, |part|);
    assert Choose(if first then b else a, op, value) == [];
  }

  lemma {:induction false} ExactPartitioned(es: seq<RangeEntry>, op: string, value: string, k: nat)
    requires Ranges(op) && k <= |es|
    requires Choose(es, op, value) == if Less(op) then es[..k] else es[k..]
    ensures Partitioned(es, value, Inclusive(op))
  {
    hide CompareValues, Matches, Front, Choose, Ranges, Less, Inclusive;
    assert es == es[..k] + es[k..];
    ChoiceIsPart(es[..k], es[k..], Less(op), op, value);
    forall i | 0 <= i < |es| ensures Front(es[i], value, Inclusive(op)) <==> i < k {
      MatchesFront(op, es[i], value);
      assert if i < k then es[..k][i] == es[i] else es[k..][i - k] == es[i];
    }
  }

  /** A range query answers exactly when the entries are partitioned by the value. */
  lemma {:induction false} AnswerExact(es: seq<RangeEntry>, op: string, value: string)
    requires Ranges(op)
    ensures Answer(es, op, value) == Some(Choose(es, op, value)) <==> Partitioned(es, value, Inclusive(op))
  {
    hide CompareValues, Matches, Bound, Front, Choose, Partitioned;
    if Partitioned(es, value, Inclusive(op)) {
      PartitionedExact(es, op, value);
    } else if Answer(es, op, value) == Some(Choose(es, op, value)) {
      ExactPartitioned(es, op, value, Bound(es, value, Inclusive(op), 0, |es|));
    }
  }

  lemma {:induction false} ChooseConcat(a: seq<RangeEntry>, b: seq<RangeEntry>, op: string, value: string)
    ensures Choose(a + b, op, value) == Choose(a, op, value) + Choose(b, op, value)
  {
    if b == [] {
      assert a + b == a;
    } else {
      ChooseConcat(a, b[..|b| - 1], op, value);
      assert (a + b)[..|a + b| - 1] == a + b[..|b| - 1];
    }
  }

  /** A remark: a query and its opposite cut the index at one place, so together they are the whole of it,
      whatever the data. */
  lemma {:induction false} AnswersComplement(es: seq<RangeEntry>, value: string)
    ensures Answer(es, "<", value).Some? && Answer(es, ">=", value).Some?
    ensures Answer(es, "<", value).value + Answer(es, ">=", value).value == es
    ensures Answer(es, "<=", value).Some? && Answer(es, ">", value).Some?
    ensures Answer(es, "<=", value).value + Answer(es, ">", value).value == es
  {
  }

  // ---------- All queries of a column ----------

  /** The query answers what a look at every entry would. */
  ghost predicate Exact(es: seq<RangeEntry>, op: string, value: string) {
    Answer(es, op, value) == Some(Choose(es, op, value))
  }

  /** Every range query for a value of the column is answered exactly. */
  ghost predicate AllExact(es: seq<RangeEntry>) {
    forall op, value :: Ranges(op) && value in KeysOf(es) ==> Exact(es, op, value)
  }

  ghost predicate AllPartitioned(es: seq<RangeEntry>) {
    forall value, above :: value in KeysOf(es) ==> Partitioned(es, value, above)
  }

  ghost predicate KeysOrdered(es: seq<RangeEntry>) {
    forall i, j :: 0 <= i < j < |es| ==> CompareValues(es[i].key, es[j].key) <= 0
  }

  lemma {:induction false} AllExactly(es: seq<RangeEntry>)
    ensures AllExact(es) <==> AllPartitioned(es)
  {
    hide Answer, Choose, Partitioned, KeysOf;
    forall op, value | Ranges(op) ensures Exact(es, op, value) <==> Partitioned(es, value, Inclusive(op)) {
      AnswerExact(es, op, value);
    }
    if AllExact(es) {
      forall value, above | value in KeysOf(es) ensures Partitioned(es, value, above) {
        assert Exact(es, if above then "<=" else "<", value);
      }
    }
  }

  /** Where the comparison is transitive, a value partitions the entries that are in its order. */
  lemma {:induction false} ConsistentPartitioned(es: seq<RangeEntry>, value: string, above: bool)
    requires KeysOrdered(es) && Consistent(KeysOf(es) + {value})
    ensures Partitioned(es, value, above)
  {
    hide CompareValues, Consistent;
    forall i, j | 0 <= i < j < |es| && Front(es[j], value, above) ensures Front(es[i], value, above) {
      assert es[i].key in KeysOf(es) && es[j].key in KeysOf(es);
      ConsistentAt(KeysOf(es) + {value}, es[i].key, es[j].key, value);
    }
  }

  lemma {:induction false} OrderedKeys(es: seq<RangeEntry>)
    requires Ordered(es)
    ensures KeysOrdered(es)
  {
    hide CompareValues;
    forall i, j | 0 <= i < j < |es| ensures CompareValues(es[i].key, es[j].key) <= 0 {
      assert CompareEntries(es[i], es[j]) <= 0;
    }
  }

  lemma {:induction false} CompareSelf(a: string)
    ensures CompareValues(a, a) == 0
  {
    hide CompareValues;
    CompareFlips(a, a);
  }

  /** Values that compare as equal do so transitively. */
  lemma {:induction false} TiesTransitive(a: string, b: string, c: string)
    requires CompareValues(a, b) == 0 && CompareValues(b, c) == 0
    ensures CompareValues(a, c) == 0
  {
    hide IsInteger, ParseInteger;
  }

  lemma {:induction false} PartitionedOrdered(es: seq<RangeEntry>)
    requires AllPartitioned(es)
    ensures KeysOrdered(es)
  {
    hide CompareValues;
    forall i, j | 0 <= i < j < |es| ensures CompareValues(es[i].key, es[j].key) <= 0 {
      var value := es[i].key;
      assert value in KeysOf(es);
      assert Partitioned(es, value, false);
      CompareFlips(es[j].key, value);
      CompareSelf(value);
    }
  }

  /** In partitioned entries the smaller of two values comes first. */
  lemma {:induction false} Before(es: seq<RangeEntry>, i: nat, j: nat)
    requires KeysOrdered(es) && i < |es| && j < |es| && CompareValues(es[i].key, es[j].key) < 0
    ensures i < j
  {
    hide CompareValues;
    CompareFlips(es[i].key, es[j].key);
    CompareSelf(es[i].key);
  }

  lemma {:induction false} PartitionedChains(es: seq<RangeEntry>, i: nat, j: nat, k: nat)
    requires AllPartitioned(es) && i < |es| && j < |es| && k < |es|
    ensures ChainsAt(es[i].key, es[j].key, es[k].key)
  {
    hide CompareValues;
    var x, y, z := es[i].key, es[j].key, es[k].key;
    PartitionedOrdered(es);
    CompareFlips(x, y);
    CompareFlips(y, z);
    CompareFlips(x, z);
    assert x in KeysOf(es) && z in KeysOf(es);
    assert Partitioned(es, x, false) && Partitioned(es, z, true);
    if CompareValues(x, y) <= 0 && CompareValues(y, z) <= 0 && CompareValues(x, z) > 0 {
      Before(es, k, i);
      if CompareValues(y, z) < 0 {
        Before(es, j, k);
        if CompareValues(x, y) < 0 {
          Before(es, i, j);
          assert false;
        }
        assert false;
      } else if CompareValues(x, y) < 0 {
        Before(es, i, j);
        assert false;
      } else {
        TiesTransitive(x, y, z);
        assert false;
      }
    }
  }

  /** The values of a column partition its entries, every one of them at both bounds, exactly if the comparison
      is transitive on the values and the entries are in its order. */
  lemma {:induction false} PartitionedExactly(es: seq<RangeEntry>)
    ensures AllPartitioned(es) <==> KeysOrdered(es) && Consistent(KeysOf(es))
  {
    hide CompareValues, Partitioned, ChainsAt;
    if AllPartitioned(es) {
      PartitionedOrdered(es);
      forall x, y, z | x in KeysOf(es) && y in KeysOf(es) && z in KeysOf(es) ensures ChainsAt(x, y, z) {
        var i :| 0 <= i < |es| && es[i].key == x;
        var j :| 0 <= j < |es| && es[j].key == y;
        var k :| 0 <= k < |es| && es[k].key == z;
        PartitionedChains(es, i, j, k);
      }
    }
    if KeysOrdered(es) && Consistent(KeysOf(es)) {
      forall value, above | value in KeysOf(es) ensures Partitioned(es, value, above) {
        assert KeysOf(es) + {value} == KeysOf(es);
        ConsistentPartitioned(es, value, above);
      }
    }
  }

  /** All range queries for values of a column are answered exactly if and only if the comparison is transitive
      on the values and the entries are in its order. */
  lemma {:induction false} RangesExact(es: seq<RangeEntry>)
    ensures AllExact(es) <==> KeysOrdered(es) && Consistent(KeysOf(es))
  {
    hide AllExact, AllPartitioned, KeysOrdered, Consistent, KeysOf;
    AllExactly(es);
    PartitionedExactly(es);
  }

  // ---------- Choices ----------

  /** A choice from a permuted index is a permutation of the choice. */
  lemma {:induction false} ChooseCounts(es: seq<RangeEntry>, op: string, value: string, e: RangeEntry)
    ensures multiset(Choose(es, op, value))[e] ==
      if Matches(CompareValues(e.key, value), op) then multiset(es)[e] else 0
  {
    if es != [] {
      ChooseCounts(es[..|es| - 1], op, value, e);
      assert es == es[..|es| - 1] + [es[|es| - 1]];
    }
  }

  lemma {:induction false} ChoosePermutes(a: seq<RangeEntry>, b: seq<RangeEntry>, op: string, value: string)
    requires multiset(a) == multiset(b)
    ensures multiset(Choose(a, op, value)) == multiset(Choose(b, op, value))
  {
    forall e ensures multiset(Choose(a, op, value))[e] == multiset(Choose(b, op, value))[e] {
      ChooseCounts(a, op, value, e);
      ChooseCounts(b, op, value, e);
    }
  }

  lemma {:induction false} ChooseOrdered(es: seq<RangeEntry>, op: string, value: string)
    requires Ordered(es)
    ensures Ordered(Choose(es, op, value))
  {
    if es != [] {
      var n := |es| - 1;
      ChooseOrdered(es[..n], op, value);
      ChooseWithin(es[..n], op, value);
      assert forall x :: x in es[..n] ==> CompareEntries(x, es[n]) <= 0;
    }
  }

  lemma {:induction false} ChooseWithin(es: seq<RangeEntry>, op: string, value: string)
    ensures forall e :: e in Choose(es, op, value) ==> e in es
  {
    if es != [] {
      ChooseWithin(es[..|es| - 1], op, value);
    }
  }

  // ---------- Mixed data ----------

  /** The first entry with one of these values. */
  lemma {:induction false} FirstOf(es: seq<RangeEntry>, keys: set<string>) returns (i: nat)
    requires exists j :: 0 <= j < |es| && es[j].key in keys
    ensures i < |es| && es[i].key in keys && forall j :: 0 <= j < i ==> es[j].key !in keys
  {
    if es[0].key in keys {
      i := 0;
    } else {
      var j :| 0 <= j < |es| && es[j].key in keys;
      assert es[1..][j - 1] == es[j];
      i := FirstOf(es[1..], keys);
      i := i + 1;
      forall k | 0 <= k < i ensures es[k].key !in keys {
        assert k > 0 ==> es[k] == es[1..][k - 1];
      }
    }
  }

  /** Where three values stand in a circle, the entries are not ordered and a query for one of the three is
      answered wrongly, however the entries are arranged. */
  lemma {:induction false} MixedFails(es: seq<RangeEntry>, x: string, y: string, z: string)
    requires x in KeysOf(es) && y in KeysOf(es) && z in KeysOf(es)
    requires CompareValues(x, y) < 0 && CompareValues(y, z) < 0 && CompareValues(z, x) < 0
    ensures !Ordered(es)
    ensures exists value :: value in {x, y, z} && !Exact(es, "<", value)
  {
    hide CompareValues, Exact;
    var first := FirstOf(es, {x, y, z});
    var value := es[first].key;
    var before := if value == x then z else if value == y then x else y;
    var j :| 0 <= j < |es| && es[j].key == before;
    CompareSelf(value);
    CompareFlips(before, value);
    assert first < j;
    assert CompareEntries(es[first], es[j]) > 0;
    assert Front(es[j], value, false) && !Front(es[first], value, false);
    AnswerExact(es, "<", value);
    assert !Exact(es, "<", value) by { NotExact(es, "<", value); }
  }

  lemma NotExact(es: seq<RangeEntry>, op: string, value: string)
    requires Answer(es, op, value) != Some(Choose(es, op, value))
    ensures !Exact(es, op, value)
  {
  }

  /** Such a circle: "2" and "10" compare as numbers, each of them and "1a" as strings. */
  lemma MixedCycle()
    ensures CompareValues("2", "10") == -1 && CompareValues("10", "1a") == -1 && CompareValues("1a", "2") == -1
    ensures CompareValues("10", "2") == 1 && CompareValues("1a", "10") == 1 && CompareValues("2", "1a") == 1
    ensures !Separated({"2", "10", "1a"})
  {
    assert IsInteger("2") && IsInteger("10");
    assert "10"[..1] == "1" && "2"[..0] == "" && "1"[..0] == "";
    assert Magnitude("2") == 2 && Magnitude("1") == 1 && Magnitude("10") == 10;
    assert !IsDigit("1a"[1]);
    assert !SeparatesAt("10", "2", "1a");
  }
}
