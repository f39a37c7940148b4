/** What the queries of the temporary index select, in the words of `Reference`. */
module IndexLaws {
  import opened Text
  import opened TableModel
  import opened RangeOrder
  import opened Index
  import opened Reference
  import opened TextLaws

  /** These are the entries at these places, in order. */
  ghost predicate TakenAt(taken: seq<RangeEntry>, es: seq<RangeEntry>, at: seq<nat>) {
    && |taken| == |at|
    && (forall i :: 0 <= i < |at| ==> at[i] < |es| && taken[i] == es[at[i]])
    && (forall i, j :: 0 <= i < j < |at| ==> at[i] < at[j])
  }

  lemma {:induction false} TakenMore(taken: seq<RangeEntry>, es: seq<RangeEntry>, at: seq<nat>)
    requires es != [] && TakenAt(taken, es[..|es| - 1], at)
    ensures TakenAt(taken, es, at) && TakenAt(taken + [es[|es| - 1]], es, at + [|es| - 1])
  {
  }

  /** A choice consists of exactly the entries that satisfy the condition, in order. */
  lemma {:induction false} ChooseExact(es: seq<RangeEntry>, op: string, value: string) returns (at: seq<nat>)
    ensures TakenAt(Choose(es, op, value), es, at)
    ensures forall k :: 0 <= k < |es| ==> (k in at <==> Satisfies(es[k].key, op, value))
  {
    hide Matches, CompareValues, Satisfies;
    if es == [] {
      at := [];
    } else {
      var n := |es| - 1;
      at := ChooseExact(es[..n], op, value);
      TakenMore(Choose(es[..n], op, value), es, at);
      MatchesExact(es[n].key, op, value);
      assert n !in at;
      if Satisfies(es[n].key, op, value) {
        at := at + [n];
      }
    }
  }

  /** The hash chains select exactly the entries of this very key, in order. */
  lemma {:induction false} EqualExact(es: seq<RangeEntry>, value: string) returns (at: seq<nat>)
    ensures |EqualTo(es, value)| == |at| && forall i, j :: 0 <= i < j < |at| ==> at[i] < at[j]
    ensures forall i :: 0 <= i < |at| ==> at[i] < |es| && EqualTo(es, value)[i] == es[at[i]].offset
    ensures forall k :: 0 <= k < |es| ==> (k in at <==> es[k].key == value)
  {
    if es == [] {
      at := [];
    } else {
      var n := |es| - 1;
      at := EqualExact(es[..n], value);
      assert n !in at;
      if es[n].key == value {
        at := at + [n];
      }
    }
  }

  /** The order of a range index: by value, and among equal values by offset. */
  lemma {:induction false} OrderedExact(es: seq<RangeEntry>)
    ensures Ordered(es) <==> forall i, j :: 0 <= i < j < |es| ==>
      Below(es[i].key, es[j].key) || (Equal(es[i].key, es[j].key) && es[i].offset <= es[j].offset)
  {
    hide CompareValues, Below, Equal;
    forall i, j | 0 <= i < j < |es|
      ensures CompareEntries(es[i], es[j]) <= 0 <==>
        Below(es[i].key, es[j].key) || (Equal(es[i].key, es[j].key) && es[i].offset <= es[j].offset)
    {
      CompareExact(es[i].key, es[j].key);
    }
  }

  /** 33 times what is before, plus the character, from 5381 on. */
  ghost function Polynomial(text: string): nat {
    if text == "" then 5381 else Polynomial(text[..|text| - 1]) * 33 + text[|text| - 1] as int
  }

  /** The hash is this polynomial modulo 2^64. */
  lemma {:induction false} HashExact(text: string)
    ensures Hash(text) == Polynomial(text) % 18446744073709551616
  {
    if text != "" {
      HashExact(text[..|text| - 1]);
      Remainder(Polynomial(text[..|text| - 1]), text[|text| - 1] as int);
    }
  }

  lemma Remainder(p: nat, c: nat)
    ensures ((p % 18446744073709551616) * 33 + c) % 18446744073709551616 == (p * 33 + c) % 18446744073709551616
  {
    var m := 18446744073709551616;
    assert p == m * (p / m) + p % m;
    assert p * 33 + c == m * (33 * (p / m)) + ((p % m) * 33 + c);
  }
}
