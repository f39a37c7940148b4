/** The tokenizer and its cache of recent statements, a linked list with the latest one at its head. */
module TokenCache {
  import opened Text
  import opened Options
  import opened Lexer

  const CACHE_LIMIT := 64

  /** The tokens of a statement: white space around it does not matter, and there must be something left. */
  ghost function Meaning(sql: string): Option<seq<Token>> {
    if Trimmed(sql) == "" || Lex(Trimmed(sql)).Refused? then None else Some(Lex(Trimmed(sql)).tokens)
  }

  // ---------- Recency ----------

  ghost function Without(list: seq<string>, sql: string): seq<string> {
    if list == [] then []
    else if list[0] == sql then Without(list[1..], sql)
    else [list[0]] + Without(list[1..], sql)
  }

  /** The distinct statements of a history that lexed, the latest use first. */
  ghost function Recent(history: seq<string>): seq<string> {
    if history == [] then []
    else
      var last := history[|history| - 1];
      var before := Recent(history[..|history| - 1]);
      if last != "" && Lex(last).Tokens? then [last] + Without(before, last) else before
  }

  ghost function Limit(list: seq<string>): seq<string> {
    if |list| <= 64 then list else list[..64]
  }

  ghost predicate Unique(list: seq<string>) {
    forall i, j :: 0 <= i < j < |list| ==> list[i] != list[j]
  }

  lemma {:induction false} WithoutFacts(list: seq<string>, sql: string)
    ensures |Without(list, sql)| <= |list|
    ensures forall x :: x in Without(list, sql) <==> x in list && x != sql
    ensures Unique(list) ==> Unique(Without(list, sql))
    ensures sql !in list ==> Without(list, sql) == list
  {
    if list != [] {
      WithoutFacts(list[1..], sql);
      if Unique(list) {
        assert list[0] !in list[1..];
        assert Unique(list[1..]);
      }
    }
  }

  /** Taking one statement out of a list where it stands at this place. */
  lemma {:induction false} WithoutAt(list: seq<string>, i: nat)
    requires i < |list| && Unique(list)
    ensures Without(list, list[i]) == list[..i] + list[i + 1..]
  {
    if i == 0 {
      WithoutFacts(list[1..], list[0]);
      assert list[0] !in list[1..];
    } else {
      WithoutAt(list[1..], i - 1);
      assert list[0] != list[i];
      assert list[1..][..i - 1] == list[1..i] && list[1..][i..] == list[i + 1..];
      assert [list[0]] + list[1..i] == list[..i];
    }
  }

  lemma {:induction false} RecentUnique(history: seq<string>)
    ensures Unique(Recent(history))
  {
    hide Lex;
    if history != [] {
      RecentUnique(history[..|history| - 1]);
      WithoutFacts(Recent(history[..|history| - 1]), history[|history| - 1]);
    }
  }

  /** A list of recent statements holds each that was used and lexed once, and a later used one before an earlier. */
  lemma {:induction false} RecentMeaning(history: seq<string>)
    ensures var list := Recent(history);
      && Unique(list)
      && (forall x :: x in list <==> x in history && x != "" && Lex(x).Tokens?)
      && (forall i, j :: 0 <= i < j < |list| ==> UsedLater(history, list[i], list[j]))
  {
    hide Lex, UsedLater;
    RecentUnique(history);
    if history != [] {
      var n := |history| - 1;
      var front, last := history[..n], history[n];
      RecentMeaning(front);
      WithoutOrder(front, Recent(front), last);
      assert history == front + [last];
      var rest, list := Without(Recent(front), last), Recent(history);
      forall i, j | 0 <= i < j < |list| ensures UsedLater(history, list[i], list[j]) {
        if list == [last] + rest {
          assert list[j] == rest[j - 1] && rest[j - 1] in rest;
          if i == 0 {
            LaterNow(front, last, list[j]);
          } else {
            assert list[i] == rest[i - 1];
            LaterStays(front, last, list[i], list[j]);
          }
        } else {
          assert list[j] in Recent(front);
          LaterStays(front, last, list[i], list[j]);
        }
      }
    }
  }

  /** One statement was used at a time from which on another was not. */
  ghost predicate UsedLater(history: seq<string>, x: string, y: string) {
    exists k :: 0 <= k < |history| && history[k] == x && y !in history[k..]
  }

  lemma {:induction false} LaterStays(front: seq<string>, last: string, x: string, y: string)
    requires UsedLater(front, x, y) && y != last
    ensures UsedLater(front + [last], x, y)
  {
    var k :| 0 <= k < |front| && front[k] == x && y !in front[k..];
    assert (front + [last])[k..] == front[k..] + [last];
  }

  lemma {:induction false} LaterNow(front: seq<string>, last: string, y: string)
    requires y != last
    ensures UsedLater(front + [last], last, y)
  {
    assert (front + [last])[|front|..] == [last];
  }

  lemma {:induction false} WithoutOrder(history: seq<string>, list: seq<string>, sql: string)
    requires forall i, j :: 0 <= i < j < |list| ==> UsedLater(history, list[i], list[j])
    ensures var rest := Without(list, sql);
      && (forall x :: x in rest <==> x in list && x != sql)
      && (forall i, j :: 0 <= i < j < |rest| ==> UsedLater(history, rest[i], rest[j]))
  {
    hide UsedLater;
    WithoutFacts(list, sql);
    if list != [] {
      var tail := list[1..];
      var more := Without(tail, sql);
      forall i, j | 0 <= i < j < |tail| ensures UsedLater(history, tail[i], tail[j]) {
        assert tail[i] == list[i + 1] && tail[j] == list[j + 1];
      }
      WithoutOrder(history, tail, sql);
      forall j | 0 <= j < |more| ensures UsedLater(history, list[0], more[j]) {
        assert more[j] in tail;
        var k :| 0 <= k < |tail| && tail[k] == more[j];
        assert tail[k] == list[k + 1];
      }
      var rest := Without(list, sql);
      forall i, j | 0 <= i < j < |rest| ensures UsedLater(history, rest[i], rest[j]) {
        if list[0] != sql {
          assert rest[j] == more[j - 1];
          if i > 0 {
            assert rest[i] == more[i - 1];
          }
        }
      }
    }
  }

  /** Moving a statement to the front of the shortened list is as good as moving it in the full one. */
  lemma {:induction false} LimitTouch(list: seq<string>, sql: string)
    requires Unique(list)
    ensures Limit([sql] + Without(Limit(list), sql)) == Limit([sql] + Without(list, sql))
  {
    hide Without, Unique;
    if |list| > CACHE_LIMIT {
      var short := list[..CACHE_LIMIT];
      FrontIsUnique(list, CACHE_LIMIT);
      WithoutFacts(list, sql);
      WithoutFacts(short, sql);
      if i :| 0 <= i < CACHE_LIMIT && list[i] == sql {
        WithoutAt(list, i);
        WithoutAt(short, i);
        assert short[i + 1..] == list[i + 1..CACHE_LIMIT];
        assert (list[..i] + list[i + 1..])[..CACHE_LIMIT - 1] == short[..i] + short[i + 1..];
      } else if i :| 0 <= i < |list| && list[i] == sql {
        WithoutAt(list, i);
        assert (list[..i] + list[i + 1..])[..CACHE_LIMIT - 1] == short[..CACHE_LIMIT - 1];
      }
    }
  }

  lemma {:induction false} FrontIsUnique(list: seq<string>, n: nat)
    requires Unique(list) && n <= |list|
    ensures Unique(list[..n])
  {
  }

  // ---------- The list ----------

  class CacheEntry {
    const sql: string
    const tokens: seq<Token>
    var next: CacheEntry?

    constructor (sql: string, tokens: seq<Token>, next: CacheEntry?)
      ensures this.sql == sql && this.tokens == tokens && this.next == next
    {
      this.sql := sql;
      this.tokens := tokens;
      this.next := next;
    }
  }

  ghost function EntryAt(entries: seq<CacheEntry>, i: nat): CacheEntry? {
    if i < |entries| then entries[i] else null
  }

  /** These are the entries of the list, from its head to its end. */
  ghost predicate Linked(head: CacheEntry?, entries: seq<CacheEntry>)
    reads entries
  {
    && head == EntryAt(entries, 0)
    && forall i :: 0 <= i < |entries| ==> LinkAt(entries, i)
  }

  ghost predicate LinkAt(entries: seq<CacheEntry>, i: nat)
    requires i < |entries|
    reads entries
  {
    entries[i].next == EntryAt(entries, i + 1)
  }

  ghost function Keys(entries: seq<CacheEntry>): (keys: seq<string>)
    ensures |keys| == |entries| && forall i :: 0 <= i < |keys| ==> keys[i] == entries[i].sql
  {
    seq(|entries|, i requires 0 <= i < |entries| => entries[i].sql)
  }

  ghost predicate AllLexed(entries: seq<CacheEntry>) {
    forall i :: 0 <= i < |entries| ==> entries[i].tokens != [] && Lex(entries[i].sql) == Tokens(entries[i].tokens)
  }

  class Tokenizer {
    var head: CacheEntry?
    var entryCount: int
    var hitCount: int
    ghost var entries: seq<CacheEntry>
    ghost var history: seq<string>
    ghost var frame: set<object>

    ghost predicate Listed()
      reads this, entries
    {
      Linked(head, entries) && entryCount == |entries| && Unique(Keys(entries)) && AllLexed(entries)
    }

    /** The list holds the latest distinct statements of the history, at most 64, in order of their last use. */
    ghost predicate Valid()
      reads this, frame
    {
      && this in frame && (forall e :: e in entries ==> e in frame)
      && Listed() && Keys(entries) == Limit(Recent(history))
    }

    constructor ()
      ensures Valid() && history == [] && frame == {this}
    {
      head, entryCount, hitCount, entries, history, frame := null, 0, 0, [], [], {this};
    }

    lemma ListedUnique()
      requires Listed()
      ensures Unique(Keys(entries))
    {
    }

    /** Forgets the last entry of the list. */
    method EvictOldest()
      requires Listed() && entries != []
      modifies this`head, this`entryCount, this`entries, entries
      ensures Listed() && entries == old(entries)[..|old(entries)| - 1]
    {
      hide AllLexed, Unique;
      ghost var before := entries;
      var previous: CacheEntry? := null;
      var entry := head;
      ghost var i := 0;
      assert LinkAt(entries, 0);
      while entry.next != null
        invariant 0 <= i < |entries| && entry == entries[i] && LinkAt(entries, i)
        invariant previous == if i == 0 then null else entries[i - 1]
        decreases |entries| - i
      {
        assert LinkAt(entries, i + 1);
        previous := entry;
        entry := entry.next;
        i := i + 1;
      }
      FrontListed(entries, i);
      entries := entries[..i];
      if previous == null {
        head := null;
      } else {
        previous.next := null;
      }
      entryCount := entryCount - 1;
      forall k | 0 <= k < |entries| ensures LinkAt(entries, k) {
        assert old(LinkAt(before, k));
      }
    }

    /** The tokens of a statement in the list, which becomes its head. */
    method Lookup(sql: string) returns (tokens: Option<seq<Token>>)
      requires Listed()
      modifies this`head, this`hitCount, this`entries, entries
      ensures Listed() && (tokens.Some? <==> sql in old(Keys(entries)))
      ensures tokens.Some? ==>
        Lex(sql) == Tokens(tokens.value) && Keys(entries) == [sql] + Without(old(Keys(entries)), sql)
      ensures tokens.Some? ==> hitCount == old(hitCount) + 1 && forall e :: e in entries ==> e in old(entries)
      ensures tokens == None ==> entries == old(entries) && hitCount == old(hitCount)
    {
      hide Lex, Unique, Without, AllLexed, Linked;
      ghost var i;
      var previous, entry;
      previous, entry, i := FindEntry(sql);
      if entry == null {
        return None;
      }
      KeysMoved(entries, i);
      hitCount := hitCount + 1;
      if previous != null {
        MoveToFront(previous, entry, i);
      }
      return Some(entry.tokens);
    }

    /** The first entry with this text, and the one before it. */
    method FindEntry(sql: string) returns (previous: CacheEntry?, entry: CacheEntry?, ghost i: nat)
      requires Listed()
      ensures i <= |entries| && entry == EntryAt(entries, i)
      ensures previous == if i == 0 then null else entries[i - 1]
      ensures entry == null ==> sql !in Keys(entries)
      ensures entry != null ==> entry.sql == sql
    {
      hide AllLexed, Unique;
      previous, entry, i := null, head, 0;
      while entry != null && entry.sql != sql
        invariant 0 <= i <= |entries| && entry == EntryAt(entries, i)
        invariant previous == if i == 0 then null else entries[i - 1]
        invariant forall j :: 0 <= j < i ==> entries[j].sql != sql
        decreases |entries| - i
      {
        assert LinkAt(entries, i);
        previous := entry;
        entry := entry.next;
        i := i + 1;
      }
    }

    method MoveToFront(previous: CacheEntry, entry: CacheEntry, ghost i: nat)
      requires Listed() && 0 < i < |entries| && entry == entries[i] && previous == entries[i - 1]
      modifies this`head, this`entries, previous`next, entry`next
      ensures Listed() && entries == [entry] + (old(entries)[..i] + old(entries)[i + 1..])
    {
      hide AllLexed, Unique;
      ghost var before := entries;
      FrontUnique(before, i);
      DistinctEntries(before);
      assert LinkAt(before, i);
      previous.next := entry.next;
      entry.next := head;
      head := entry;
      entries := [entry] + (before[..i] + before[i + 1..]);
      forall k | 0 <= k < |entries| ensures LinkAt(entries, k) {
        if k > 0 {
          assert old(LinkAt(before, if k <= i then k - 1 else k));
        }
      }
    }

    /** Puts a statement at the head of the list, and drops the oldest one if there are too many. */
    method Store(sql: string, tokens: seq<Token>)
      requires Listed() && sql !in Keys(entries) && tokens != [] && Lex(sql) == Tokens(tokens)
      requires |entries| <= CACHE_LIMIT
      modifies this`head, this`entryCount, this`entries, entries
      ensures Listed() && Keys(entries) == Limit([sql] + old(Keys(entries)))
      ensures forall e :: e in entries ==> e in old(entries) || fresh(e)
    {
      hide Lex, AllLexed, Unique;
      ghost var before := entries;
      var entry := new CacheEntry(sql, tokens, head);
      OneMore(entry, entries);
      head := entry;
      entryCount := entryCount + 1;
      entries := [entry] + entries;
      forall k | 0 <= k < |entries| ensures LinkAt(entries, k) {
        if k > 0 {
          assert old(LinkAt(before, k - 1));
        }
      }
      if entryCount > CACHE_LIMIT {
        EvictOldest();
      }
    }

    /** The tokens of a statement. The cache does not show: whatever was asked before, they are what lexing the
        trimmed text gives. */
    method Tokenize(sql: string) returns (tokens: Option<seq<Token>>)
      requires Valid() && '\0' !in sql
      modifies frame
      ensures Valid() && tokens == Meaning(sql) && history == old(history) + [Trimmed(sql)]
      ensures fresh(frame - old(frame))
    {
      hide Lex, Listed, Recent, Limit, Touched, Trimmed;
      var text := Working(sql);
      TrimmedStart(sql);
      RecentStep(history, text);
      tokens := TokenizeText(text);
      Remember(text);
    }

    ghost method Remember(text: string)
      requires Listed()
      modifies this`history, this`frame
      ensures Listed() && history == old(history) + [text]
      ensures frame == old(frame) + set e | e in entries :: e as object
    {
      hide AllLexed, Linked, Unique;
      history := history + [text];
      frame := frame + set e | e in entries :: e as object;
    }

    method TokenizeText(text: string) returns (tokens: Option<seq<Token>>)
      requires Listed() && |entries| <= CACHE_LIMIT && (text == "" || !IsSpace(text[0])) && "" !in Keys(entries)
      modifies this`head, this`entryCount, this`hitCount, this`entries, entries
      ensures Listed() && Keys(entries) == Touched(old(Keys(entries)), text)
      ensures tokens == if text == "" || Lex(text).Refused? then None else Some(Lex(text).tokens)
      ensures forall e :: e in entries ==> e in old(entries) || fresh(e)
    {
      hide Lex, Listed, Without;
      if text == "" {
        return None;
      }
      assert Unique(Keys(entries)) by {
        ListedUnique();
      }
      TouchedKeys(entries, text);
      tokens := Lookup(text);
      if tokens.Some? {
        return;
      }
      var lexed := TokenizeSql(text);
      if lexed.Refused? {
        return None;
      }
      StoredTokens(text);
      Store(text, lexed.tokens);
      return Some(lexed.tokens);
    }
  }

  lemma {:induction false} TrimmedStart(sql: string)
    ensures Trimmed(sql) == "" || !IsSpace(Trimmed(sql)[0])
  {
  }

  /** The list after one more use of a statement. */
  ghost function Touched(list: seq<string>, sql: string): seq<string> {
    if sql != "" && Lex(sql).Tokens? then Limit([sql] + Without(list, sql)) else list
  }

  lemma {:induction false} TouchedKeys(entries: seq<CacheEntry>, sql: string)
    requires Unique(Keys(entries)) && |entries| <= CACHE_LIMIT
    ensures var list := Keys(entries);
      && (sql !in list ==> Without(list, sql) == list)
      && (sql in list ==> Limit([sql] + Without(list, sql)) == [sql] + Without(list, sql))
  {
    hide Unique, Without;
    var list := Keys(entries);
    WithoutFacts(list, sql);
    if sql in list {
      var i :| 0 <= i < |list| && list[i] == sql;
      WithoutAt(list, i);
    }
  }

  lemma {:induction false} OneMore(entry: CacheEntry, entries: seq<CacheEntry>)
    requires Unique(Keys(entries)) && AllLexed(entries) && entry.sql !in Keys(entries)
    requires entry.tokens != [] && Lex(entry.sql) == Tokens(entry.tokens)
    ensures Unique(Keys([entry] + entries)) && AllLexed([entry] + entries)
    ensures Keys([entry] + entries) == [entry.sql] + Keys(entries)
  {
    hide Lex;
    assert Keys([entry] + entries) == [entry.sql] + Keys(entries);
  }

  lemma {:induction false} KeysMoved(entries: seq<CacheEntry>, i: nat)
    requires Unique(Keys(entries)) && AllLexed(entries) && i < |entries|
    ensures Lex(entries[i].sql) == Tokens(entries[i].tokens) && entries[i].sql in Keys(entries)
    ensures Keys([entries[i]] + (entries[..i] + entries[i + 1..])) ==
      [entries[i].sql] + Without(Keys(entries), entries[i].sql)
    ensures i == 0 ==> [entries[i]] + (entries[..i] + entries[i + 1..]) == entries
  {
    hide Lex, Unique, Without;
    assert Keys(entries)[i] == entries[i].sql;
    WithoutAt(Keys(entries), i);
  }

  lemma {:induction false} FrontListed(entries: seq<CacheEntry>, n: nat)
    requires Unique(Keys(entries)) && AllLexed(entries) && n <= |entries|
    ensures Unique(Keys(entries[..n])) && AllLexed(entries[..n]) && Keys(entries[..n]) == Keys(entries)[..n]
    ensures forall i, j :: 0 <= i < j < |entries| ==> entries[i] != entries[j]
  {
    hide Lex;
    DistinctEntries(entries);
  }

  /** A copy of the statement without the white space around it. */
  method Working(sql: string) returns (text: string)
    requires '\0' !in sql
    ensures text == Trimmed(sql)
  {
    var buffer := new char[|sql| + 1](i requires 0 <= i => if i < |sql| then sql[i] else '\0');
    assert buffer[..] == sql + ['\0'];
    CStringIs(buffer[..], |sql|);
    assert buffer[..][|sql|] == '\0';
    Trim(buffer);
    return CString(buffer[..]);
  }

  /** What one more statement does to the shortened list of recent ones. */
  lemma {:induction false} RecentStep(history: seq<string>, sql: string)
    ensures |Limit(Recent(history))| <= CACHE_LIMIT && "" !in Limit(Recent(history))
    ensures Limit(Recent(history + [sql])) == Touched(Limit(Recent(history)), sql)
  {
    hide Lex, Unique, Without;
    assert (history + [sql])[..|history|] == history;
    RecentUnique(history);
    RecentLexed(history);
    LimitTouch(Recent(history), sql);
    var list := Limit(Recent(history));
    assert list <= Recent(history);
    assert forall x :: x in list ==> x in Recent(history);
  }

  lemma {:induction false} RecentLexed(history: seq<string>)
    ensures forall x :: x in Recent(history) ==> x != "" && Lex(x).Tokens?
    ensures "" !in Recent(history)
  {
    hide Lex;
    if history != [] {
      RecentLexed(history[..|history| - 1]);
      WithoutFacts(Recent(history[..|history| - 1]), history[|history| - 1]);
    }
  }

  /** A text that does not start with white space has at least one token. */
  lemma {:induction false} StoredTokens(text: string)
    requires text != "" && !IsSpace(text[0]) && Lex(text).Tokens?
    ensures Lex(text).tokens != []
  {
  }

  lemma {:induction false} DistinctEntries(entries: seq<CacheEntry>)
    requires Unique(Keys(entries))
    ensures forall i, j :: 0 <= i < j < |entries| ==> entries[i] != entries[j]
  {
    forall i, j | 0 <= i < j < |entries| ensures entries[i] != entries[j] {
      assert Keys(entries)[i] != Keys(entries)[j];
    }
  }

  lemma {:induction false} FrontUnique(entries: seq<CacheEntry>, i: nat)
    requires Unique(Keys(entries)) && AllLexed(entries) && i < |entries|
    ensures var moved := [entries[i]] + (entries[..i] + entries[i + 1..]); Unique(Keys(moved)) && AllLexed(moved)
  {
    hide Lex;
    var moved := [entries[i]] + (entries[..i] + entries[i + 1..]);
    forall k, l | 0 <= k < l < |moved| ensures Keys(moved)[k] != Keys(moved)[l] {
      var k' := if k == 0 then i else if k <= i then k - 1 else k;
      var l' := if l <= i then l - 1 else l;
      assert moved[k] == entries[k'] && moved[l] == entries[l'];
      assert Keys(entries)[k'] != Keys(entries)[l'];
    }
  }
}
