/** Statements from tokens. The parser accepts exactly the token lists that a printer of statements makes. */
module Parser {
  import opened Options
  import opened Sql
  import opened Lexer

  // ---------- The grammar ----------

  const LPAREN := Token(LParen, "(")
  const RPAREN := Token(RParen, ")")
  const COMMA := Token(Comma, ",")
  const SEMICOLON := Token(Semicolon, ";")
  const STAR := Token(Identifier, "*")

  function Word(keyword: string): Token {
    Token(Keyword, keyword)
  }

  /** What a token of a list may be: a literal, or a name. */
  predicate IsItem(t: Token, literal: bool) {
    if literal then (t.kind == IntLiteral || t.kind == StrLiteral) && |t.value| < MAX_VALUE_LEN
    else t.kind == Identifier && |t.value| < MAX_IDENTIFIER_LEN
  }

  ghost function Take(ts: seq<Token>, token: Token): (r: Option<seq<Token>>)
    ensures r.Some? <==> ts != [] && ts[0] == token
    ensures r.Some? ==> ts == [token] + r.value
  {
    if ts != [] && ts[0] == token then Some(ts[1..]) else None
  }

  ghost function TakeItem(ts: seq<Token>, literal: bool): Option<(string, seq<Token>)> {
    if ts != [] && IsItem(ts[0], literal) then Some((ts[0].value, ts[1..])) else None
  }

  /** Items separated by commas, as many as there are; behind a comma at the very end none is missed. */
  ghost function List(ts: seq<Token>, room: nat, literal: bool): Option<(seq<string>, seq<Token>)> {
    if ts == [] then Some(([], []))
    else if room == 0 || !IsItem(ts[0], literal) then None
    else if |ts| > 1 && ts[1] == COMMA then Prepend([ts[0].value], List(ts[2..], room - 1, literal))
    else Some(([ts[0].value], ts[1..]))
  }

  ghost function Prepend(front: seq<string>, r: Option<(seq<string>, seq<Token>)>): Option<(seq<string>, seq<Token>)> {
    if r.Some? then Some((front + r.value.0, r.value.1)) else None
  }

  ghost function Condition(ts: seq<Token>): Option<(WhereClause, seq<Token>)> {
    var (column, ts1) :- TakeItem(ts, false);
    if ts1 == [] || ts1[0].kind != Operator || |ts1[0].value| >= 4 then None
    else
      var (value, ts2) :- TakeItem(ts1[1..], true);
      Some((WhereClause(column, ts1[0].value, value), ts2))
  }

  ghost function OptionalWhere(ts: seq<Token>): Option<(Option<WhereClause>, seq<Token>)> {
    if ts != [] && ts[0] == Word("WHERE") then
      var (where, rest) :- Condition(ts[1..]);
      Some((Some(where), rest))
    else Some((None, ts))
  }

  ghost predicate AtEnd(ts: seq<Token>) {
    ts == [] || ts == [SEMICOLON]
  }

  /** What follows the columns of an INSERT. */
  ghost function ValuesPart(ts: seq<Token>): Option<(seq<string>, seq<Token>)> {
    var ts1 :- TakeValues(ts);
    var (values, ts2) :- List(ts1, MAX_COLUMNS, true);
    var ts3 :- Take(ts2, RPAREN);
    Some((values, ts3))
  }

  ghost function TakeValues(ts: seq<Token>): Option<seq<Token>> {
    var ts1 :- Take(ts, RPAREN);
    var ts2 :- Take(ts1, Word("VALUES"));
    Take(ts2, LPAREN)
  }

  ghost function InsertInto(ts: seq<Token>): Option<(string, seq<Token>)> {
    var ts1 :- Take(ts, Word("INSERT"));
    var ts2 :- Take(ts1, Word("INTO"));
    var (table, ts3) :- TakeItem(ts2, false);
    var ts4 :- Take(ts3, LPAREN);
    Some((table, ts4))
  }

  ghost function ParseInsert(ts: seq<Token>): Option<Statement> {
    var (table, ts1) :- InsertInto(ts);
    var (columns, ts2) :- List(ts1, MAX_COLUMNS, false);
    var (values, ts3) :- ValuesPart(ts2);
    if |columns| == |values| && AtEnd(ts3) then Some(Insert(table, columns, values)) else None
  }

  ghost function FromPart(ts: seq<Token>): Option<((string, Option<WhereClause>), seq<Token>)> {
    var ts1 :- Take(ts, Word("FROM"));
    var (table, ts2) :- TakeItem(ts1, false);
    var (where, ts3) :- OptionalWhere(ts2);
    Some(((table, where), ts3))
  }

  ghost function SelectColumns(ts: seq<Token>): Option<(seq<string>, seq<Token>)> {
    if ts != [] && ts[0] == STAR then Some(([], ts[1..])) else List(ts, MAX_COLUMNS, false)
  }

  ghost function ParseSelect(ts: seq<Token>): Option<Statement> {
    var ts1 :- Take(ts, Word("SELECT"));
    var (columns, ts2) :- SelectColumns(ts1);
    var (from, ts3) :- FromPart(ts2);
    if AtEnd(ts3) then Some(Select(from.0, columns, from.1)) else None
  }

  ghost function ParseDelete(ts: seq<Token>): Option<Statement> {
    var ts1 :- Take(ts, Word("DELETE"));
    var (from, ts2) :- FromPart(ts1);
    if AtEnd(ts2) then Some(Delete(from.0, from.1)) else None
  }

  ghost function Parse(ts: seq<Token>): Option<Statement> {
    if ts == [] then None
    else if ts[0] == Word("INSERT") then ParseInsert(ts)
    else if ts[0] == Word("SELECT") then ParseSelect(ts)
    else if ts[0] == Word("DELETE") then ParseDelete(ts)
    else None
  }

  // ---------- The parser ----------

  method Expect(tokens: seq<Token>, index: nat, token: Token) returns (ok: bool, next: nat)
    requires index <= |tokens|
    ensures ok <==> Take(tokens[index..], token).Some?
    ensures ok ==> next == index + 1 <= |tokens| && Take(tokens[index..], token) == Some(tokens[next..])
    ensures !ok ==> next == index
  {
    if index < |tokens| && tokens[index] == token {
      return true, index + 1;
    }
    return false, index;
  }

  method ExpectItem(tokens: seq<Token>, index: nat, literal: bool) returns (ok: bool, value: string, next: nat)
    requires index <= |tokens|
    ensures ok <==> TakeItem(tokens[index..], literal).Some?
    ensures ok ==> next == index + 1 <= |tokens| && TakeItem(tokens[index..], literal) == Some((value, tokens[next..]))
    ensures !ok ==> next == index
  {
    if index >= |tokens| || !IsItem(tokens[index], literal) {
      return false, "", index;
    }
    return true, tokens[index].value, index + 1;
  }

  method ParseList(tokens: seq<Token>, start: nat, literal: bool) returns (ok: bool, values: seq<string>, index: nat)
    requires start <= |tokens|
    ensures index <= |tokens|
    ensures List(tokens[start..], MAX_COLUMNS, literal) == if ok then Some((values, tokens[index..])) else None
  {
    hide List, IsItem;
    values, index := [], start;
    ghost var all := List(tokens[start..], MAX_COLUMNS, literal);
    assert Prepend([], all) == all by {
      if all.Some? {
        assert [] + all.value.0 == all.value.0;
      }
    }
    while index < |tokens|
      invariant start <= index <= |tokens| && |values| <= MAX_COLUMNS
      invariant Prepend(values, List(tokens[index..], MAX_COLUMNS - |values|, literal)) == all
    {
      if |values| >= MAX_COLUMNS {
        ListFails(tokens[index..], values, 0, literal);
        return false, values, index;
      }
      var found, value, next := ExpectItem(tokens, index, literal);
      if !found {
        ListFails(tokens[index..], values, MAX_COLUMNS - |values|, literal);
        return false, values, index;
      }
      ListStep(tokens, index, values, MAX_COLUMNS - |values|, literal);
      values := values + [value];
      index := next;
      if index < |tokens| && tokens[index] == COMMA {
        index := index + 1;
      } else {
        return true, values, index;
      }
    }
    ListEnd(tokens, index, values, MAX_COLUMNS - |values|, literal);
    return true, values, index;
  }

  lemma {:induction false} ListEnd(tokens: seq<Token>, index: nat, values: seq<string>, room: nat, literal: bool)
    requires index == |tokens|
    ensures Prepend(values, List(tokens[index..], room, literal)) == Some((values, tokens[index..]))
  {
    assert values + [] == values;
  }

  lemma {:induction false} ListFails(ts: seq<Token>, values: seq<string>, room: nat, literal: bool)
    requires ts != [] && (room == 0 || TakeItem(ts, literal) == None)
    ensures Prepend(values, List(ts, room, literal)) == None
  {
  }

  lemma {:induction false} ListStep(tokens: seq<Token>, index: nat, values: seq<string>, room: nat, literal: bool)
    requires index < |tokens| && room > 0 && IsItem(tokens[index], literal)
    ensures Prepend(values, List(tokens[index..], room, literal)) ==
      if index + 1 < |tokens| && tokens[index + 1] == COMMA
      then Prepend(values + [tokens[index].value], List(tokens[index + 2..], room - 1, literal))
      else Some((values + [tokens[index].value], tokens[index + 1..]))
  {
    var v := tokens[index].value;
    if index + 1 < |tokens| && tokens[index + 1] == COMMA {
      assert tokens[index..][2..] == tokens[index + 2..];
      var rest := List(tokens[index + 2..], room - 1, literal);
      if rest.Some? {
        assert values + ([v] + rest.value.0) == values + [v] + rest.value.0;
      }
    }
  }

  method ParseWhere(tokens: seq<Token>, start: nat) returns (ok: bool, where: Option<WhereClause>, index: nat)
    requires start <= |tokens|
    ensures index <= |tokens|
    ensures OptionalWhere(tokens[start..]) == if ok then Some((where, tokens[index..])) else None
  {
    var found;
    found, index := Expect(tokens, start, Word("WHERE"));
    if !found {
      return true, None, index;
    }
    var column, value;
    found, column, index := ExpectItem(tokens, index, false);
    if !found || index >= |tokens| || tokens[index].kind != Operator || |tokens[index].value| >= 4 {
      return false, None, index;
    }
    var op := tokens[index].value;
    assert tokens[index..][1..] == tokens[index + 1..];
    found, value, index := ExpectItem(tokens, index + 1, true);
    if !found {
      return false, None, index;
    }
    return true, Some(WhereClause(column, op, value)), index;
  }

  method ConsumeEnd(tokens: seq<Token>, index: nat) returns (ok: bool)
    requires index <= |tokens|
    ensures ok == AtEnd(tokens[index..])
  {
    var found, next := Expect(tokens, index, SEMICOLON);
    ok := next == |tokens|;
  }

  method ParseInsertTokens(tokens: seq<Token>) returns (r: Option<Statement>)
    ensures r == ParseInsert(tokens)
  {
    hide Take, TakeItem, List;
    assert tokens[0..] == tokens;
    var ok, index := Expect(tokens, 0, Word("INSERT"));
    if !ok {
      return None;
    }
    ok, index := Expect(tokens, index, Word("INTO"));
    if !ok {
      return None;
    }
    var table;
    ok, table, index := ExpectItem(tokens, index, false);
    if !ok {
      return None;
    }
    ok, index := Expect(tokens, index, LPAREN);
    if !ok {
      return None;
    }
    var columns, values;
    ok, columns, index := ParseList(tokens, index, false);
    if !ok {
      return None;
    }
    ok, index := Expect(tokens, index, RPAREN);
    if !ok {
      return None;
    }
    ok, index := Expect(tokens, index, Word("VALUES"));
    if !ok {
      return None;
    }
    ok, index := Expect(tokens, index, LPAREN);
    if !ok {
      return None;
    }
    ok, values, index := ParseList(tokens, index, true);
    if !ok {
      return None;
    }
    ok, index := Expect(tokens, index, RPAREN);
    if !ok || |columns| != |values| {
      return None;
    }
    ok := ConsumeEnd(tokens, index);
    return if ok then Some(Insert(table, columns, values)) else None;
  }

  method ParseSelectTokens(tokens: seq<Token>) returns (r: Option<Statement>)
    ensures r == ParseSelect(tokens)
  {
    hide Take, TakeItem, List, OptionalWhere;
    assert tokens[0..] == tokens;
    var ok, index := Expect(tokens, 0, Word("SELECT"));
    if !ok {
      return None;
    }
    var columns: seq<string> := [];
    var star;
    star, index := Expect(tokens, index, STAR);
    if !star {
      ok, columns, index := ParseList(tokens, index, false);
      if !ok {
        return None;
      }
    }
    ok, index := Expect(tokens, index, Word("FROM"));
    if !ok {
      return None;
    }
    var table, where;
    ok, table, index := ExpectItem(tokens, index, false);
    if !ok {
      return None;
    }
    ok, where, index := ParseWhere(tokens, index);
    if !ok {
      return None;
    }
    ok := ConsumeEnd(tokens, index);
    return if ok then Some(Select(table, columns, where)) else None;
  }

  method ParseDeleteTokens(tokens: seq<Token>) returns (r: Option<Statement>)
    ensures r == ParseDelete(tokens)
  {
    hide Take, TakeItem, OptionalWhere;
    assert tokens[0..] == tokens;
    var ok, index := Expect(tokens, 0, Word("DELETE"));
    if !ok {
      return None;
    }
    ok, index := Expect(tokens, index, Word("FROM"));
    if !ok {
      return None;
    }
    var table, where;
    ok, table, index := ExpectItem(tokens, index, false);
    if !ok {
      return None;
    }
    ok, where, index := ParseWhere(tokens, index);
    if !ok {
      return None;
    }
    ok := ConsumeEnd(tokens, index);
    return if ok then Some(Delete(table, where)) else None;
  }

  method ParseTokens(tokens: seq<Token>) returns (r: Option<Statement>)
    ensures r == Parse(tokens)
  {
    hide ParseInsert, ParseSelect, ParseDelete;
    if |tokens| == 0 {
      return None;
    }
    if tokens[0] == Word("INSERT") {
      r := ParseInsertTokens(tokens);
    } else if tokens[0] == Word("SELECT") {
      r := ParseSelectTokens(tokens);
    } else if tokens[0] == Word("DELETE") {
      r := ParseDeleteTokens(tokens);
    } else {
      r := None;
    }
  }
}
