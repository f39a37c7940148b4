/** The token lists of statements, as a printer would make them: the parser accepts these and no other. */
module Grammar {
  import opened Options
  import opened Sql
  import opened Lexer
  import opened Parser

  function Name(value: string): Token {
    Token(Identifier, value)
  }

  function Literal(value: string): Token {
    Token(StrLiteral, value)
  }

  function Item(value: string, literal: bool): Token {
    if literal then Literal(value) else Name(value)
  }

  function Listed(values: seq<string>, literal: bool): seq<Token> {
    if values == [] then []
    else if |values| == 1 then [Item(values[0], literal)]
    else [Item(values[0], literal), COMMA] + Listed(values[1..], literal)
  }

  function Where(where: Option<WhereClause>): seq<Token> {
    match where
    case None => []
    case Some(w) => [Word("WHERE"), Name(w.column), Token(Operator, w.op), Literal(w.value)]
  }

  /** The tokens of a statement, all literals written as strings. */
  function Printed(s: Statement): seq<Token> {
    match s
    case Insert(table, columns, values) =>
      [Word("INSERT"), Word("INTO"), Name(table), LPAREN] + (Listed(columns, false) +
      ([RPAREN, Word("VALUES"), LPAREN] + (Listed(values, true) + [RPAREN])))
    case Select(table, columns, where) =>
      [Word("SELECT")] + ((if columns == [] then [STAR] else Listed(columns, false)) +
      ([Word("FROM"), Name(table)] + Where(where)))
    case Delete(table, where) =>
      [Word("DELETE"), Word("FROM"), Name(table)] + Where(where)
  }

  ghost predicate ItemsFit(values: seq<string>, literal: bool) {
    && |values| <= 32
    && forall i :: 0 <= i < |values| ==> |values[i]| < if literal then 256 else 64
  }

  ghost predicate WhereFits(where: Option<WhereClause>) {
    where.Some? ==> |where.value.column| < 64 && |where.value.op| < 4 && |where.value.value| < 256
  }

  /** What a statement's buffers can hold, and what its tokens can say: a `*` stands for all columns only where
      it comes first, and is a column name elsewhere. */
  ghost predicate WellFormed(s: Statement) {
    && |s.table| < 64
    && match s
       case Insert(_, columns, values) =>
         0 < |columns| == |values| && ItemsFit(columns, false) && ItemsFit(values, true)
       case Select(_, columns, where) =>
         ItemsFit(columns, false) && (columns != [] ==> columns[0] != "*") && WhereFits(where)
       case Delete(_, where) => WhereFits(where)
  }

  /** The same token, integers written as strings. */
  ghost function Normal(t: Token): Token {
    if t.kind == IntLiteral then Literal(t.value) else t
  }

  ghost function NormalAll(ts: seq<Token>): (r: seq<Token>)
    ensures |r| == |ts| && forall i :: 0 <= i < |r| ==> r[i] == Normal(ts[i])
  {
    seq(|ts|, i requires 0 <= i < |ts| => Normal(ts[i]))
  }

  ghost predicate Accepts(ts: seq<Token>, s: Statement) {
    WellFormed(s) && (NormalAll(ts) == Printed(s) || NormalAll(ts) == Printed(s) + [SEMICOLON])
  }

  // ---------- Lists ----------

  lemma {:induction false} ListPrinted(values: seq<string>, literal: bool, room: nat, ts: seq<Token>, rest: seq<Token>)
    requires values != [] && |values| <= room && rest != [] && rest[0] != COMMA
    requires forall i :: 0 <= i < |values| ==> |values[i]| < if literal then MAX_VALUE_LEN else MAX_IDENTIFIER_LEN
    requires |ts| >= |rest| && ts[|ts| - |rest|..] == rest && NormalAll(ts[..|ts| - |rest|]) == Listed(values, literal)
    ensures List(ts, room, literal) == Some((values, rest))
  {
    var n := |ts| - |rest|;
    var listed := Listed(values, literal);
    assert listed[0] == Item(values[0], literal);
    assert NormalAll(ts[..n])[0] == Normal(ts[0]);
    assert ts[0].value == values[0] && IsItem(ts[0], literal);
    if |values| == 1 {
      assert n == 1 && ts[1..] == rest && ts[1] == rest[0];
      assert values == [values[0]];
    } else {
      assert NormalAll(ts[..n])[1] == Normal(ts[1]) == COMMA;
      assert NormalAll(ts[2..][..n - 2]) == listed[2..];
      ListPrinted(values[1..], literal, room - 1, ts[2..], rest);
      assert [values[0]] + values[1..] == values;
    }
  }

  lemma {:induction false} ListPrints(ts: seq<Token>, room: nat, literal: bool)
    requires ts != [] && List(ts, room, literal).Some? && List(ts, room, literal).value.1 != []
    ensures var (values, rest) := List(ts, room, literal).value;
      && 0 < |values| <= room && |rest| <= |ts| && ts[|ts| - |rest|..] == rest
      && (forall i :: 0 <= i < |values| ==> |values[i]| < if literal then MAX_VALUE_LEN else MAX_IDENTIFIER_LEN)
      && NormalAll(ts[..|ts| - |rest|]) == Listed(values, literal)
  {
    var (values, rest) := List(ts, room, literal).value;
    if |ts| > 1 && ts[1] == COMMA {
      ListPrints(ts[2..], room - 1, literal);
      var more := List(ts[2..], room - 1, literal).value.0;
      assert values == [ts[0].value] + more;
      hide List;
      ItemPrints(ts, rest, more, literal);
    } else {
      assert NormalAll(ts[..1]) == [Normal(ts[0])];
    }
  }

  /** One more item in front of a list that has been printed. */
  lemma {:induction false} ItemPrints(ts: seq<Token>, rest: seq<Token>, more: seq<string>, literal: bool)
    requires |ts| > 1 && ts[1] == COMMA && IsItem(ts[0], literal) && more != []
    requires |rest| <= |ts| - 2 && ts[2..][|ts| - 2 - |rest|..] == rest
    requires NormalAll(ts[2..][..|ts| - 2 - |rest|]) == Listed(more, literal)
    ensures ts[|ts| - |rest|..] == rest && NormalAll(ts[..|ts| - |rest|]) == Listed([ts[0].value] + more, literal)
  {
    var n := |ts| - |rest|;
    assert ([ts[0].value] + more)[1..] == more;
    assert NormalAll(ts[..n]) == [Normal(ts[0]), COMMA] + NormalAll(ts[2..][..n - 2]);
  }

  // ---------- Pieces of a token list ----------

  lemma {:induction false} NormalConcat(a: seq<Token>, b: seq<Token>)
    ensures NormalAll(a + b) == NormalAll(a) + NormalAll(b)
  {
  }

  lemma {:induction false} Cut(ts: seq<Token>, a: seq<Token>, b: seq<Token>)
    requires NormalAll(ts) == a + b
    ensures NormalAll(ts[..|a|]) == a && NormalAll(ts[|a|..]) == b
  {
    assert forall i :: 0 <= i < |a| ==> NormalAll(ts)[i] == a[i];
    assert forall i :: 0 <= i < |b| ==> NormalAll(ts)[|a| + i] == b[i];
  }

  lemma {:induction false} Fixed(ts: seq<Token>, a: seq<Token>)
    requires NormalAll(ts) == a && forall i :: 0 <= i < |a| ==> a[i].kind != StrLiteral
    ensures ts == a
  {
    forall i | 0 <= i < |ts| ensures ts[i] == a[i] {
      assert a[i] == Normal(ts[i]);
    }
  }

  // ---------- WHERE ----------

  lemma {:induction false} WherePrinted(ts: seq<Token>, where: Option<WhereClause>, end: seq<Token>)
    requires WhereFits(where) && AtEnd(end) && NormalAll(ts) == Where(where) + end
    ensures OptionalWhere(ts).Some? && OptionalWhere(ts).value.0 == where && AtEnd(OptionalWhere(ts).value.1)
  {
    Cut(ts, Where(where), end);
    Fixed(ts[|Where(where)|..], end);
    match where
    case None =>
      assert ts[0..] == ts;
    case Some(w) =>
      assert forall i :: 0 <= i < 4 ==> Normal(ts[i]) == Where(where)[i];
      assert ts[1..][1..][1..] == ts[3..] && ts[1..][1..][1..][1..] == ts[4..];
  }

  lemma {:induction false} WherePrints(ts: seq<Token>)
    requires OptionalWhere(ts).Some? && AtEnd(OptionalWhere(ts).value.1)
    ensures var (where, end) := OptionalWhere(ts).value; WhereFits(where) && NormalAll(ts) == Where(where) + end
  {
    var (where, end) := OptionalWhere(ts).value;
    if where.Some? {
      assert ts[1..][1..][1..] == ts[3..] && ts[1..][1..][1..][1..] == ts[4..];
      assert |ts| == 4 + |end|;
      assert ts == ts[..4] + end;
    } else {
      assert Where(where) + end == end;
    }
  }

  // ---------- FROM ----------

  function From(table: string, where: Option<WhereClause>): seq<Token> {
    [Word("FROM"), Name(table)] + Where(where)
  }

  lemma {:induction false} FromPrinted(ts: seq<Token>, table: string, where: Option<WhereClause>, end: seq<Token>)
    requires |table| < MAX_IDENTIFIER_LEN && WhereFits(where) && AtEnd(end) && NormalAll(ts) == From(table, where) + end
    ensures FromPart(ts).Some? && FromPart(ts).value.0 == (table, where) && AtEnd(FromPart(ts).value.1)
  {
    hide OptionalWhere, Where, WhereFits;
    var front := [Word("FROM"), Name(table)];
    assert From(table, where) + end == front + (Where(where) + end);
    Cut(ts, front, Where(where) + end);
    Fixed(ts[..2], front);
    assert ts[0] == ts[..2][0] && ts[1] == ts[..2][1];
    WherePrinted(ts[2..], where, end);
    assert ts[1..][1..] == ts[2..];
  }

  lemma {:induction false} FromPrints(ts: seq<Token>)
    requires FromPart(ts).Some? && AtEnd(FromPart(ts).value.1)
    ensures var ((table, where), end) := FromPart(ts).value;
      |table| < MAX_IDENTIFIER_LEN && WhereFits(where) && NormalAll(ts) == From(table, where) + end
  {
    hide OptionalWhere, Where, WhereFits, AtEnd;
    var ((table, where), end) := FromPart(ts).value;
    assert ts[1..][1..] == ts[2..];
    WherePrints(ts[2..]);
    var front := [Word("FROM"), Name(table)];
    assert ts == front + ts[2..];
    NormalConcat(front, ts[2..]);
    assert front + (Where(where) + end) == From(table, where) + end;
  }

  // ---------- DELETE ----------

  lemma {:induction false} DeletePrinted(ts: seq<Token>, s: Statement, end: seq<Token>)
    requires s.Delete? && WellFormed(s) && AtEnd(end) && NormalAll(ts) == Printed(s) + end
    ensures ParseDelete(ts) == Some(s)
  {
    hide FromPart, AtEnd, Where, WhereFits, Printed, From;
    DeleteRegroup(s, end);
    Cut(ts, [Word("DELETE")], From(s.table, s.where) + end);
    Fixed(ts[..1], [Word("DELETE")]);
    assert ts[0] == ts[..1][0];
    FromPrinted(ts[1..], s.table, s.where, end);
  }

  lemma {:induction false} DeletePrints(ts: seq<Token>) returns (end: seq<Token>)
    requires ParseDelete(ts).Some?
    ensures var s := ParseDelete(ts).value; WellFormed(s) && AtEnd(end) && NormalAll(ts) == Printed(s) + end
  {
    hide FromPart, AtEnd, Where, WhereFits, Printed, From;
    var s := ParseDelete(ts).value;
    FromPrints(ts[1..]);
    end := FromPart(ts[1..]).value.1;
    assert ts == [Word("DELETE")] + ts[1..];
    NormalConcat([Word("DELETE")], ts[1..]);
    DeleteRegroup(s, end);
  }

  lemma {:induction false} DeleteRegroup(s: Statement, end: seq<Token>)
    requires s.Delete?
    ensures [Word("DELETE")] + (From(s.table, s.where) + end) == Printed(s) + end
  {
    hide Where;
  }

  // ---------- SELECT ----------

  function Columns(columns: seq<string>): seq<Token> {
    if columns == [] then [STAR] else Listed(columns, false)
  }

  lemma {:induction false} ColumnsPrinted(ts: seq<Token>, columns: seq<string>, rest: seq<Token>)
    requires ItemsFit(columns, false) && (columns != [] ==> columns[0] != "*") && rest != [] && rest[0] != COMMA
    requires |ts| >= |rest| && ts[|ts| - |rest|..] == rest && NormalAll(ts[..|ts| - |rest|]) == Columns(columns)
    ensures SelectColumns(ts) == Some((columns, rest))
  {
    hide List;
    assert Columns(columns)[0] == Normal(ts[0]);
    if columns != [] {
      ListPrinted(columns, false, MAX_COLUMNS, ts, rest);
      assert Columns(columns)[0] == Name(columns[0]);
    }
  }

  lemma {:induction false} ColumnsPrint(ts: seq<Token>)
    requires SelectColumns(ts).Some? && SelectColumns(ts).value.1 != []
    ensures var (columns, rest) := SelectColumns(ts).value;
      && ItemsFit(columns, false) && (columns != [] ==> columns[0] != "*")
      && |rest| <= |ts| && ts[|ts| - |rest|..] == rest && NormalAll(ts[..|ts| - |rest|]) == Columns(columns)
  {
    var (columns, rest) := SelectColumns(ts).value;
    if ts != [] && ts[0] == STAR {
      assert ts[..1] == [STAR];
    } else {
      ListPrints(ts, MAX_COLUMNS, false);
      ListFirst(ts, MAX_COLUMNS);
    }
  }

  lemma {:induction false} ListFirst(ts: seq<Token>, room: nat)
    requires ts != [] && List(ts, room, false).Some? && ts[0] != STAR
    ensures var columns := List(ts, room, false).value.0; columns != [] && columns[0] != "*"
  {
  }

  lemma {:induction false} SelectPrinted(ts: seq<Token>, s: Statement, end: seq<Token>)
    requires s.Select? && WellFormed(s) && AtEnd(end) && NormalAll(ts) == Printed(s) + end
    ensures ParseSelect(ts) == Some(s)
  {
    hide SelectColumns, FromPart, Listed, Where, WhereFits, AtEnd, Printed, Columns, From;
    var columns, from := Columns(s.columns), From(s.table, s.where) + end;
    SelectRegroup(s, end);
    Cut(ts, [Word("SELECT")], columns + from);
    Fixed(ts[..1], [Word("SELECT")]);
    assert ts[0] == ts[..1][0];
    SelectTail(ts[1..], s, end);
  }

  lemma {:induction false} SelectTail(ts: seq<Token>, s: Statement, end: seq<Token>)
    requires s.Select? && WellFormed(s) && AtEnd(end)
    requires NormalAll(ts) == Columns(s.columns) + (From(s.table, s.where) + end)
    ensures SelectColumns(ts).Some? && SelectColumns(ts).value.0 == s.columns
    ensures var rest := SelectColumns(ts).value.1;
      FromPart(rest).Some? && FromPart(rest).value.0 == (s.table, s.where) && AtEnd(FromPart(rest).value.1)
  {
    hide SelectColumns, FromPart, Listed, Where, WhereFits, AtEnd, Printed, Columns;
    var columns, from := Columns(s.columns), From(s.table, s.where) + end;
    var rest := ts[|columns|..];
    Cut(ts, columns, from);
    assert Normal(rest[0]) == from[0] == Word("FROM");
    ColumnsPrinted(ts, s.columns, rest);
    FromPrinted(rest, s.table, s.where, end);
  }

  lemma {:induction false} SelectPrints(ts: seq<Token>) returns (end: seq<Token>)
    requires ParseSelect(ts).Some?
    ensures var s := ParseSelect(ts).value; WellFormed(s) && AtEnd(end) && NormalAll(ts) == Printed(s) + end
  {
    hide SelectColumns, Listed, Where, WhereFits, AtEnd, OptionalWhere, Columns, FromPart, From, Printed;
    var s := ParseSelect(ts).value;
    var rest := SelectColumns(ts[1..]).value.1;
    FromNonEmpty(rest);
    ColumnsPrint(ts[1..]);
    FromPrints(rest);
    end := FromPart(rest).value.1;
    var front := ts[1..][..|ts| - 1 - |rest|];
    assert ts[1..] == front + rest;
    NormalConcat(front, rest);
    assert ts == [Word("SELECT")] + ts[1..];
    NormalConcat([Word("SELECT")], ts[1..]);
    SelectRegroup(s, end);
  }

  lemma FromNonEmpty(ts: seq<Token>)
    requires FromPart(ts).Some?
    ensures ts != []
  {
  }

  lemma {:induction false} SelectRegroup(s: Statement, end: seq<Token>)
    requires s.Select?
    ensures [Word("SELECT")] + (Columns(s.columns) + (From(s.table, s.where) + end)) == Printed(s) + end
  {
    hide Listed, Where;
  }

  // ---------- INSERT ----------

  function Into(table: string): seq<Token> {
    [Word("INSERT"), Word("INTO"), Name(table), LPAREN]
  }

  lemma {:induction false} IntoPrinted(ts: seq<Token>, table: string, rest: seq<Token>)
    requires |table| < MAX_IDENTIFIER_LEN && NormalAll(ts) == Into(table) + rest
    ensures InsertInto(ts) == Some((table, ts[4..]))
  {
    Cut(ts, Into(table), rest);
    Fixed(ts[..4], Into(table));
    assert ts[0] == ts[..4][0] && ts[1] == ts[..4][1] && ts[2] == ts[..4][2] && ts[3] == ts[..4][3];
    assert ts[1..][1..] == ts[2..] && ts[2..][1..] == ts[3..] && ts[3..][1..] == ts[4..];
  }

  lemma {:induction false} IntoPrints(ts: seq<Token>)
    requires InsertInto(ts).Some?
    ensures var (table, rest) := InsertInto(ts).value;
      |table| < MAX_IDENTIFIER_LEN && ts == Into(table) + rest && NormalAll(ts) == Into(table) + NormalAll(rest)
  {
    var (table, rest) := InsertInto(ts).value;
    assert ts[1..][1..] == ts[2..] && ts[2..][1..] == ts[3..] && ts[3..][1..] == ts[4..];
    assert ts == Into(table) + rest;
    NormalConcat(Into(table), rest);
  }

  const VALUES := [RPAREN, Word("VALUES"), LPAREN]

  lemma {:induction false} ValuesPrinted(ts: seq<Token>, values: seq<string>, end: seq<Token>)
    requires values != [] && ItemsFit(values, true) && AtEnd(end)
    requires NormalAll(ts) == VALUES + (Listed(values, true) + ([RPAREN] + end))
    ensures ValuesPart(ts).Some? && ValuesPart(ts).value.0 == values && AtEnd(ValuesPart(ts).value.1)
  {
    hide List, Listed, AtEnd, TakeValues, VALUES;
    var listed := Listed(values, true);
    var n := 3 + |listed|;
    ValuesTaken(ts, listed + ([RPAREN] + end));
    Cut(ts[3..], listed, [RPAREN] + end);
    assert ts[3..][|listed|..] == ts[n..];
    EndFixed(ts[n..], end);
    ListPrinted(values, true, MAX_COLUMNS, ts[3..], ts[n..]);
  }

  lemma {:induction false} ValuesTaken(ts: seq<Token>, rest: seq<Token>)
    requires NormalAll(ts) == VALUES + rest
    ensures |ts| >= 3 && TakeValues(ts) == Some(ts[3..]) && NormalAll(ts[3..]) == rest
  {
    Cut(ts, VALUES, rest);
    Fixed(ts[..3], VALUES);
    assert ts[0] == ts[..3][0] && ts[1] == ts[..3][1] && ts[2] == ts[..3][2];
    assert ts[1..][1..] == ts[2..] && ts[2..][1..] == ts[3..];
  }

  lemma {:induction false} EndFixed(ts: seq<Token>, end: seq<Token>)
    requires AtEnd(end) && NormalAll(ts) == [RPAREN] + end
    ensures ts == [RPAREN] + end && Take(ts, RPAREN) == Some(end)
  {
    Fixed(ts, [RPAREN] + end);
  }

  lemma {:induction false} ValuesPrint(ts: seq<Token>)
    requires ValuesPart(ts).Some?
    ensures var (values, end) := ValuesPart(ts).value;
      && values != [] && ItemsFit(values, true)
      && NormalAll(ts) == VALUES + (Listed(values, true) + ([RPAREN] + NormalAll(end)))
      && ts[0] == RPAREN
  {
    hide List, Listed, Item;
    var (values, end) := ValuesPart(ts).value;
    assert ts[1..][1..] == ts[2..] && ts[2..][1..] == ts[3..];
    assert ts == VALUES + ts[3..];
    NormalConcat(VALUES, ts[3..]);
    ValuesList(ts[3..]);
  }

  lemma {:induction false} ValuesList(ts: seq<Token>)
    requires List(ts, MAX_COLUMNS, true).Some? && Take(List(ts, MAX_COLUMNS, true).value.1, RPAREN).Some?
    ensures var (values, rest) := List(ts, MAX_COLUMNS, true).value;
      && values != [] && ItemsFit(values, true)
      && NormalAll(ts) == Listed(values, true) + ([RPAREN] + NormalAll(rest[1..]))
  {
    assert ts != [];
    hide Listed, Item, List;
    var (values, rest) := List(ts, MAX_COLUMNS, true).value;
    ListPrints(ts, MAX_COLUMNS, true);
    var front := ts[..|ts| - |rest|];
    assert ts == front + rest;
    NormalConcat(front, rest);
    ParenFirst(rest);
  }

  lemma {:induction false} ParenFirst(ts: seq<Token>)
    requires Take(ts, RPAREN).Some?
    ensures NormalAll(ts) == [RPAREN] + NormalAll(ts[1..])
  {
    NormalConcat([RPAREN], ts[1..]);
    assert ts == [RPAREN] + ts[1..];
  }

  ghost function InsertTokens(s: Statement, end: seq<Token>): seq<Token>
    requires s.Insert?
  {
    Into(s.table) + (Listed(s.columns, false) + (VALUES + (Listed(s.values, true) + ([RPAREN] + end))))
  }

  lemma {:induction false} InsertPrinted(ts: seq<Token>, s: Statement, end: seq<Token>)
    requires s.Insert? && WellFormed(s) && AtEnd(end) && NormalAll(ts) == InsertTokens(s, end)
    ensures ParseInsert(ts) == Some(s)
  {
    hide List, Listed, InsertInto, ValuesPart, AtEnd;
    var listed := Listed(s.columns, false);
    var values := VALUES + (Listed(s.values, true) + ([RPAREN] + end));
    var m := 4 + |listed|;
    IntoPrinted(ts, s.table, listed + values);
    Cut(ts, Into(s.table), listed + values);
    Cut(ts[4..], listed, values);
    assert ts[4..][|listed|..] == ts[m..];
    assert Normal(ts[m]) == values[0] == RPAREN;
    ListPrinted(s.columns, false, MAX_COLUMNS, ts[4..], ts[m..]);
    ValuesPrinted(ts[m..], s.values, end);
  }

  lemma {:induction false} InsertPrints(ts: seq<Token>) returns (end: seq<Token>)
    requires ParseInsert(ts).Some?
    ensures var s := ParseInsert(ts).value;
      s.Insert? && WellFormed(s) && AtEnd(end) && NormalAll(ts) == InsertTokens(s, end)
  {
    hide List, Listed, InsertInto, ValuesPart, Into, Normal;
    var s := ParseInsert(ts).value;
    IntoPrints(ts);
    var (table, rest) := InsertInto(ts).value;
    ListNonEmpty(rest);
    ListPrints(rest, MAX_COLUMNS, false);
    var t := List(rest, MAX_COLUMNS, false).value.1;
    ValuesPrint(t);
    end := ValuesPart(t).value.1;
    var front := rest[..|rest| - |t|];
    assert rest == front + t;
    NormalConcat(front, t);
    EndNormal(end);
  }

  lemma EndNormal(end: seq<Token>)
    requires AtEnd(end)
    ensures NormalAll(end) == end
  {
  }

  lemma {:induction false} ListNonEmpty(ts: seq<Token>)
    requires List(ts, MAX_COLUMNS, false).Some? && ValuesPart(List(ts, MAX_COLUMNS, false).value.1).Some?
    ensures ts != [] && List(ts, MAX_COLUMNS, false).value.1 != []
  {
  }

  lemma {:induction false} InsertRegroup(s: Statement, end: seq<Token>)
    requires s.Insert?
    ensures InsertTokens(s, end) == Printed(s) + end
  {
    hide Listed;
  }

  // ---------- All statements ----------

  /** The parser accepts a token list as a statement exactly if it is the printed statement, with or without a
      semicolon behind it, literals being integers or strings as they like. */
  lemma {:induction false} ParseExact(ts: seq<Token>, s: Statement)
    ensures Parse(ts) == Some(s) <==> Accepts(ts, s)
  {
    hide Parse, WellFormed, Printed;
    assert Printed(s) + [] == Printed(s);
    if Accepts(ts, s) {
      PrintedParses(ts, s, if NormalAll(ts) == Printed(s) then [] else [SEMICOLON]);
    }
    if Parse(ts) == Some(s) {
      var end := ParsedPrints(ts, s);
    }
  }

  lemma {:induction false} PrintedParses(ts: seq<Token>, s: Statement, end: seq<Token>)
    requires WellFormed(s) && AtEnd(end) && NormalAll(ts) == Printed(s) + end
    ensures Parse(ts) == Some(s)
  {
    hide ParseInsert, ParseSelect, ParseDelete, WellFormed, Listed, AtEnd, Where;
    var first := Printed(s)[0];
    assert Normal(ts[0]) == first && first.kind == Keyword;
    hide Printed;
    match s
    case Insert(_, _, _) =>
      InsertRegroup(s, end);
      InsertPrinted(ts, s, end);
    case Select(_, _, _) => SelectPrinted(ts, s, end);
    case Delete(_, _) => DeletePrinted(ts, s, end);
  }

  lemma {:induction false} ParsedPrints(ts: seq<Token>, s: Statement) returns (end: seq<Token>)
    requires Parse(ts) == Some(s)
    ensures WellFormed(s) && AtEnd(end) && NormalAll(ts) == Printed(s) + end
  {
    hide ParseInsert, ParseSelect, ParseDelete, WellFormed, Printed, InsertTokens, AtEnd;
    if ts[0] == Word("INSERT") {
      end := InsertPrints(ts);
      InsertRegroup(s, end);
    } else if ts[0] == Word("SELECT") {
      end := SelectPrints(ts);
    } else {
      end := DeletePrints(ts);
    }
  }
}
