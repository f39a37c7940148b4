/** Statements written as text, in any letter case and with any white space: the texts that say a statement are exactly
    those that spell its tokens. */
module SqlText {
  import opened Text
  import opened Options
  import opened Sql
  import opened Lexer
  import opened Parser
  import opened Grammar
  import opened Reference
  import opened Spelling

  // ---------- White space ----------

  lemma WhiteEnds(t: Token, rest: string)
    requires rest != "" && WhiteChar(rest[0])
    ensures Ends(t, rest)
  {
  }

  /** Words, each with white space behind it. */
  ghost function Woven(words: seq<string>, gaps: seq<string>): string
    requires |gaps| == |words|
  {
    if words == [] then "" else words[0] + (gaps[0] + Woven(words[1..], gaps[1..]))
  }

  /** Lexing words that spell tokens, with any white space behind each, gives the tokens, whatever follows. */
  lemma {:induction false} LexRendered(ts: seq<Token>, words: seq<string>, gaps: seq<string>, rest: string)
    requires |words| == |gaps| == |ts|
    requires forall i :: 0 <= i < |ts| ==> Says(words[i], ts[i]) && gaps[i] != "" && White(gaps[i])
    ensures Lex(Woven(words, gaps) + rest) == Before(ts, Lex(rest))
  {
    hide Next, Says, White;
    if ts == [] {
      assert Woven(words, gaps) + rest == rest;
      BeforeTwice([], SEMICOLON, Lex(rest));
    } else {
      var tail := Woven(words[1..], gaps[1..]) + rest;
      var s := words[0] + (gaps[0] + tail);
      assert Woven(words, gaps) + rest == s;
      assert White(gaps[0]) && WhiteChar(gaps[0][0]) by { FirstWhite(gaps[0]); }
      WhiteEnds(ts[0], gaps[0] + tail);
      SaysStart(words[0], ts[0]);
      NextSpelled(words[0], ts[0], gaps[0] + tail);
      assert s[|words[0]|..] == gaps[0] + tail;
      LexWhite(gaps[0], tail);
      LexRendered(ts[1..], words[1..], gaps[1..], rest);
      BeforeMore(ts[0], ts[1..], Lex(rest));
      assert [ts[0]] + ts[1..] == ts;
    }
  }

  lemma FirstWhite(gap: string)
    requires White(gap) && gap != ""
    ensures WhiteChar(gap[0])
  {
  }

  lemma {:induction false} BeforeMore(t: Token, ts: seq<Token>, rest: Lexed)
    ensures Before([t], Before(ts, rest)) == Before([t] + ts, rest)
  {
    if rest.Tokens? {
      assert [t] + (ts + rest.tokens) == [t] + ts + rest.tokens;
    }
  }

  lemma {:induction false} LaysFurther(s: string, back: string, words: seq<string>, gaps: seq<string>, ts: seq<Token>)
    returns (gaps': seq<string>)
    requires Lays(s, words, gaps, ts) && White(back)
    ensures Lays(s + back, words, gaps', ts)
    decreases |ts|
  {
    hide Says, Ends;
    if ts == [] {
      gaps' := [s + back];
    } else {
      var n := |gaps[0]| + |words[0]|;
      gaps' := LaysFurther(s[n..], back, words[1..], gaps[1..], ts[1..]);
      EndsFurther(ts[0], s[n..], back);
      assert (s + back)[n..] == s[n..] + back;
      assert ([gaps[0]] + gaps')[1..] == gaps';
      assert gaps[0] + (words[0] + s[n..]) + back == gaps[0] + (words[0] + (s[n..] + back));
      gaps' := [gaps[0]] + gaps';
    }
  }

  lemma EndsFurther(t: Token, rest: string, back: string)
    requires White(back)
    ensures Ends(t, rest) <==> Ends(t, rest + back)
  {
    if rest == "" && back != "" {
      assert (rest + back)[0] == back[0];
    }
  }

  lemma {:induction false} SaysEnd(w: string, t: Token)
    requires Says(w, t)
    ensures w != "" && !WhiteChar(w[|w| - 1])
  {
    if t.kind == Keyword {
      KeywordLetters(t.value);
      assert SameLetter(w[|w| - 1], t.value[|w| - 1]) && LetterChar(t.value[|w| - 1]);
    } else if t.kind == IntLiteral && (w[0] == '+' || w[0] == '-') && |w| > 1 {
      assert w[1..][|w| - 2] == w[|w| - 1];
    }
  }

  lemma {:induction false} LaysShorter(s: string, back: string, words: seq<string>, gaps: seq<string>, ts: seq<Token>)
    returns (gaps': seq<string>)
    requires Lays(s + back, words, gaps, ts) && White(back)
    ensures Lays(s, words, gaps', ts)
    decreases |ts|
  {
    hide Says, Ends;
    var all := s + back;
    if ts == [] {
      assert forall i :: 0 <= i < |s| ==> all[i] == s[i];
      gaps' := [s];
    } else {
      var n := |gaps[0]| + |words[0]|;
      SaysEnd(words[0], ts[0]);
      assert all[n - 1] == words[0][|words[0]| - 1];
      forall i | |s| <= i < |all| ensures WhiteChar(all[i]) {
        assert all[i] == back[i - |s|];
      }
      assert all[n..] == s[n..] + back;
      gaps' := LaysShorter(s[n..], back, words[1..], gaps[1..], ts[1..]);
      EndsFurther(ts[0], s[n..], back);
      assert ([gaps[0]] + gaps')[1..] == gaps';
      assert all[..n] == gaps[0] + words[0] && s == s[..n] + s[n..] && s[..n] == all[..n];
      gaps' := [gaps[0]] + gaps';
    }
  }

  /** White space at the ends of a text does not change whether it lexes, and to which tokens. */
  lemma {:induction false} TrimSpells(s: string, ts: seq<Token>)
    ensures Lex(s) == Tokens(ts) <==> Lex(Trimmed(s)) == Tokens(ts)
  {
    hide Lex, Trimmed, Lays, White, WhiteChar;
    var front, back := TextLaws.TrimExact(s);
    var t := Trimmed(s);
    assert front + t + back == front + (t + back);
    LexWhite(front, t + back);
    LexExact(t + back, ts);
    LexExact(t, ts);
    if words, gaps :| Lays(t, words, gaps, ts) {
      var gaps' := LaysFurther(t, back, words, gaps, ts);
    }
    if words, gaps :| Lays(t + back, words, gaps, ts) {
      var gaps' := LaysShorter(t, back, words, gaps, ts);
    }
  }

  // ---------- Texts of statements ----------

  /** The text spells the tokens of the statement, with or without a semicolon, literals being integers or strings. */
  ghost predicate Writes(sql: string, s: Statement) {
    exists ts :: Spells(sql, ts) && Accepts(ts, s)
  }

  /** A text lexes and parses to a statement if and only if it spells it. */
  lemma {:induction false} WritesExact(sql: string, s: Statement)
    ensures Lex(sql).Tokens? && Parse(Lex(sql).tokens) == Some(s) <==> Writes(sql, s)
  {
    hide Lex, Parse, Accepts, Spells;
    if Lex(sql).Tokens? && Parse(Lex(sql).tokens) == Some(s) {
      var ts := Lex(sql).tokens;
      LexExact(sql, ts);
      ParseExact(ts, s);
    }
    if ts :| Spells(sql, ts) && Accepts(ts, s) {
      LexExact(sql, ts);
      ParseExact(ts, s);
    }
  }

  // ---------- One text for each statement ----------

  function TokenText(t: Token): string {
    if t.kind == StrLiteral then ['\''] + (Doubled(t.value) + ['\'']) else t.value
  }

  ghost predicate AllSaid(ts: seq<Token>) {
    forall i :: 0 <= i < |ts| ==> Says(TokenText(ts[i]), ts[i])
  }

  function Render(ts: seq<Token>): string {
    if ts == [] then "" else TokenText(ts[0]) + ([' '] + Render(ts[1..]))
  }

  /** Statements that a text can say: their names are words, and their operators the six comparisons. */
  ghost predicate Sayable(s: Statement) {
    && WellFormed(s)
    && NameOrStar(s.table)
    && match s
       case Insert(_, columns, _) => forall i :: 0 <= i < |columns| ==> NameOrStar(columns[i])
       case Select(_, columns, where) =>
         (forall i :: 0 <= i < |columns| ==> NameOrStar(columns[i])) && WhereSayable(where)
       case Delete(_, where) => WhereSayable(where)
  }

  ghost predicate NameOrStar(name: string) {
    name == "*" || NameText(name)
  }

  ghost predicate WhereSayable(where: Option<WhereClause>) {
    where.Some? ==>
      NameOrStar(where.value.column) && where.value.op in {"=", "!", "<", ">", "!=", "<=", ">="}
  }

  function StatementText(s: Statement): string {
    Render(Printed(s)) + ";"
  }

  ghost predicate FixedToken(t: Token) {
    t in {LPAREN, RPAREN, COMMA, STAR, Word("INSERT"), Word("INTO"), Word("VALUES"), Word("SELECT"), Word("DELETE"),
          Word("FROM"), Word("WHERE")}
  }

  ghost predicate WherePart(t: Token, where: Option<WhereClause>) {
    where.Some? &&
      (t == Name(where.value.column) || t == Token(Operator, where.value.op) || t == Literal(where.value.value))
  }

  ghost predicate ItemPart(t: Token, values: seq<string>, literal: bool) {
    t == COMMA || exists j :: 0 <= j < |values| && t == Item(values[j], literal)
  }

  /** What the tokens of a statement are. */
  ghost predicate Part(t: Token, s: Statement) {
    || FixedToken(t)
    || t == Name(s.table)
    || (!s.Delete? && ItemPart(t, s.columns, false))
    || (s.Insert? && ItemPart(t, s.values, true))
    || (!s.Insert? && WherePart(t, s.where))
  }

  lemma {:induction false} ListedParts(values: seq<string>, literal: bool)
    ensures forall t :: t in Listed(values, literal) ==> ItemPart(t, values, literal)
  {
    if |values| > 1 {
      ListedParts(values[1..], literal);
      forall t | ItemPart(t, values[1..], literal) ensures ItemPart(t, values, literal) {
        if t != COMMA {
          var j :| 0 <= j < |values[1..]| && t == Item(values[1..][j], literal);
          assert t == Item(values[j + 1], literal);
        }
      }
      assert ItemPart(Item(values[0], literal), values, literal);
    }
  }

  lemma {:induction false} PrintedParts(s: Statement)
    ensures forall t :: t in Printed(s) ==> Part(t, s)
    ensures Printed(s) != [] && Printed(s)[0].kind == Keyword
  {
    hide Listed, ItemPart, FixedToken;
    FixedTokens();
    match s
    case Insert(_, columns, values) =>
      ListedParts(columns, false);
      ListedParts(values, true);
    case Select(_, columns, where) =>
      ListedParts(columns, false);
      WhereParts(where);
    case Delete(_, where) =>
      WhereParts(where);
  }

  lemma FixedTokens()
    ensures FixedToken(LPAREN) && FixedToken(RPAREN) && FixedToken(STAR) && FixedToken(Word("INSERT"))
    ensures FixedToken(Word("INTO")) && FixedToken(Word("VALUES")) && FixedToken(Word("SELECT"))
    ensures FixedToken(Word("DELETE")) && FixedToken(Word("FROM"))
  {
  }

  lemma WhereParts(where: Option<WhereClause>)
    ensures forall t :: t in Where(where) ==> FixedToken(t) || WherePart(t, where)
  {
  }

  lemma {:induction false} PartSaid(t: Token, s: Statement)
    requires Sayable(s) && Part(t, s)
    ensures Says(TokenText(t), t)
  {
    hide NameText;
    if FixedToken(t) || t == COMMA {
      FixedSaid();
    }
  }

  lemma FixedSaid()
    ensures forall t :: FixedToken(t) ==> Says(TokenText(t), t)
  {
  }

  lemma {:induction false} PrintedSaid(s: Statement)
    requires Sayable(s)
    ensures AllSaid(Printed(s))
  {
    hide Printed, Sayable, Says, Part;
    PrintedParts(s);
    forall i | 0 <= i < |Printed(s)| ensures Says(TokenText(Printed(s)[i]), Printed(s)[i]) {
      PartSaid(Printed(s)[i], s);
    }
  }

  /** The rendered text of tokens, and a semicolon, spells them. */
  lemma {:induction false} RenderLays(ts: seq<Token>) returns (words: seq<string>, gaps: seq<string>)
    requires AllSaid(ts)
    ensures Lays(Render(ts) + ";", words, gaps, ts + [SEMICOLON]) && gaps[0] == "" == gaps[|ts| + 1]
  {
    hide Says, Lays;
    if ts == [] {
      words, gaps := [";"], ["", ""];
      SemicolonLays();
      assert Render(ts) + ";" == ";" && [] + [SEMICOLON] == [SEMICOLON];
    } else {
      var tail, w := Render(ts[1..]) + ";", TokenText(ts[0]);
      words, gaps := RenderLays(ts[1..]);
      LaysLength([' '] + tail, words, gaps, ts[1..] + [SEMICOLON]);
      GapGrows([' '] + tail, words, gaps, ts[1..] + [SEMICOLON]);
      gaps := [[' '] + gaps[0]] + gaps[1..];
      WhiteEnds(ts[0], [' '] + tail);
      LaysMore(w, ts[0], [' '] + tail, words, gaps, ts[1..] + [SEMICOLON]);
      words, gaps := [w] + words, [""] + gaps;
      assert Render(ts) + ";" == w + ([' '] + tail);
      assert [ts[0]] + (ts[1..] + [SEMICOLON]) == ts + [SEMICOLON];
    }
  }

  lemma LaysLength(s: string, words: seq<string>, gaps: seq<string>, ts: seq<Token>)
    requires s != "" && Lays(s[1..], words, gaps, ts)
    ensures |words| == |ts| && |gaps| == |ts| + 1
  {
  }

  lemma {:induction false} SemicolonLays()
    ensures Lays(";", [";"], ["", ""], [SEMICOLON])
  {
    SemicolonSaid();
    hide Says;
    assert Lays("", [], [""], []);
    LaysMore(";", SEMICOLON, "", [], [""], []);
    assert ";" + "" == ";" && [";"] + [] == [";"] && [""] + [""] == ["", ""] && [SEMICOLON] + [] == [SEMICOLON];
  }

  lemma SemicolonSaid()
    ensures Says(";", SEMICOLON)
  {
  }

  /** Each statement of which all names can be said has a text. It lexes to the tokens of the statement and parses to
      it. */
  lemma {:induction false} TextRoundTrip(s: Statement)
    requires Sayable(s)
    ensures Writes(StatementText(s), s)
    ensures Lex(StatementText(s)) == Tokens(Printed(s) + [SEMICOLON])
    ensures Parse(Printed(s) + [SEMICOLON]) == Some(s)
  {
    hide Printed, Sayable, Render, WellFormed, Parse, Lays, Lex;
    var ts := Printed(s);
    PrintedSaid(s);
    var words, gaps := RenderLays(ts);
    LexLaid(StatementText(s), words, gaps, ts + [SEMICOLON]);
    PrintedNormal(s);
    ParseExact(ts + [SEMICOLON], s);
    WritesExact(StatementText(s), s);
  }

  /** Printed tokens contain neither integers nor semicolons. */
  lemma {:induction false} PrintedKinds(s: Statement)
    ensures forall i :: 0 <= i < |Printed(s)| ==>
      Printed(s)[i].kind != IntLiteral && Printed(s)[i].kind != Semicolon
  {
    hide Printed, Part;
    PrintedParts(s);
    forall t | Part(t, s) ensures t.kind != IntLiteral && t.kind != Semicolon {
      PartKind(t, s);
    }
    assert forall i :: 0 <= i < |Printed(s)| ==> Printed(s)[i] in Printed(s);
  }

  lemma PartKind(t: Token, s: Statement)
    requires Part(t, s)
    ensures t.kind != IntLiteral && t.kind != Semicolon
  {
  }

  lemma {:induction false} PrintedNormal(s: Statement)
    requires Sayable(s)
    ensures WellFormed(s) && NormalAll(Printed(s) + [SEMICOLON]) == Printed(s) + [SEMICOLON]
  {
    hide Printed;
    PrintedKinds(s);
  }

  // ---------- What can be said ----------

  lemma {:induction false} SpelledTokens(s: string, words: seq<string>, gaps: seq<string>, ts: seq<Token>)
    requires Lays(s, words, gaps, ts)
    ensures |words| == |ts| && forall i :: 0 <= i < |ts| ==> Says(words[i], ts[i])
    decreases |ts|
  {
    hide Says, Ends;
    if ts != [] {
      var n := |gaps[0]| + |words[0]|;
      SpelledTokens(s[n..], words[1..], gaps[1..], ts[1..]);
      assert forall i :: 0 < i < |ts| ==> words[1..][i - 1] == words[i] && ts[1..][i - 1] == ts[i];
    }
  }

  lemma {:induction false} ListedItems(values: seq<string>, literal: bool)
    ensures forall j :: 0 <= j < |values| ==> Item(values[j], literal) in Listed(values, literal)
  {
    if |values| > 1 {
      ListedItems(values[1..], literal);
      assert forall j :: 0 < j < |values| ==> values[1..][j - 1] == values[j];
    }
  }

  /** The names and the operator of a statement are among its tokens. */
  lemma {:induction false} PrintedNames(s: Statement)
    ensures Name(s.table) in Printed(s)
    ensures !s.Delete? ==> forall j :: 0 <= j < |s.columns| ==> Name(s.columns[j]) in Printed(s)
    ensures !s.Insert? && s.where.Some? ==>
      Name(s.where.value.column) in Printed(s) && Token(Operator, s.where.value.op) in Printed(s)
  {
    hide Listed;
    if !s.Delete? {
      ListedItems(s.columns, false);
    }
  }

  lemma {:induction false} AcceptedSaid(sql: string, ts: seq<Token>, s: Statement, t: Token)
    requires Spells(sql, ts) && Accepts(ts, s) && t in Printed(s) && t.kind != StrLiteral
    ensures exists w :: Says(w, t)
  {
    hide Says, Lays, Printed, WellFormed;
    var words, gaps :| Lays(sql, words, gaps, ts);
    SpelledTokens(sql, words, gaps, ts);
    var i :| 0 <= i < |Printed(s)| && Printed(s)[i] == t;
    assert NormalAll(ts)[i] == t;
    assert Normal(ts[i]) == t;
    assert Says(words[i], t);
  }

  /** A statement has a text if and only if it fits its buffers and its names and operator are such as the language
      has. */
  lemma {:induction false} SayableExact(s: Statement)
    ensures Sayable(s) <==> exists sql :: Writes(sql, s)
  {
    hide Says, Spells, Printed, NameText, Accepts, StatementText;
    if Sayable(s) {
      TextRoundTrip(s);
    }
    if sql :| Writes(sql, s) {
      var ts :| Spells(sql, ts) && Accepts(ts, s);
      AcceptedWell(ts, s);
      PrintedNames(s);
      forall name | Name(name) in Printed(s) ensures NameOrStar(name) {
        AcceptedSaid(sql, ts, s, Name(name));
        var w :| Says(w, Name(name));
        SaidName(w, name);
      }
      if !s.Insert? && s.where.Some? {
        var op := Token(Operator, s.where.value.op);
        AcceptedSaid(sql, ts, s, op);
        var w :| Says(w, op);
        SaidOperator(w, op.value);
      }
    }
  }

  lemma AcceptedWell(ts: seq<Token>, s: Statement)
    requires Accepts(ts, s)
    ensures WellFormed(s)
  {
  }

  lemma SaidName(w: string, name: string)
    requires Says(w, Name(name))
    ensures NameOrStar(name)
  {
  }

  lemma SaidOperator(w: string, op: string)
    requires Says(w, Token(Operator, op))
    ensures op in {"=", "!", "<", ">", "!=", "<=", ">="}
  {
  }
}
