/** File mode: a file is cut into statements, and each is lexed, parsed and executed in turn. */
module Shell {
  import opened Text
  import opened Options
  import opened Sql
  import opened TableModel
  import opened TableRuntime
  import opened Lexer
  import opened Parser
  import opened Grammar
  import opened Splitter
  import opened TokenCache
  import Executor
  import BPTree

  // ---------- One statement ----------

  /** The statement that a text says, if it says one. */
  ghost function StatementOf(sql: string): (r: Option<Statement>)
    ensures r.Some? ==> Fits(r.value)
  {
    match Meaning(sql)
    case None => None
    case Some(tokens) =>
      ParseFits(tokens);
      Parse(tokens)
  }

  lemma {:induction false} ParseFits(ts: seq<Token>)
    ensures Parse(ts).Some? ==> Fits(Parse(ts).value)
  {
    hide Parse, Printed;
    if Parse(ts).Some? {
      ParseExact(ts, Parse(ts).value);
    }
  }

  /** What a text does to a table, and its answer; a text that says no statement does nothing. */
  ghost function StepText(t: Table, sql: string): (r: (Table, Option<Outcome>))
    requires Regular(t)
    ensures Regular(r.0)
  {
    match StatementOf(sql)
    case None => (t, None)
    case Some(s) => var (t', out) := Step(t, s); (t', Some(out))
  }

  lemma {:induction false} TrimmedTwice(s: string)
    ensures Trimmed(Trimmed(s)) == Trimmed(s)
  {
    var r := TrimEnd(s);
    var t := TrimStart(r);
    if t != "" {
      assert t[|t| - 1] == r[|r| - 1];
      assert TrimEnd(t) == t;
    }
  }

  lemma {:induction false} TrimmedWithin(s: string)
    requires '\0' !in s
    ensures '\0' !in Trimmed(s)
  {
  }

  /** The state that the program keeps between statements: the tokenizer's cache and the active table. */
  class Session {
    const tokenizer: Tokenizer
    const table: Runtime
    ghost var frame: set<object>

    ghost predicate Valid()
      reads this, frame
    {
      && this in frame && tokenizer in frame && tokenizer.frame <= frame
      && table in frame && table.idIndex in frame && table.Repr() <= frame
      && this !in tokenizer.frame && this !in table.Repr() && tokenizer.frame !! table.Repr()
      && tokenizer.Valid() && table.Valid()
    }

    ghost function Model(): Table
      reads this, frame
      requires Valid()
    {
      table.Model()
    }

    constructor ()
      ensures Valid() && fresh(frame) && Model() == START
    {
      hide BPTree.LinkedTree.Valid, Runtime.IndexValid, Runtime.Apart, Runtime.SchemaValid, Numbered, Tokenizer.Valid;
      var t := new Tokenizer();
      var r := new Runtime();
      tokenizer, table, frame := t, r, {this} + t.frame + r.Repr();
    }

    /** Lexes, parses and executes one text; one that says no statement changes nothing. */
    method ProcessStatement(sql: string) returns (out: Option<Outcome>)
      requires Valid() && |Model().rows| < MAX_ROWS && '\0' !in sql
      modifies frame
      ensures Valid() && fresh(frame - old(frame))
      ensures (Model(), out) == StepText(old(Model()), sql)
    {
      hide BPTree.LinkedTree.Valid, Runtime.IndexValid, Runtime.Apart, Numbered, Tokenizer.Valid, Step, Meaning;
      hide Trimmed, Parse;
      var text := Working(sql);
      MeaningTrimmed(sql);
      if text == "" {
        return None;
      }
      var tokens := tokenizer.Tokenize(text);
      frame := frame + tokenizer.frame;
      if tokens == None || |tokens.value| == 0 {
        NoTokens(sql);
        return None;
      }
      var statement := ParseTokens(tokens.value);
      if statement == None {
        return None;
      }
      ParseFits(tokens.value);
      var answer := Executor.Execute(table, statement.value);
      frame := frame + table.Repr();
      return Some(answer);
    }
  }

  lemma {:induction false} MeaningTrimmed(sql: string)
    requires '\0' !in sql
    ensures Meaning(Trimmed(sql)) == Meaning(sql) && '\0' !in Trimmed(sql)
    ensures Trimmed(sql) == "" ==> StatementOf(sql) == None
  {
    hide Lex;
    TrimmedTwice(sql);
    TrimmedWithin(sql);
  }

  lemma {:induction false} NoTokens(sql: string)
    ensures Meaning(sql) == None || Meaning(sql).value == [] ==> StatementOf(sql) == None
  {
  }

  // ---------- A file ----------

  ghost function RunTexts(texts: seq<string>): (r: (Table, seq<Option<Outcome>>))
    ensures Regular(r.0) && |r.1| == |texts|
  {
    if texts == [] then (START, [])
    else
      var (t, outs) := RunTexts(texts[..|texts| - 1]);
      var (t', out) := StepText(t, texts[|texts| - 1]);
      (t', outs + [out])
  }

  lemma {:induction false} StepTextRows(t: Table, sql: string)
    requires Regular(t)
    ensures |StepText(t, sql).0.rows| <= |t.rows| + 1
  {
    hide Fits, StatementOf, EqualsIgnoreCase, Projection, Pick, Decimal;
  }

  lemma {:induction false} RunTextsRows(texts: seq<string>)
    ensures |RunTexts(texts).0.rows| <= |texts|
  {
    hide StepText;
    if texts != [] {
      RunTextsRows(texts[..|texts| - 1]);
      StepTextRows(RunTexts(texts[..|texts| - 1]).0, texts[|texts| - 1]);
    }
  }

  method SkipWhitespace(text: string, start: nat) returns (index: nat)
    requires start <= |text|
    ensures index == start + SpaceLength(text[start..])
  {
    index := start;
    while index < |text| && IsSpace(text[index])
      invariant start <= index <= |text|
      invariant index + SpaceLength(text[index..]) == start + SpaceLength(text[start..])
    {
      assert text[index..][1..] == text[index + 1..];
      index := index + 1;
    }
  }

  lemma {:induction false} NextPiece(content: string, start: nat)
    requires start <= |content|
    ensures start + SpaceLength(content[start..]) <= |content|
    ensures Split(content[start..]).pieces == PiecesFrom(content, start + SpaceLength(content[start..]))
    ensures Terminator("", false) == None
  {
    hide Terminator, Split, SpaceLength, PiecesFrom, PiecesOf;
    TerminatorEnd(false);
    SplitPieces(content[start..]);
    Suffixes(content, start, SpaceLength(content[start..]));
    PiecesFromOf(content, start + SpaceLength(content[start..]));
  }

  lemma {:induction false} PiecesFromOf(content: string, from: nat)
    requires from <= |content|
    ensures PiecesFrom(content, from) == PiecesOf(content[from..])
  {
    hide Terminator, Split;
    if Terminator(content[from..], false).Some? {
      Suffixes(content, from, Terminator(content[from..], false).value + 1);
    }
  }

  /** The pieces of a file from a place that is not white space. */
  ghost function PiecesFrom(content: string, from: nat): seq<string>
    requires from <= |content|
  {
    match Terminator(content[from..], false)
    case None => []
    case Some(k) => [content[from..from + k + 1]] + Split(content[from + k + 1..]).pieces
  }

  lemma {:induction false} Suffixes(content: string, start: nat, n: nat)
    requires start <= |content| && n <= |content| - start
    ensures content[start..][n..] == content[start + n..] && content[start..][..n] == content[start..start + n]
  {
  }

  lemma {:induction false} NextText(done: seq<string>, text: string, pieces: seq<string>, outs: seq<Option<Outcome>>)
    requires outs == RunTexts(done).1
    ensures RunTexts(done + [text]) ==
      (StepText(RunTexts(done).0, text).0, outs + [StepText(RunTexts(done).0, text).1])
    ensures done + ([text] + pieces) == done + [text] + pieces
  {
    hide StepText;
    assert (done + [text])[..|done|] == done;
  }

  /** Runs a file from an empty table: the answers are those of its pieces, in order. */
  method RunFile(content: string) returns (session: Session, outs: seq<Option<Outcome>>)
    requires |content| <= MAX_ROWS && '\0' !in content
    ensures session.Valid() && (session.Model(), outs) == RunTexts(Split(content).pieces)
  {
    hide Session.Valid, Session.Model, StepText, Terminator, Split, SpaceLength, IsSpace, RunTexts;
    session := new Session();
    outs := [];
    ghost var done: seq<string> := [];
    var start := 0;
    FirstPieces(content);
    while start < |content|
      invariant start <= |content| && |done| <= start
      invariant session.Valid() && fresh(session.frame)
      invariant done + Split(content[start..]).pieces == Split(content).pieces
      invariant (session.Model(), outs) == RunTexts(done)
      decreases |content| - start
    {
      NextPiece(content, start);
      assert done + [] == done;
      start := SkipWhitespace(content, start);
      if start == |content| {
        return;
      }
      var end := FindTerminator(content, start);
      if end == None {
        return;
      }
      var statement := content[start..end.value + 1];
      RunTextsRows(done);
      NextText(done, statement, Split(content[end.value + 1..]).pieces, outs);
      var out := session.ProcessStatement(statement);
      outs := outs + [out];
      done := done + [statement];
      start := end.value + 1;
    }
    NoPieces(content[start..], done);
  }

  lemma {:induction false} NoPieces(rest: string, done: seq<string>)
    requires rest == ""
    ensures Split(rest).pieces == [] && done + [] == done
  {
  }

  lemma {:induction false} FirstPieces(content: string)
    ensures [] + Split(content[0..]).pieces == Split(content).pieces
    ensures (START, []) == RunTexts([])
  {
    assert content[0..] == content;
  }
}
