/** Files of statements: each piece of a file says the statement that it spells, and a file runs as its statements
    do. */
module Script {
  import opened Text
  import opened Options
  import opened Sql
  import opened TableModel
  import opened Lexer
  import opened Parser
  import opened Grammar
  import opened Splitter
  import opened Reference
  import opened Spelling
  import opened SqlText
  import opened Shell

  // ---------- One statement ----------

  /** A text says a statement if and only if it spells its tokens, in any case and with any white space. */
  lemma {:induction false} StatementExact(sql: string, s: Statement)
    ensures StatementOf(sql) == Some(s) <==> Writes(sql, s)
  {
    hide Lex, Parse, Trimmed, Writes;
    WritesExact(sql, s);
    if Lex(sql).Tokens? {
      TrimSpells(sql, Lex(sql).tokens);
    }
    if Lex(Trimmed(sql)).Tokens? {
      TrimSpells(sql, Lex(Trimmed(sql)).tokens);
    }
    NothingSaid();
  }

  lemma NothingSaid()
    ensures Lex("") == Tokens([]) && Parse([]) == None
  {
  }

  /** What a text does to a table: what its statement does, and nothing if it spells none. */
  lemma {:induction false} TextExact(t: Table, sql: string)
    requires Regular(t)
    ensures forall s :: Writes(sql, s) ==> Fits(s) && StepText(t, sql) == (Step(t, s).0, Some(Step(t, s).1))
    ensures (forall s :: !Writes(sql, s)) ==> StepText(t, sql) == (t, None)
  {
    hide StatementOf, Writes, Step, Fits;
    forall s ensures StatementOf(sql) == Some(s) <==> Writes(sql, s) {
      StatementExact(sql, s);
    }
  }

  // ---------- Pieces ----------

  /** A text that spells tokens, of which only the last is a semicolon, and ends there, ends at its first terminator. */
  lemma {:induction false} SpelledEnds(s: string, words: seq<string>, gaps: seq<string>, ts: seq<Token>)
    requires Lays(s, words, gaps, ts + [SEMICOLON]) && gaps[|ts| + 1] == ""
    requires forall i :: 0 <= i < |ts| ==> ts[i].kind != Semicolon
    ensures IsPiece(s)
    decreases |ts|
  {
    hide Says, Ends, Next, Terminator;
    var all := ts + [SEMICOLON];
    var n := |gaps[0]| + |words[0]|;
    var tail := words[0] + s[n..];
    WhiteSkipped(gaps[0], tail);
    SaysStart(words[0], all[0]);
    NextSpelled(words[0], all[0], s[n..]);
    assert tail[|words[0]|..] == s[n..];
    NextAgrees(tail);
    if ts == [] {
      assert all == [SEMICOLON] && s[n..] == "";
      assert tail[0] == ';' by { SemicolonStarts(tail, s[n..], words[0]); }
    } else {
      assert all[1..] == ts[1..] + [SEMICOLON];
      SpelledEnds(s[n..], words[1..], gaps[1..], ts[1..]);
      assert tail[0] != ';' by { NotSemicolon(tail); }
    }
  }

  lemma SemicolonStarts(tail: string, rest: string, w: string)
    requires tail == w + rest && Says(w, SEMICOLON)
    ensures tail[0] == ';' && |w| == 1
  {
  }

  lemma NotSemicolon(s: string)
    requires s != "" && !IsSpace(s[0]) && Next(s).Got? && Next(s).token.kind != Semicolon
    ensures s[0] != ';'
  {
  }

  lemma {:induction false} WhiteSkipped(gap: string, s: string)
    requires White(gap)
    ensures Terminator(gap + s, false) == Shift(|gap|, Terminator(s, false))
  {
    hide Terminator;
    SkipPlain(gap + s, |gap|);
    assert (gap + s)[|gap|..] == s;
  }

  /** Each statement that can be said has a text that stands as a piece in a file. */
  lemma {:induction false} TextIsPiece(s: Statement)
    requires Sayable(s)
    ensures IsStatement(StatementText(s)) && Writes(StatementText(s), s)
  {
    hide Printed, Lays, Sayable, Render, Says, IsPiece, Writes;
    var ts := Printed(s);
    TextRoundTrip(s);
    PrintedSaid(s);
    PrintedKinds(s);
    var words, gaps := RenderLays(ts);
    SpelledEnds(StatementText(s), words, gaps, ts);
    PrintedStarts(s);
  }

  lemma {:induction false} PrintedStarts(s: Statement)
    requires Sayable(s)
    ensures !WhiteChar(StatementText(s)[0])
  {
    hide Printed, Sayable, Says;
    PrintedParts(s);
    PrintedSaid(s);
    SaysStart(TokenText(Printed(s)[0]), Printed(s)[0]);
  }

  // ---------- Files ----------

  ghost function Answers(outs: seq<Outcome>): seq<Option<Outcome>> {
    seq(|outs|, i requires 0 <= i < |outs| => Some(outs[i]))
  }

  /** The pieces spell these statements. */
  ghost predicate AllWrite(pieces: seq<string>, ss: seq<Statement>) {
    |pieces| == |ss| && forall i :: 0 <= i < |ss| ==> Writes(pieces[i], ss[i])
  }

  lemma {:induction false} WrittenFit(pieces: seq<string>, ss: seq<Statement>)
    requires AllWrite(pieces, ss)
    ensures forall i :: 0 <= i < |ss| ==> Fits(ss[i])
  {
    hide Writes, Step, StepText;
    forall i | 0 <= i < |ss| ensures Fits(ss[i]) {
      assert Writes(pieces[i], ss[i]);
      TextExact(START, pieces[i]);
    }
  }

  lemma {:induction false} TextsRun(pieces: seq<string>, ss: seq<Statement>)
    requires AllWrite(pieces, ss) && forall i :: 0 <= i < |ss| ==> Fits(ss[i])
    ensures RunTexts(pieces) == (Run(ss).0, Answers(Run(ss).1))
  {
    hide Writes, Fits, Step, StepText;
    if ss == [] {
      assert pieces == [] && Answers([]) == [];
    } else {
      var n := |ss| - 1;
      TextsRun(pieces[..n], ss[..n]);
      assert Writes(pieces[n], ss[n]);
      TextExact(RunTexts(pieces[..n]).0, pieces[n]);
      var (t, outs) := Run(ss[..n]);
      var (t', out) := Step(t, ss[n]);
      assert Answers(outs + [out]) == Answers(outs) + [Some(out)];
    }
  }

  /** A file in which pieces that spell statements stand with any white space between and around them, and anything
      without a terminator behind them, runs as the statements do in the plain model. */
  lemma {:induction false} ScriptRuns(c: Cuts, ss: seq<Statement>)
    requires Proper(c) && AllWrite(c.pieces, ss)
    ensures forall i :: 0 <= i < |ss| ==> Fits(ss[i])
    ensures RunTexts(Split(Rebuilt(c.gaps, c.pieces, c.rest)).pieces) == (Run(ss).0, Answers(Run(ss).1))
  {
    hide Fits, Split, Proper, AllWrite;
    WrittenFit(c.pieces, ss);
    SplitOnly(c);
    TextsRun(c.pieces, ss);
  }
}
