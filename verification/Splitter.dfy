/** A file cut into statements at the semicolons outside quotes, and why the lexer agrees with the cuts. */
module Splitter {
  import opened Text
  import opened Options
  import opened Lexer
  import opened Reference
  import opened TextLaws
  import Spelling

  // ---------- Terminators ----------

  ghost function Shift(n: nat, r: Option<nat>): Option<nat> {
    if r.Some? then Some(n + r.value) else None
  }

  /** The first semicolon outside quotes. */
  ghost function Terminator(s: string, quoted: bool): (r: Option<nat>)
    ensures r.Some? ==> r.value < |s| && s[r.value] == ';'
  {
    if s == [] then None
    else if s[0] == '\'' then
      if quoted && |s| > 1 && s[1] == '\'' then Shift(2, Terminator(s[2..], true))
        else Shift(1, Terminator(s[1..], !quoted))
    else if !quoted && s[0] == ';' then Some(0)
    else Shift(1, Terminator(s[1..], quoted))
  }

  method FindTerminator(text: string, start: nat) returns (r: Option<nat>)
    requires start <= |text|
    ensures r == Shift(start, Terminator(text[start..], false))
  {
    hide Terminator;
    var i, quoted := start, false;
    while i < |text|
      invariant start <= i <= |text|
      invariant Shift(i, Terminator(text[i..], quoted)) == Shift(start, Terminator(text[start..], false))
    {
      TerminatorStep(text, i, quoted);
      if text[i] == '\'' {
        if quoted && i + 1 < |text| && text[i + 1] == '\'' {
          i := i + 1;
        } else {
          quoted := !quoted;
        }
      } else if !quoted && text[i] == ';' {
        return Some(i);
      }
      i := i + 1;
    }
    TerminatorEnd(quoted);
    return None;
  }

  lemma TerminatorEnd(quoted: bool)
    ensures Terminator("", quoted) == None
  {
  }

  lemma {:induction false} TerminatorStep(text: string, i: nat, quoted: bool)
    requires i < |text|
    ensures Shift(i, Terminator(text[i..], quoted)) ==
      if text[i] == '\'' then
        if quoted && i + 1 < |text| && text[i + 1] == '\'' then Shift(i + 2, Terminator(text[i + 2..], true))
        else Shift(i + 1, Terminator(text[i + 1..], !quoted))
      else if !quoted && text[i] == ';' then Some(i)
      else Shift(i + 1, Terminator(text[i + 1..], quoted))
  {
    assert text[i..][1..] == text[i + 1..];
    if i + 1 < |text| {
      assert text[i..][2..] == text[i + 2..];
    }
  }

  /** A semicolon with an even number of quotes in front of it. */
  ghost predicate TerminatorAt(s: string, quotes: nat, k: nat) {
    k < |s| && s[k] == ';' && (Count(s[..k], '\'') + quotes) % 2 == 0
  }

  lemma {:induction false} TerminatorLater(s: string, quotes: nat)
    requires s != ""
    ensures forall k :: 0 < k < |s| ==>
      (TerminatorAt(s, quotes, k) <==> TerminatorAt(s[1..], quotes + (if s[0] == '\'' then 1 else 0), k - 1))
    ensures TerminatorAt(s, quotes, 0) <==> s[0] == ';' && quotes % 2 == 0
  {
    forall k | 0 < k < |s|
      ensures Count(s[..k], '\'') == Count(s[1..][..k - 1], '\'') + (if s[0] == '\'' then 1 else 0)
    {
      assert s[..k][1..] == s[1..][..k - 1];
    }
  }

  lemma TerminatorParity(s: string, quotes: nat, k: nat)
    ensures TerminatorAt(s, quotes + 2, k) <==> TerminatorAt(s, quotes, k)
  {
  }

  /** The terminator is the first semicolon behind an even number of quotes. */
  lemma {:induction false} TerminatorExact(s: string, quoted: bool)
    ensures var r, quotes := Terminator(s, quoted), if quoted then 1 else 0;
      && (r.Some? ==> TerminatorAt(s, quotes, r.value))
      && forall k :: 0 <= k < (if r.Some? then r.value else |s|) ==> !TerminatorAt(s, quotes, k)
  {
    hide TerminatorAt;
    var quotes := if quoted then 1 else 0;
    if s != "" {
      TerminatorLater(s, quotes);
      if s[0] == '\'' {
        if quoted && |s| > 1 && s[1] == '\'' {
          TerminatorLater(s[1..], 2);
          TerminatorExact(s[2..], true);
          assert s[1..][1..] == s[2..];
          forall k | 1 < k < |s| ensures TerminatorAt(s, 1, k) <==> TerminatorAt(s[2..], 1, k - 2) {
            TerminatorParity(s[2..], 1, k - 2);
            assert TerminatorAt(s, 1, k) <==> TerminatorAt(s[1..], 2, k - 1);
          }
        } else {
          TerminatorExact(s[1..], !quoted);
          forall k | 0 <= k < |s| - 1 ensures TerminatorAt(s[1..], 2, k) <==> TerminatorAt(s[1..], 0, k) {
            TerminatorParity(s[1..], 0, k);
          }
        }
      } else if quoted || s[0] != ';' {
        TerminatorExact(s[1..], quoted);
      }
    }
  }

  /** A text that ends at its first terminator. */
  ghost predicate IsPiece(p: string) {
    p != [] && Terminator(p, false) == Some(|p| - 1)
  }

  lemma {:induction false} TerminatorCut(s: string, quoted: bool, rest: string)
    requires Terminator(s, quoted) == Some(|s| - 1)
    ensures Terminator(s + rest, quoted) == Some(|s| - 1)
  {
    if s[0] == '\'' {
      if quoted && |s| > 1 && s[1] == '\'' {
        TerminatorCut(s[2..], true, rest);
        assert (s + rest)[2..] == s[2..] + rest;
      } else {
        TerminatorCut(s[1..], !quoted, rest);
        assert (s + rest)[1..] == s[1..] + rest;
      }
    } else if quoted || s[0] != ';' {
      TerminatorCut(s[1..], quoted, rest);
      assert (s + rest)[1..] == s[1..] + rest;
    }
  }

  lemma {:induction false} TerminatorPrefix(s: string, quoted: bool)
    requires Terminator(s, quoted).Some?
    ensures Terminator(s[..Terminator(s, quoted).value + 1], quoted) == Terminator(s, quoted)
  {
    var k := Terminator(s, quoted).value;
    var p := s[..k + 1];
    if s[0] == '\'' {
      if quoted && |s| > 1 && s[1] == '\'' {
        TerminatorPrefix(s[2..], true);
        assert p[2..] == s[2..][..k - 1];
      } else {
        TerminatorPrefix(s[1..], !quoted);
        assert p[1..] == s[1..][..k];
      }
    } else if quoted || s[0] != ';' {
      TerminatorPrefix(s[1..], quoted);
      assert p[1..] == s[1..][..k];
    }
  }

  // ---------- One token ----------

  lemma {:induction false} SkipPlain(s: string, n: nat)
    requires n <= |s| && forall i :: 0 <= i < n ==> s[i] != '\'' && s[i] != ';'
    ensures Terminator(s, false) == Shift(n, Terminator(s[n..], false))
  {
    if n > 0 {
      SkipPlain(s[1..], n - 1);
      assert s[1..][n - 1..] == s[n..];
    } else {
      assert s[0..] == s;
    }
  }

  lemma {:induction false} QuotedAgrees(s: string)
    ensures Terminator(s, true) ==
      if Quoted(s).closed then Shift(Quoted(s).length, Terminator(s[Quoted(s).length..], false)) else None
  {
    hide Shift;
    if s != [] {
      var n := Quoted(s).length;
      if s[0] == '\'' {
        if |s| > 1 && s[1] == '\'' {
          QuotedAgrees(s[2..]);
          ShiftRest(s, 2, n - 2);
        }
      } else {
        QuotedAgrees(s[1..]);
        ShiftRest(s, 1, n - 1);
      }
    }
  }

  lemma {:induction false} ShiftRest(s: string, m: nat, n: nat)
    requires m <= |s|
    ensures Shift(m, None) == None
    ensures n <= |s| - m ==> s[m..][n..] == s[m + n..]
    ensures n <= |s| - m ==>
      Shift(m, Shift(n, Terminator(s[m..][n..], false))) == Shift(m + n, Terminator(s[m + n..], false))
  {
    if n <= |s| - m {
      assert s[m..][n..] == s[m + n..];
    }
  }

  lemma {:induction false} PlainToken(s: string)
    requires s != [] && !IsSpace(s[0]) && s[0] != '\'' && s[0] != ';' && Next(s).Got?
    ensures forall i :: 0 <= i < Next(s).length ==> s[i] != '\'' && s[i] != ';'
    ensures Next(s).token.kind != Semicolon
  {
    hide Upper, IsKeyword;
    if NumericStart(s) && !OperatorStart(s[0]) && Punctuation(s[0]).None? {
      var sign := s[0] == '-' || s[0] == '+';
      forall i | 0 <= i < NumberLength(s) ensures s[i] != '\'' && s[i] != ';' {
        if sign && i > 0 {
          assert s[1..][i - 1] == s[i];
        }
      }
    }
  }

  /** The terminator of a text is its first semicolon token. */
  lemma {:induction false} NextAgrees(s: string)
    requires s != [] && !IsSpace(s[0])
    ensures Next(s).Bad? && Next(s).reason == Unterminated ==> Terminator(s, false) == None
    ensures s[0] == ';' ==> Next(s) == Got(Token(Semicolon, ";"), 1) && Terminator(s, false) == Some(0)
    ensures s[0] != ';' && Next(s).Got? ==>
      Next(s).token.kind != Semicolon &&
        Terminator(s, false) == Shift(Next(s).length, Terminator(s[Next(s).length..], false))
  {
    if s[0] == '\'' {
      NextString(s);
    } else if s[0] != ';' {
      PlainNext(s);
    }
  }

  lemma {:induction false} NextString(s: string)
    requires s != [] && s[0] == '\''
    ensures Next(s).Bad? && Next(s).reason == Unterminated ==> Terminator(s, false) == None
    ensures Next(s).Got? ==>
      Next(s).token.kind != Semicolon &&
        Terminator(s, false) == Shift(Next(s).length, Terminator(s[Next(s).length..], false))
  {
    var n := Quoted(s[1..]).length;
    QuotedAgrees(s[1..]);
    ShiftRest(s, 1, n);
    hide Quoted;
  }

  lemma {:induction false} PlainNext(s: string)
    requires s != [] && !IsSpace(s[0]) && s[0] != '\'' && s[0] != ';'
    ensures Next(s).Bad? ==> Next(s).reason == Overlong
    ensures Next(s).Got? ==>
      Next(s).token.kind != Semicolon &&
        Terminator(s, false) == Shift(Next(s).length, Terminator(s[Next(s).length..], false))
  {
    hide Terminator, Upper, IsKeyword;
    if Next(s).Got? {
      PlainToken(s);
      SkipPlain(s, Next(s).length);
    }
  }

  // ---------- Pieces ----------

  ghost predicate OneSemicolon(ts: seq<Token>) {
    && ts != [] && ts[|ts| - 1].kind == Semicolon
    && forall i :: 0 <= i < |ts| - 1 ==> ts[i].kind != Semicolon
  }

  /** A piece lexes to tokens of which exactly the last is a semicolon, unless a token is too long: a string in
      it is never left open. */
  lemma {:induction false} PieceLexes(p: string)
    requires IsPiece(p)
    ensures Lex(p) == Refused(Overlong) || (Lex(p).Tokens? && OneSemicolon(Lex(p).tokens))
    decreases |p|
  {
    hide Next;
    if IsSpace(p[0]) {
      PieceLexes(p[1..]);
    } else {
      NextAgrees(p);
      if p[0] == ';' {
        assert p[Next(p).length..] == [];
        assert [Token(Semicolon, ";")] + [] == [Token(Semicolon, ";")];
      } else if Next(p).Got? {
        PieceLexes(p[Next(p).length..]);
      }
    }
  }

  ghost predicate NoSemicolon(ts: seq<Token>) {
    forall i :: 0 <= i < |ts| ==> ts[i].kind != Semicolon
  }

  /** A text without a terminator lexes to no semicolon, if it lexes at all. */
  lemma {:induction false} RestLexes(s: string)
    requires Terminator(s, false) == None
    ensures Lex(s).Refused? || NoSemicolon(Lex(s).tokens)
    decreases |s|
  {
    hide Next;
    if s != [] {
      if IsSpace(s[0]) {
        RestLexes(s[1..]);
      } else {
        NextAgrees(s);
        if Next(s).Got? {
          RestLexes(s[Next(s).length..]);
        }
      }
    }
  }

  // ---------- Lexing over a cut ----------

  lemma {:induction false} WordStable(s: string, rest: string)
    requires WordLength(s) < |s|
    ensures WordLength(s + rest) == WordLength(s)
  {
    if IsWordChar(s[0]) {
      WordStable(s[1..], rest);
      assert (s + rest)[1..] == s[1..] + rest;
    }
  }

  lemma {:induction false} DigitsStable(s: string, rest: string)
    requires DigitsLength(s) < |s|
    ensures DigitsLength(s + rest) == DigitsLength(s)
  {
    if IsDigit(s[0]) {
      DigitsStable(s[1..], rest);
      assert (s + rest)[1..] == s[1..] + rest;
    }
  }

  lemma {:induction false} QuotedStable(s: string, rest: string)
    requires Quoted(s).closed && Quoted(s).length < |s|
    ensures Quoted(s + rest) == Quoted(s)
  {
    if s[0] == '\'' {
      if s[1] == '\'' {
        QuotedStable(s[2..], rest);
        assert (s + rest)[2..] == s[2..] + rest;
      }
    } else {
      QuotedStable(s[1..], rest);
      assert (s + rest)[1..] == s[1..] + rest;
    }
  }

  lemma {:induction false} NextStable(p: string, rest: string)
    requires IsPiece(p) && !IsSpace(p[0])
    ensures Next(p + rest) == Next(p)
  {
    hide Upper, IsKeyword;
    var s := p + rest;
    assert s[0] == p[0] && (|p| > 1 ==> s[1] == p[1]);
    if p[0] == '\'' {
      assert s[1..] == p[1..] + rest;
      QuotedAgrees(p[1..]);
      QuotedStable(p[1..], rest);
    } else if Punctuation(p[0]) == None {
      assert |p| > 1 && p[|p| - 1] == ';';
      if OperatorStart(p[0]) {
        assert s[..OperatorLength(s)] == p[..OperatorLength(p)];
      } else if NumericStart(p) {
        NumberStable(p, rest);
        assert s[..NumberLength(s)] == p[..NumberLength(p)];
      } else if IsAlpha(p[0]) || p[0] == '_' {
        WordStable(p, rest);
        assert s[..WordLength(s)] == p[..WordLength(p)];
      }
    }
  }

  lemma {:induction false} NumberStable(p: string, rest: string)
    requires |p| > 1 && p[|p| - 1] == ';'
    ensures NumberLength(p + rest) == NumberLength(p)
  {
    if p[0] == '-' || p[0] == '+' {
      assert (p + rest)[1..] == p[1..] + rest;
      DigitsStable(p[1..], rest);
    } else {
      DigitsStable(p, rest);
    }
  }

  ghost function Append(a: Lexed, b: Lexed): Lexed {
    if a.Tokens? then Before(a.tokens, b) else a
  }

  lemma {:induction false} AppendBefore(t: Token, a: Lexed, b: Lexed)
    ensures Append(Before([t], a), b) == Before([t], Append(a, b))
    ensures Append(Tokens([]), b) == b
  {
    if a.Tokens? && b.Tokens? {
      assert [t] + a.tokens + b.tokens == [t] + (a.tokens + b.tokens);
    }
    if b.Tokens? {
      assert [] + b.tokens == b.tokens;
    }
  }

  /** Cutting at a terminator does not change the tokens. */
  lemma {:induction false} LexOverCut(p: string, rest: string)
    requires IsPiece(p)
    ensures Lex(p + rest) == Append(Lex(p), Lex(rest))
    decreases |p|
  {
    hide Next;
    var s := p + rest;
    if IsSpace(p[0]) {
      assert s[1..] == p[1..] + rest;
      LexOverCut(p[1..], rest);
    } else {
      NextStable(p, rest);
      NextAgrees(p);
      if Next(p).Got? {
        var n := Next(p).length;
        assert s[n..] == p[n..] + rest;
        AppendBefore(Next(p).token, Lex(p[n..]), Lex(rest));
        if p[0] == ';' {
          assert p[n..] == [] && p[n..] + rest == rest;
        } else {
          LexOverCut(p[n..], rest);
        }
      }
    }
  }

  // ---------- Whole files ----------

  function SpaceLength(s: string): (n: nat)
    ensures n <= |s| && (forall i :: 0 <= i < n ==> IsSpace(s[i])) && (n < |s| ==> !IsSpace(s[n]))
  {
    if s == [] || !IsSpace(s[0]) then 0 else 1 + SpaceLength(s[1..])
  }

  /** White space before each piece and before the rest, the pieces, and what stands behind the last terminator. */
  datatype Cuts = Cuts(gaps: seq<string>, pieces: seq<string>, rest: string)

  ghost function Split(content: string): (c: Cuts)
    ensures |c.gaps| == |c.pieces| + 1
  {
    var gap := content[..SpaceLength(content)];
    var s := content[SpaceLength(content)..];
    match Terminator(s, false)
    case None => Cuts([gap], [], s)
    case Some(k) =>
      var later := Split(s[k + 1..]);
      Cuts([gap] + later.gaps, [s[..k + 1]] + later.pieces, later.rest)
  }

  ghost function Rebuilt(gaps: seq<string>, pieces: seq<string>, rest: string): string
    requires |gaps| == |pieces| + 1
  {
    if pieces == [] then gaps[0] + rest else gaps[0] + (pieces[0] + Rebuilt(gaps[1..], pieces[1..], rest))
  }

  ghost predicate IsStatement(p: string) {
    IsPiece(p) && !WhiteChar(p[0])
  }

  lemma {:induction false} SpaceExact(s: string)
    ensures White(s[..SpaceLength(s)]) && (SpaceLength(s) < |s| ==> !WhiteChar(s[SpaceLength(s)]))
  {
    hide IsSpace, WhiteChar;
    forall i | 0 <= i < |s| ensures IsSpace(s[i]) <==> WhiteChar(s[i]) {
      CharsExact(s[i]);
    }
  }

  lemma {:induction false} SpaceOf(gap: string, s: string)
    requires White(gap) && (s != "" ==> !WhiteChar(s[0]))
    ensures SpaceLength(gap + s) == |gap|
  {
    hide IsSpace, WhiteChar;
    var t := gap + s;
    if gap != "" {
      CharsExact(t[0]);
      SpaceOf(gap[1..], s);
      assert t[1..] == gap[1..] + s;
    } else if s != "" {
      CharsExact(s[0]);
      assert t == s;
    }
  }

  ghost predicate Proper(c: Cuts) {
    && |c.gaps| == |c.pieces| + 1
    && (forall i :: 0 <= i < |c.gaps| ==> White(c.gaps[i]))
    && (forall i :: 0 <= i < |c.pieces| ==> IsStatement(c.pieces[i]))
    && Terminator(c.rest, false) == None && (c.rest != "" ==> !WhiteChar(c.rest[0]))
  }

  lemma {:induction false} ProperMore(gap: string, piece: string, later: Cuts)
    requires White(gap) && IsStatement(piece) && Proper(later)
    ensures Proper(Cuts([gap] + later.gaps, [piece] + later.pieces, later.rest))
    ensures Rebuilt([gap] + later.gaps, [piece] + later.pieces, later.rest) ==
      gap + (piece + Rebuilt(later.gaps, later.pieces, later.rest))
  {
    hide IsStatement, White, Terminator;
    assert ([gap] + later.gaps)[1..] == later.gaps && ([piece] + later.pieces)[1..] == later.pieces;
  }

  /** The cuts of a file: white space, pieces that end at their first terminator, and a rest without one. Put
      together they are the file. */
  lemma {:induction false} SplitRebuilds(content: string)
    ensures var c := Split(content); Proper(c) && Rebuilt(c.gaps, c.pieces, c.rest) == content
    decreases |content|
  {
    hide Terminator, SpaceLength, WhiteChar, White, Split, Proper, Rebuilt;
    var gap := content[..SpaceLength(content)];
    var s := content[SpaceLength(content)..];
    SpaceExact(content);
    assert content == gap + s;
    SplitFirst(gap, s);
    if Terminator(s, false).Some? {
      var k := Terminator(s, false).value;
      TerminatorPrefix(s, false);
      SplitRebuilds(s[k + 1..]);
      ProperMore(gap, s[..k + 1], Split(s[k + 1..]));
      assert s == s[..k + 1] + s[k + 1..];
    } else {
      ProperNone(gap, s);
    }
  }

  lemma ProperNone(gap: string, s: string)
    requires White(gap) && Terminator(s, false) == None && (s != "" ==> !WhiteChar(s[0]))
    ensures Proper(Cuts([gap], [], s)) && Rebuilt([gap], [], s) == gap + s
  {
  }

  lemma {:induction false} SplitFirst(gap: string, s: string)
    requires White(gap) && (s != "" ==> !WhiteChar(s[0]))
    ensures Split(gap + s) ==
      match Terminator(s, false)
      case None => Cuts([gap], [], s)
      case Some(k) =>
        var later := Split(s[k + 1..]);
        Cuts([gap] + later.gaps, [s[..k + 1]] + later.pieces, later.rest)
  {
    hide Terminator, SpaceLength, White;
    SpaceOf(gap, s);
    assert (gap + s)[..|gap|] == gap && (gap + s)[|gap|..] == s;
  }

  /** There is no other way to cut a file so: put together, pieces with white space between them are cut again just
      where they were put together. */
  lemma {:induction false} SplitOnly(c: Cuts)
    requires Proper(c)
    ensures Split(Rebuilt(c.gaps, c.pieces, c.rest)) == c
    decreases |c.pieces|
  {
    hide Terminator, Split, White, WhiteChar;
    if c.pieces == [] {
      SplitFirst(c.gaps[0], c.rest);
    } else {
      var p, later := c.pieces[0], Cuts(c.gaps[1..], c.pieces[1..], c.rest);
      SplitOnly(later);
      var rest := Rebuilt(later.gaps, later.pieces, later.rest);
      TerminatorCut(p, false, rest);
      assert (p + rest)[..|p|] == p && (p + rest)[|p|..] == rest && (p + rest)[0] == p[0];
      SplitFirst(c.gaps[0], p + rest);
      assert c.gaps == [c.gaps[0]] + later.gaps && c.pieces == [p] + later.pieces;
    }
  }

  ghost function LexAll(pieces: seq<string>, rest: string): Lexed {
    if pieces == [] then Lex(rest) else Append(Lex(pieces[0]), LexAll(pieces[1..], rest))
  }

  /** The pieces of a text that does not start with white space, and what remains behind them. */
  ghost function PiecesOf(s: string): seq<string> {
    match Terminator(s, false)
    case None => []
    case Some(k) => [s[..k + 1]] + Split(s[k + 1..]).pieces
  }

  ghost function RestOf(s: string): string {
    match Terminator(s, false)
    case None => s
    case Some(k) => Split(s[k + 1..]).rest
  }

  lemma {:induction false} SplitPieces(s: string)
    ensures Split(s).pieces == PiecesOf(s[SpaceLength(s)..])
  {
    hide Terminator, SpaceLength;
  }

  lemma {:induction false} SplitRest(s: string)
    ensures Split(s).rest == RestOf(s[SpaceLength(s)..])
  {
    hide Terminator, SpaceLength;
    var t := s[SpaceLength(s)..];
    match Terminator(t, false)
    case None =>
    case Some(k) =>
      var later := Split(t[k + 1..]);
      hide Split;
      assert RestOf(t) == later.rest;
  }

  /** Lexing a file at once gives the tokens of its pieces, one after the other, and of the rest. */
  lemma {:induction false} FileLexes(content: string)
    ensures Lex(content) == LexAll(Split(content).pieces, Split(content).rest)
    decreases |content|
  {
    hide Lex, Terminator, Append, Split, SpaceLength;
    SplitPieces(content);
    SplitRest(content);
    var gap := content[..SpaceLength(content)];
    var s := content[SpaceLength(content)..];
    assert content == gap + s;
    SpaceExact(content);
    Spelling.LexWhite(gap, s);
    if Terminator(s, false).Some? {
      var k := Terminator(s, false).value;
      FileLexes(s[k + 1..]);
      LexCut(s);
      LexAllMore(s[..k + 1], Split(s[k + 1..]).pieces, Split(content).rest);
    } else {
      LexAllNone(s);
    }
  }

  lemma {:induction false} LexCut(s: string)
    requires Terminator(s, false).Some?
    ensures var k := Terminator(s, false).value; Lex(s) == Append(Lex(s[..k + 1]), Lex(s[k + 1..]))
  {
    hide Lex, Terminator, Append;
    var k := Terminator(s, false).value;
    TerminatorPrefix(s, false);
    LexOverCut(s[..k + 1], s[k + 1..]);
    assert s == s[..k + 1] + s[k + 1..];
  }

  lemma LexAllNone(rest: string)
    ensures LexAll([], rest) == Lex(rest)
  {
  }

  lemma {:induction false} LexAllMore(piece: string, pieces: seq<string>, rest: string)
    ensures LexAll([piece] + pieces, rest) == Append(Lex(piece), LexAll(pieces, rest))
  {
    hide Lex, Append;
    assert ([piece] + pieces)[1..] == pieces;
  }
}
