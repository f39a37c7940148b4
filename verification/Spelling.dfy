/** How tokens are written: a text lexes to a list of tokens exactly if it spells them, in any letter case and with any
    white space between them, each ending where it cannot go on. */
module Spelling {
  import opened Text
  import opened Lexer
  import opened Reference
  import opened TextLaws

  function Doubled(value: string): string {
    if value == [] then ""
    else (if value[0] == '\'' then "''" else [value[0]]) + Doubled(value[1..])
  }

  /** A word that is no keyword. */
  ghost predicate NameText(w: string) {
    && w != "" && (LetterChar(w[0]) || w[0] == '_') && (forall i :: 0 <= i < |w| ==> NameChar(w[i]))
    && !Reserved(w)
  }

  /** A character that no other token starts with. */
  ghost predicate Stray(c: char) {
    !WhiteChar(c) && !NameChar(c) && c !in {'(', ')', ',', ';', '*', '\'', '!', '<', '>', '='}
  }

  /** The text spells the token. */
  ghost predicate Says(w: string, t: Token) {
    && |t.value| <= 255
    && match t.kind
       case Keyword =>
         t.value in {"INSERT", "SELECT", "DELETE", "INTO", "FROM", "WHERE", "VALUES"} && SameName(w, t.value)
       case Identifier => w == t.value && (w == "*" || NameText(w))
       case IntLiteral => w == t.value && IntegerText(w)
       case StrLiteral => w == ['\''] + (Doubled(t.value) + ['\''])
       case Operator => w == t.value && w in {"=", "!", "<", ">", "!=", "<=", ">="}
       case LParen => w == t.value == "("
       case RParen => w == t.value == ")"
       case Comma => w == t.value == ","
       case Semicolon => w == t.value == ";"
       case Unknown => w == t.value && |w| == 1 && Stray(w[0])
  }

  /** The token does not go on into what follows. */
  ghost predicate Ends(t: Token, rest: string) {
    rest == "" ||
    match t.kind
    case Keyword => !NameChar(rest[0])
    case Identifier => t.value == "*" || !NameChar(rest[0])
    case IntLiteral => !DigitChar(rest[0])
    case StrLiteral => rest[0] != '\''
    case Operator => t.value !in {"!", "<", ">"} || rest[0] != '='
    case Unknown => t.value !in {"+", "-"} || !DigitChar(rest[0])
    case _ => true
  }

  // ---------- From spelling to token ----------

  lemma {:induction false} WordEnds(word: string, rest: string)
    requires forall i :: 0 <= i < |word| ==> IsWordChar(word[i])
    requires rest == [] || !IsWordChar(rest[0])
    ensures WordLength(word + rest) == |word|
  {
    if word == [] {
      assert word + rest == rest;
    } else {
      WordEnds(word[1..], rest);
      assert (word + rest)[1..] == word[1..] + rest;
    }
  }

  lemma {:induction false} DigitsEnd(digits: string, rest: string)
    requires AllDigits(digits) && (rest == [] || !IsDigit(rest[0]))
    ensures DigitsLength(digits + rest) == |digits|
  {
    if digits == [] {
      assert digits + rest == rest;
    } else {
      DigitsEnd(digits[1..], rest);
      assert (digits + rest)[1..] == digits[1..] + rest;
    }
  }

  lemma {:induction false} DoubledQuoted(value: string, rest: string)
    requires rest == [] || rest[0] != '\''
    ensures Quoted(Doubled(value) + (['\''] + rest)) == Body(value, |Doubled(value)| + 1, true)
  {
    hide Quoted;
    if value == [] {
      assert Doubled(value) + (['\''] + rest) == ['\''] + rest;
      QuotedEnds(rest);
    } else {
      var tail := Doubled(value[1..]) + (['\''] + rest);
      DoubledQuoted(value[1..], rest);
      QuotedFirst(value[0], tail);
      assert [value[0]] + value[1..] == value;
      var first := if value[0] == '\'' then "''" else [value[0]];
      assert Doubled(value) + (['\''] + rest) == first + tail;
    }
  }

  lemma {:induction false} QuotedEnds(rest: string)
    requires rest == [] || rest[0] != '\''
    ensures Quoted(['\''] + rest) == Body("", 1, true)
  {
  }

  lemma {:induction false} QuotedFirst(c: char, tail: string)
    ensures var first, b := if c == '\'' then "''" else [c], Quoted(tail);
      Quoted(first + tail) == Body([c] + b.value, |first| + b.length, b.closed)
  {
    var first := if c == '\'' then "''" else [c];
    assert (first + tail)[|first|..] == tail;
  }

  lemma WordCharExact(c: char)
    ensures IsWordChar(c) <==> NameChar(c)
  {
    CharsExact(c);
  }

  lemma {:induction false} KeywordExact(w: string)
    ensures IsKeyword(w) <==> Reserved(w)
    ensures forall k :: k in KEYWORDS && SameName(w, k) ==> Upper(w) == k
    ensures IsKeyword(w) ==> SameName(w, Upper(w)) && Upper(w) in KEYWORDS
  {
    hide Upper, SameName, EqualsIgnoreCase;
    forall k | k in KEYWORDS ensures SameName(w, k) <==> Upper(w) == k {
      UpperKeyword(k, w);
      NamesExact(w, k);
    }
    KeywordList();
  }

  lemma {:induction false} KeywordList()
    ensures forall k :: k in KEYWORDS <==> k in {"INSERT", "SELECT", "DELETE", "INTO", "FROM", "WHERE", "VALUES"}
  {
    assert KEYWORDS[0] == "INSERT" && KEYWORDS[1] == "SELECT" && KEYWORDS[2] == "DELETE" && KEYWORDS[3] == "INTO";
    assert KEYWORDS[4] == "FROM" && KEYWORDS[5] == "WHERE" && KEYWORDS[6] == "VALUES";
  }

  lemma {:induction false} NextWord(w: string, rest: string)
    requires w != "" && (LetterChar(w[0]) || w[0] == '_') && forall i :: 0 <= i < |w| ==> NameChar(w[i])
    requires rest == "" || !NameChar(rest[0])
    ensures Next(w + rest) == Limited(WordToken(w), |w|)
  {
    hide Reserved, Upper, IsKeyword;
    var s := w + rest;
    assert s[0] == w[0];
    forall i | 0 <= i < |w| ensures IsWordChar(w[i]) {
      WordCharExact(w[i]);
    }
    if rest != "" {
      WordCharExact(rest[0]);
    }
    WordEnds(w, rest);
    assert s[..|w|] == w;
  }

  lemma {:induction false} NextInteger(w: string, rest: string)
    requires IntegerText(w) && (rest == "" || !DigitChar(rest[0]))
    ensures Next(w + rest) == Limited(Token(IntLiteral, w), |w|)
  {
    hide IsKeyword, Upper, Quoted, WordLength, IntegerValue, ParseInteger, NumberOf;
    var s := w + rest;
    assert s[0] == w[0];
    IntegersExact(w);
    if rest != "" {
      CharsExact(rest[0]);
    }
    if Signed(w) {
      DigitsEnd(w[1..], rest);
      assert s[1..] == w[1..] + rest && s[1] == w[1..][0];
    } else {
      DigitsEnd(w, rest);
    }
    assert s[..|w|] == w && NumericStart(s) && NumberLength(s) == |w|;
  }

  lemma {:induction false} NextString(value: string, rest: string)
    requires |value| <= MAX_TOKEN_LENGTH && (rest == "" || rest[0] != '\'')
    ensures var w := ['\''] + (Doubled(value) + ['\'']); Next(w + rest) == Got(Token(StrLiteral, value), |w|)
  {
    var w := ['\''] + (Doubled(value) + ['\'']);
    DoubledQuoted(value, rest);
    assert (w + rest)[1..] == Doubled(value) + (['\''] + rest);
  }

  lemma {:induction false} NextOperator(op: string, rest: string)
    requires op in {"=", "!", "<", ">", "!=", "<=", ">="}
    requires rest == "" || op !in {"!", "<", ">"} || rest[0] != '='
    ensures Next(op + rest) == Got(Token(Operator, op), |op|)
  {
    var s := op + rest;
    assert s[0] == op[0];
    if |op| == 1 {
      assert rest != "" ==> s[1] == rest[0];
    } else {
      assert s[1] == op[1];
    }
    assert s[..|op|] == op;
  }

  lemma {:induction false} NextPunctuation(c: char, rest: string)
    requires Punctuation(c).Some?
    ensures Next([c] + rest) == Got(Punctuation(c).value, 1)
  {
  }

  lemma {:induction false} NextStray(c: char, rest: string)
    requires Stray(c) && (rest == "" || c !in {'+', '-'} || !DigitChar(rest[0]))
    ensures Next([c] + rest) == Got(Token(Unknown, [c]), 1)
  {
    var s := [c] + rest;
    CharsExact(c);
    if rest != "" {
      CharsExact(rest[0]);
      assert s[1] == rest[0];
    }
  }

  lemma {:induction false} SaysStart(w: string, t: Token)
    requires Says(w, t)
    ensures w != "" && !WhiteChar(w[0]) && !IsSpace(w[0])
  {
    hide IsSpace;
    if w != "" {
      CharsExact(w[0]);
    }
    if t.kind == IntLiteral && w != "" {
      assert w[0] == '+' || w[0] == '-' || DigitChar(w[0]);
    }
  }

  /** What spells a token, and ends there, is read as this token. */
  lemma {:induction false} NextSpelled(w: string, t: Token, rest: string)
    requires Says(w, t) && Ends(t, rest)
    ensures Next(w + rest) == Got(t, |w|)
  {
    hide Next, IsKeyword, Upper, Reserved, SameName, IntegerText, NameChar, Stray, WhiteChar, DigitChar;
    match t.kind
    case Keyword =>
      KeywordSpelled(w, t, rest);
    case Identifier =>
      if w == "*" {
        NextPunctuation('*', rest);
      } else {
        NextWord(w, rest);
        KeywordExact(w);
      }
    case IntLiteral =>
      NextInteger(w, rest);
    case StrLiteral =>
      NextString(t.value, rest);
    case Operator =>
      NextOperator(w, rest);
    case LParen => NextPunctuation('(', rest);
    case RParen => NextPunctuation(')', rest);
    case Comma => NextPunctuation(',', rest);
    case Semicolon => NextPunctuation(';', rest);
    case Unknown =>
      assert w == [w[0]];
      assert w[0] == '+' ==> w == "+";
      assert w[0] == '-' ==> w == "-";
      NextStray(w[0], rest);
  }

  lemma {:induction false} KeywordSpelled(w: string, t: Token, rest: string)
    requires t.kind == Keyword && Says(w, t) && Ends(t, rest)
    ensures Next(w + rest) == Got(t, |w|)
  {
    hide Next, Upper, IsKeyword, Reserved;
    KeywordList();
    KeywordExact(w);
    assert Reserved(w) by { ReservedSame(w, t.value); }
    KeywordLetters(t.value);
    forall i | 0 <= i < |w| ensures LetterChar(w[i]) {
      assert SameLetter(w[i], t.value[i]) && LetterChar(t.value[i]);
    }
    NextWord(w, rest);
  }

  lemma ReservedSame(w: string, keyword: string)
    requires keyword in {"INSERT", "SELECT", "DELETE", "INTO", "FROM", "WHERE", "VALUES"} && SameName(w, keyword)
    ensures Reserved(w)
  {
  }

  lemma KeywordLetters(keyword: string)
    requires keyword in {"INSERT", "SELECT", "DELETE", "INTO", "FROM", "WHERE", "VALUES"}
    ensures 0 < |keyword| <= 6 && forall i :: 0 <= i < |keyword| ==> LetterChar(keyword[i])
  {
  }

  // ---------- From token to spelling ----------

  lemma {:induction false} QuotedOnly(s: string)
    requires Quoted(s).closed
    ensures var b := Quoted(s);
      && s[..b.length] == Doubled(b.value) + ['\''] && (b.length < |s| ==> s[b.length] != '\'')
  {
    hide Doubled;
    var b := Quoted(s);
    if s[0] == '\'' {
      if |s| > 1 && s[1] == '\'' {
        QuotedOnly(s[2..]);
        assert s[..b.length] == "''" + s[2..][..b.length - 2];
        DoubledFirst('\'', Quoted(s[2..]).value);
      } else {
        DoubledFirst('\'', "");
        assert s[..1] == Doubled("") + ['\''];
      }
    } else {
      QuotedOnly(s[1..]);
      assert s[..b.length] == [s[0]] + s[1..][..b.length - 1];
      DoubledFirst(s[0], Quoted(s[1..]).value);
    }
  }

  lemma {:induction false} DoubledFirst(c: char, value: string)
    ensures Doubled([c] + value) + ['\''] ==
      (if c == '\'' then "''" else [c]) + (Doubled(value) + ['\''])
    ensures Doubled("") == ""
  {
    assert ([c] + value)[1..] == value;
  }

  lemma {:induction false} WordOnly(s: string)
    requires s != "" && (LetterChar(s[0]) || s[0] == '_') && Next(s).Got?
    ensures var t, n := Next(s).token, Next(s).length; n <= |s| && Says(s[..n], t) && Ends(t, s[n..])
  {
    hide Reserved, Upper, SameName, KEYWORDS;
    CharsExact(s[0]);
    var n := WordLength(s);
    var w := s[..n];
    WordCharExact(s[0]);
    forall i | 0 <= i < n ensures NameChar(w[i]) {
      WordCharExact(s[i]);
    }
    if n < |s| {
      WordCharExact(s[n]);
    }
    KeywordExact(w);
    KeywordList();
  }

  lemma {:induction false} NumberOnly(s: string)
    requires s != "" && NumericStart(s) && Next(s).Got?
    ensures var t, n := Next(s).token, Next(s).length; n <= |s| && Says(s[..n], t) && Ends(t, s[n..])
  {
    var n := NumberLength(s);
    var w := s[..n];
    var start := if s[0] == '-' || s[0] == '+' then 1 else 0;
    CharsExact(s[start]);
    assert s[start..][0] == s[start] && s[0..] == s;
    forall i | start <= i < n ensures DigitChar(w[i]) {
      CharsExact(s[i]);
      assert s[start..][i - start] == s[i];
    }
    if n < |s| {
      CharsExact(s[n]);
      assert s[start..][n - start] == s[n];
    }
    assert start == 1 ==> forall i :: 0 <= i < n - 1 ==> w[1..][i] == w[i + 1];
  }

  lemma {:induction false} StringOnly(s: string)
    requires s != "" && s[0] == '\'' && Next(s).Got?
    ensures var t, n := Next(s).token, Next(s).length; n <= |s| && Says(s[..n], t) && Ends(t, s[n..])
  {
    hide Quoted, Doubled;
    var b := Quoted(s[1..]);
    QuotedOnly(s[1..]);
    assert s[..b.length + 1] == ['\''] + s[1..][..b.length];
  }

  /** What is read as a token spells it, and ends there. */
  lemma {:induction false} NextOnly(s: string)
    requires s != "" && !IsSpace(s[0]) && Next(s).Got?
    ensures var t, n := Next(s).token, Next(s).length; n <= |s| && Says(s[..n], t) && Ends(t, s[n..])
  {
    hide Reserved, Upper, SameName, IsKeyword, Quoted, Doubled, WordLength, DigitsLength;
    CharsExact(s[0]);
    if Punctuation(s[0]).Some? {
      assert s[..1] == [s[0]];
    } else if s[0] == '\'' {
      StringOnly(s);
    } else if OperatorStart(s[0]) {
      OperatorOnly(s);
    } else if NumericStart(s) {
      NumberOnly(s);
    } else if LetterChar(s[0]) || s[0] == '_' {
      WordOnly(s);
    } else {
      assert s[..1] == [s[0]];
      if |s| > 1 {
        CharsExact(s[1]);
      }
    }
  }

  lemma {:induction false} OperatorOnly(s: string)
    requires s != "" && OperatorStart(s[0])
    ensures Next(s).Got?
    ensures var t, n := Next(s).token, Next(s).length; n <= |s| && Says(s[..n], t) && Ends(t, s[n..])
  {
    var n := OperatorLength(s);
    if n == 1 {
      assert s[..1] == [s[0]];
    } else {
      assert s[..2] == [s[0], s[1]];
    }
  }

  // ---------- Whole texts ----------

  /** The text consists of these words with this white space around them, and the words spell the tokens. */
  ghost predicate Lays(s: string, words: seq<string>, gaps: seq<string>, ts: seq<Token>)
    decreases |ts|
  {
    && |words| == |ts| && |gaps| == |ts| + 1 && White(gaps[0])
    && if ts == [] then s == gaps[0]
       else
         var n := |gaps[0]| + |words[0]|;
         && n <= |s| && s == gaps[0] + (words[0] + s[n..])
         && Says(words[0], ts[0]) && Ends(ts[0], s[n..]) && Lays(s[n..], words[1..], gaps[1..], ts[1..])
  }

  lemma {:induction false} LexWhite(gap: string, s: string)
    requires White(gap)
    ensures Lex(gap + s) == Lex(s)
  {
    if gap == [] {
      assert gap + s == s;
    } else {
      LexWhite(gap[1..], s);
      CharsExact(gap[0]);
      assert (gap + s)[1..] == gap[1..] + s;
    }
  }

  lemma {:induction false} LexLaid(s: string, words: seq<string>, gaps: seq<string>, ts: seq<Token>)
    requires Lays(s, words, gaps, ts)
    ensures Lex(s) == Tokens(ts)
    decreases |ts|
  {
    hide Next, Says, Ends, White;
    if ts == [] {
      LexWhite(s, "");
      assert s + "" == s;
    } else {
      var n := |gaps[0]| + |words[0]|;
      var tail := words[0] + s[n..];
      LexWhite(gaps[0], tail);
      SaysStart(words[0], ts[0]);
      NextSpelled(words[0], ts[0], s[n..]);
      assert tail[|words[0]|..] == s[n..];
      LexLaid(s[n..], words[1..], gaps[1..], ts[1..]);
      assert [ts[0]] + ts[1..] == ts;
    }
  }

  lemma {:induction false} LexLays(s: string) returns (words: seq<string>, gaps: seq<string>)
    requires Lex(s).Tokens?
    ensures Lays(s, words, gaps, Lex(s).tokens)
    decreases |s|
  {
    hide Next, Says, Ends;
    if s == "" {
      words, gaps := [], [""];
    } else if IsSpace(s[0]) {
      words, gaps := LexLays(s[1..]);
      CharsExact(s[0]);
      GapGrows(s, words, gaps, Lex(s).tokens);
      gaps := [[s[0]] + gaps[0]] + gaps[1..];
    } else {
      var t, n := Next(s).token, Next(s).length;
      NextOnly(s);
      words, gaps := LexLays(s[n..]);
      LaysMore(s[..n], t, s[n..], words, gaps, Lex(s[n..]).tokens);
      assert s == s[..n] + s[n..];
      words, gaps := [s[..n]] + words, [""] + gaps;
    }
  }

  /** One more word in front of a text. */
  lemma {:induction false} LaysMore(w: string, t: Token, s: string, words: seq<string>, gaps: seq<string>,
      ts: seq<Token>)
    requires Says(w, t) && Ends(t, s) && Lays(s, words, gaps, ts)
    ensures Lays(w + s, [w] + words, [""] + gaps, [t] + ts)
  {
    hide Says, Ends;
    assert ([t] + ts)[1..] == ts && ([w] + words)[1..] == words && ([""] + gaps)[1..] == gaps;
    assert (w + s)[|w|..] == s && w + s == "" + (w + s);
  }

  lemma {:induction false} GapGrows(s: string, words: seq<string>, gaps: seq<string>, ts: seq<Token>)
    requires s != "" && WhiteChar(s[0]) && Lays(s[1..], words, gaps, ts)
    ensures Lays(s, words, [[s[0]] + gaps[0]] + gaps[1..], ts)
  {
    hide Says, Ends;
    var more := [[s[0]] + gaps[0]] + gaps[1..];
    assert more[1..] == gaps[1..];
    assert s == [s[0]] + s[1..];
    if ts != [] {
      var n := |gaps[0]| + |words[0]|;
      assert s[1..][n..] == s[n + 1..];
      assert [s[0]] + (gaps[0] + (words[0] + s[n + 1..])) == more[0] + (words[0] + s[n + 1..]);
    }
  }

  /** The text spells the tokens, in some way. */
  ghost predicate Spells(s: string, ts: seq<Token>) {
    exists words, gaps :: Lays(s, words, gaps, ts)
  }

  /** A text lexes to a list of tokens if and only if it spells them. */
  lemma {:induction false} LexExact(s: string, ts: seq<Token>)
    ensures Lex(s) == Tokens(ts) <==> Spells(s, ts)
  {
    hide Lays;
    if Lex(s) == Tokens(ts) {
      var words, gaps := LexLays(s);
    }
    if words, gaps :| Lays(s, words, gaps, ts) {
      LexLaid(s, words, gaps, ts);
    }
  }
}
