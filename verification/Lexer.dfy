/** SQL text cut into tokens. */
module Lexer {
  import opened Text
  import opened Options
  import opened Sql

  datatype Kind =
    | Keyword | Identifier | IntLiteral | StrLiteral | Operator | LParen | RParen | Comma | Semicolon | Unknown

  datatype Token = Token(kind: Kind, value: string)

  /** A token and the number of characters it takes, or the reason why there is none. */
  datatype Scan = Got(token: Token, length: nat) | Bad(reason: Reason)

  datatype Reason = Overlong | Unterminated

  datatype Lexed = Tokens(tokens: seq<Token>) | Refused(reason: Reason)

  const MAX_TOKEN_LENGTH := MAX_TOKEN_VALUE - 1

  // ---------- One token ----------

  predicate IsWordChar(c: char) {
    IsAlpha(c) || IsDigit(c) || c == '_'
  }

  ghost function WordLength(s: string): (n: nat)
    ensures n <= |s| && (forall i :: 0 <= i < n ==> IsWordChar(s[i])) && (n < |s| ==> !IsWordChar(s[n]))
  {
    if s == [] || !IsWordChar(s[0]) then 0 else 1 + WordLength(s[1..])
  }

  ghost function DigitsLength(s: string): (n: nat)
    ensures n <= |s| && (forall i :: 0 <= i < n ==> IsDigit(s[i])) && (n < |s| ==> !IsDigit(s[n]))
  {
    if s == [] || !IsDigit(s[0]) then 0 else 1 + DigitsLength(s[1..])
  }

  /** What follows an opening quote: the text, the characters up to and with the closing quote, if there is one. */
  datatype Body = Body(value: string, length: nat, closed: bool)

  ghost function Quoted(s: string): (b: Body)
    ensures b.length <= |s|
  {
    if s == [] then Body("", 0, false)
    else if s[0] == '\'' then
      if |s| > 1 && s[1] == '\'' then var b := Quoted(s[2..]); Body(['\''] + b.value, b.length + 2, b.closed)
      else Body("", 1, true)
    else var b := Quoted(s[1..]); Body([s[0]] + b.value, b.length + 1, b.closed)
  }

  const KEYWORDS := ["INSERT", "SELECT", "DELETE", "INTO", "FROM", "WHERE", "VALUES"]

  predicate IsKeyword(text: string) {
    Upper(text) in KEYWORDS
  }

  function Upper(text: string): (r: string)
    ensures |r| == |text|
  {
    seq(|text|, i requires 0 <= i < |text| => ToUpper(text[i]))
  }

  predicate NumericStart(s: string) {
    s != [] && (IsDigit(s[0]) || ((s[0] == '-' || s[0] == '+') && |s| > 1 && IsDigit(s[1])))
  }

  predicate OperatorStart(c: char) {
    c == '!' || c == '<' || c == '>' || c == '='
  }

  ghost function NumberLength(s: string): (n: nat)
    requires s != []
    ensures n <= |s|
  {
    if s[0] == '-' || s[0] == '+' then 1 + DigitsLength(s[1..]) else DigitsLength(s)
  }

  function OperatorLength(s: string): (n: nat)
    requires s != []
    ensures 1 <= n <= |s|
  {
    if s[0] != '=' && |s| > 1 && s[1] == '=' then 2 else 1
  }

  ghost function WordToken(word: string): Token {
    if IsKeyword(word) then Token(Keyword, Upper(word)) else Token(Identifier, word)
  }

  function Punctuation(c: char): Option<Token> {
    if c == '(' then Some(Token(LParen, "("))
    else if c == ')' then Some(Token(RParen, ")"))
    else if c == ',' then Some(Token(Comma, ","))
    else if c == ';' then Some(Token(Semicolon, ";"))
    else if c == '*' then Some(Token(Identifier, "*"))
    else None
  }

  ghost function Limited(token: Token, length: nat): Scan {
    if |token.value| > MAX_TOKEN_LENGTH then Bad(Overlong) else Got(token, length)
  }

  /** The token at the start of a text that does not start with white space. */
  ghost function Next(s: string): (r: Scan)
    requires s != [] && !IsSpace(s[0])
    ensures r.Got? ==> 0 < r.length <= |s|
  {
    if Punctuation(s[0]).Some? then Got(Punctuation(s[0]).value, 1)
    else if s[0] == '\'' then
      var b := Quoted(s[1..]);
      if |b.value| > MAX_TOKEN_LENGTH then Bad(Overlong)
      else if !b.closed then Bad(Unterminated)
      else Got(Token(StrLiteral, b.value), b.length + 1)
    else if OperatorStart(s[0]) then Got(Token(Operator, s[..OperatorLength(s)]), OperatorLength(s))
    else if NumericStart(s) then Limited(Token(IntLiteral, s[..NumberLength(s)]), NumberLength(s))
    else if IsAlpha(s[0]) || s[0] == '_' then Limited(WordToken(s[..WordLength(s)]), WordLength(s))
    else Got(Token(Unknown, [s[0]]), 1)
  }

  // ---------- All tokens ----------

  ghost function Lex(s: string): Lexed {
    if s == [] then Tokens([])
    else if IsSpace(s[0]) then Lex(s[1..])
    else
      match Next(s)
      case Bad(reason) => Refused(reason)
      case Got(token, length) => Before([token], Lex(s[length..]))
  }

  ghost function Before(front: seq<Token>, rest: Lexed): Lexed {
    if rest.Tokens? then Tokens(front + rest.tokens) else rest
  }

  lemma {:induction false} BeforeTwice(a: seq<Token>, t: Token, rest: Lexed)
    ensures Before(a, Before([t], rest)) == Before(a + [t], rest)
    ensures Before([], rest) == rest
  {
    if rest.Tokens? {
      assert a + ([t] + rest.tokens) == a + [t] + rest.tokens;
      assert [] + rest.tokens == rest.tokens;
    }
  }

  method ReadWord(sql: string, start: nat) returns (ok: bool, word: string, end: nat)
    requires start <= |sql|
    ensures ok <==> WordLength(sql[start..]) <= MAX_TOKEN_LENGTH
    ensures ok ==> end == start + WordLength(sql[start..]) && word == sql[start..end]
  {
    word, end := "", start;
    while end < |sql| && IsWordChar(sql[end])
      invariant start <= end <= |sql| && word == sql[start..end] && |word| <= MAX_TOKEN_LENGTH
      invariant WordLength(sql[start..]) == end - start + WordLength(sql[end..])
    {
      assert sql[end..][1..] == sql[end + 1..];
      if |word| + 1 >= MAX_TOKEN_VALUE {
        return false, word, end;
      }
      word := word + [sql[end]];
      end := end + 1;
    }
    return true, word, end;
  }

  method ReadNumber(sql: string, start: nat) returns (ok: bool, number: string, end: nat)
    requires start < |sql|
    ensures ok <==> NumberLength(sql[start..]) <= MAX_TOKEN_LENGTH
    ensures ok ==> end == start + NumberLength(sql[start..]) && number == sql[start..end]
  {
    hide DigitsLength;
    number, end := "", start;
    if sql[end] == '-' || sql[end] == '+' {
      number := [sql[end]];
      end := end + 1;
    }
    assert sql[start..][1..] == sql[start + 1..];
    ok, number, end := ReadDigits(sql, start, end, number);
  }

  /** Reads the digits that follow what has been read of a number. */
  method ReadDigits(sql: string, start: nat, from: nat, read: string) returns (ok: bool, number: string, end: nat)
    requires start <= from <= |sql| && read == sql[start..from] && |read| <= 1
    ensures ok <==> from - start + DigitsLength(sql[from..]) <= MAX_TOKEN_LENGTH
    ensures ok ==> end == from + DigitsLength(sql[from..]) && number == sql[start..end]
  {
    number, end := read, from;
    while end < |sql| && IsDigit(sql[end])
      invariant from <= end <= |sql| && number == sql[start..end] && |number| <= MAX_TOKEN_LENGTH
      invariant DigitsLength(sql[from..]) == end - from + DigitsLength(sql[end..])
    {
      assert sql[end..][1..] == sql[end + 1..];
      if |number| + 1 >= MAX_TOKEN_VALUE {
        return false, number, end;
      }
      number := number + [sql[end]];
      end := end + 1;
    }
    return true, number, end;
  }

  ghost function Extend(value: string, length: nat, rest: Body): Body {
    Body(value + rest.value, length + rest.length, rest.closed)
  }

  lemma {:induction false} QuotedStep(s: string, value: string, length: nat)
    requires s != []
    ensures Extend(value, length, Quoted(s)) ==
      if s[0] != '\'' then Extend(value + [s[0]], length + 1, Quoted(s[1..]))
      else if |s| > 1 && s[1] == '\'' then Extend(value + ['\''], length + 2, Quoted(s[2..]))
      else Body(value, length + 1, true)
  {
    if s[0] != '\'' {
      ExtendOne(value, length, s[0], 1, Quoted(s[1..]));
    } else if |s| > 1 && s[1] == '\'' {
      ExtendOne(value, length, '\'', 2, Quoted(s[2..]));
    } else {
      assert value + "" == value;
    }
  }

  lemma {:induction false} ExtendOne(value: string, length: nat, c: char, more: nat, b: Body)
    ensures Extend(value, length, Body([c] + b.value, b.length + more, b.closed)) ==
      Extend(value + [c], length + more, b)
  {
    assert value + ([c] + b.value) == value + [c] + b.value;
  }

  /** Reads a string literal; `start` is at its opening quote. */
  method ReadString(sql: string, start: nat) returns (r: Scan)
    requires start < |sql| && sql[start] == '\''
    ensures r == Next(sql[start..])
  {
    hide Quoted;
    var value, i := "", start + 1;
    ghost var body := Quoted(sql[start + 1..]);
    assert sql[start..][1..] == sql[start + 1..];
    assert Extend("", 0, body) == body;
    while i < |sql|
      invariant start < i <= |sql| && |value| <= MAX_TOKEN_LENGTH
      invariant Extend(value, i - start - 1, Quoted(sql[i..])) == body
    {
      QuotedStep(sql[i..], value, i - start - 1);
      assert sql[i..][1..] == sql[i + 1..];
      if sql[i] == '\'' && !(i + 1 < |sql| && sql[i + 1] == '\'') {
        return Got(Token(StrLiteral, value), i + 1 - start);
      }
      if |value| + 1 >= MAX_TOKEN_VALUE {
        return Bad(Overlong);
      }
      value := value + [sql[i]];
      if sql[i] == '\'' {
        assert sql[i..][2..] == sql[i + 2..];
        i := i + 2;
      } else {
        i := i + 1;
      }
    }
    QuotedEmpty();
    assert value + "" == value;
    return Bad(Unterminated);
  }

  lemma QuotedEmpty()
    ensures Quoted("") == Body("", 0, false)
  {
  }

  method TestKeyword(word: string) returns (r: bool)
    ensures r == IsKeyword(word)
  {
    var i := 0;
    while i < |KEYWORDS|
      invariant 0 <= i <= |KEYWORDS|
      invariant forall j :: 0 <= j < i ==> Upper(word) != KEYWORDS[j]
    {
      UpperKeyword(KEYWORDS[i], word);
      var equal := TestEqualsIgnoreCase(word, KEYWORDS[i]);
      if equal {
        return true;
      }
      i := i + 1;
    }
    return false;
  }

  lemma {:induction false} UpperKeyword(keyword: string, word: string)
    requires keyword in KEYWORDS
    ensures EqualsIgnoreCase(word, keyword) <==> Upper(word) == keyword
  {
    assert Upper(keyword) == keyword;
    if EqualsIgnoreCase(word, keyword) {
      assert Upper(word) == Upper(keyword);
    } else if |word| == |keyword| {
      var k :| 0 <= k < |word| && ToUpper(word[k]) != ToUpper(keyword[k]);
      assert Upper(word)[k] != Upper(keyword)[k];
    }
  }

  method ReadToken(sql: string, start: nat) returns (r: Scan)
    requires start < |sql| && !IsSpace(sql[start])
    ensures r == Next(sql[start..])
  {
    ghost var s := sql[start..];
    assert s[0] == sql[start];
    if Punctuation(sql[start]).Some? {
      return Got(Punctuation(sql[start]).value, 1);
    }
    if sql[start] == '\'' {
      r := ReadString(sql, start);
      return;
    }
    if OperatorStart(sql[start]) {
      var length := OperatorLength(sql[start..]);
      return Got(Token(Operator, sql[start..][..length]), length);
    }
    if NumericStart(sql[start..]) {
      var ok, number, end := ReadNumber(sql, start);
      assert ok ==> sql[start..end] == s[..end - start];
      return if ok then Got(Token(IntLiteral, number), end - start) else Bad(Overlong);
    }
    if IsAlpha(sql[start]) || sql[start] == '_' {
      var ok, word, end := ReadWord(sql, start);
      if !ok {
        return Bad(Overlong);
      }
      assert sql[start..end] == s[..end - start];
      var isKeyword := TestKeyword(word);
      return Got(if isKeyword then Token(Keyword, Upper(word)) else Token(Identifier, word), end - start);
    }
    return Got(Token(Unknown, [sql[start]]), 1);
  }

  method TokenizeSql(sql: string) returns (r: Lexed)
    ensures r == Lex(sql)
  {
    hide Next;
    var tokens: seq<Token> := [];
    var i := 0;
    assert sql[0..] == sql;
    BeforeTwice([], Token(Unknown, ""), Lex(sql));
    while i < |sql|
      invariant 0 <= i <= |sql|
      invariant Before(tokens, Lex(sql[i..])) == Lex(sql)
    {
      assert sql[i..][1..] == sql[i + 1..];
      if IsSpace(sql[i]) {
        i := i + 1;
      } else {
        var scan := ReadToken(sql, i);
        if scan.Bad? {
          return Refused(scan.reason);
        }
        assert sql[i..][scan.length..] == sql[i + scan.length..];
        BeforeTwice(tokens, scan.token, Lex(sql[i + scan.length..]));
        tokens := tokens + [scan.token];
        i := i + scan.length;
      }
    }
    assert tokens + [] == tokens;
    return Tokens(tokens);
  }
}
