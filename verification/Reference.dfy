/** The words in which the laws of this project are stated: characters one by one, letters in either case, the order of
    texts by position, the number a text stands for, and what a condition asks of a cell. Nothing here uses the
    functions of the program that the laws are about. */
module Reference {

  // ---------- Characters ----------

  ghost predicate WhiteChar(c: char) {
    c in {' ', '\t', '\n', '\U{0B}', '\U{0C}', '\r'}
  }

  ghost predicate White(text: string) {
    forall i :: 0 <= i < |text| ==> WhiteChar(text[i])
  }

  ghost predicate DigitChar(c: char) {
    c in {'0', '1', '2', '3', '4', '5', '6', '7', '8', '9'}
  }

  ghost predicate LetterChar(c: char) {
    'A' <= c <= 'Z' || 'a' <= c <= 'z'
  }

  ghost predicate NameChar(c: char) {
    LetterChar(c) || DigitChar(c) || c == '_'
  }

  ghost function Count(s: string, c: char): nat {
    if s == "" then 0 else (if s[0] == c then 1 else 0) + Count(s[1..], c)
  }

  // ---------- Names in any case ----------

  /** The same character, or one ASCII letter in both cases: these are 32 apart. */
  ghost predicate SameLetter(c: char, d: char) {
    || c == d
    || ('A' <= c <= 'Z' && d as int == c as int + 32)
    || ('A' <= d <= 'Z' && c as int == d as int + 32)
  }

  ghost predicate SameName(a: string, b: string) {
    |a| == |b| && forall i :: 0 <= i < |a| ==> SameLetter(a[i], b[i])
  }

  /** A keyword of the language, in any case. */
  ghost predicate Reserved(word: string) {
    || SameName(word, "INSERT") || SameName(word, "SELECT") || SameName(word, "DELETE") || SameName(word, "INTO")
    || SameName(word, "FROM") || SameName(word, "WHERE") || SameName(word, "VALUES")
  }

  ghost predicate Named(columns: seq<string>, name: string) {
    exists i :: 0 <= i < |columns| && SameName(columns[i], name)
  }

  /** The place of the first column with this name. */
  ghost predicate FirstNamed(columns: seq<string>, name: string, i: int) {
    0 <= i < |columns| && SameName(columns[i], name) && forall j :: 0 <= j < i ==> !SameName(columns[j], name)
  }

  // ---------- Numbers ----------

  ghost function Digit(c: char): nat
    requires DigitChar(c)
  {
    match c
    case '0' => 0 case '1' => 1 case '2' => 2 case '3' => 3 case '4' => 4
    case '5' => 5 case '6' => 6 case '7' => 7 case '8' => 8 case _ => 9
  }

  ghost function Power10(k: nat): nat {
    if k == 0 then 1 else 10 * Power10(k - 1)
  }

  ghost predicate DigitText(s: string) {
    s != "" && forall i :: 0 <= i < |s| ==> DigitChar(s[i])
  }

  /** Each digit counts by its place. */
  ghost function PlaceValue(s: string): nat
    requires forall i :: 0 <= i < |s| ==> DigitChar(s[i])
  {
    if s == "" then 0 else Digit(s[0]) * Power10(|s| - 1) + PlaceValue(s[1..])
  }

  /** Digits, with or without a sign in front. */
  ghost predicate IntegerText(s: string) {
    DigitText(s) || (s != "" && (s[0] == '+' || s[0] == '-') && DigitText(s[1..]))
  }

  ghost function IntegerValue(s: string): int
    requires IntegerText(s)
  {
    if s[0] == '-' then -(PlaceValue(s[1..]) as int) else if s[0] == '+' then PlaceValue(s[1..]) else PlaceValue(s)
  }

  /** A number cut off at the ends of 64 bits. */
  ghost function Cut(n: int): int {
    if n < -9223372036854775808 then -9223372036854775808
    else if n > 9223372036854775807 then 9223372036854775807
    else n
  }

  // ---------- Conditions ----------

  /** Byte order: up to some place the texts are the same, and there the first one ends or has the smaller character. */
  ghost predicate Precedes(a: string, b: string) {
    exists k :: 0 <= k <= |a| && k < |b| && a[..k] == b[..k] && (k == |a| || a[k] < b[k])
  }

  /** Integers by number, everything else by byte order. */
  ghost predicate Below(a: string, b: string) {
    if IntegerText(a) && IntegerText(b) then Cut(IntegerValue(a)) < Cut(IntegerValue(b)) else Precedes(a, b)
  }

  ghost predicate Equal(a: string, b: string) {
    if IntegerText(a) && IntegerText(b) then Cut(IntegerValue(a)) == Cut(IntegerValue(b)) else a == b
  }

  ghost predicate Comparison(op: string) {
    op in {"=", "!=", ">", ">=", "<", "<="}
  }

  /** What a condition asks of a cell; no cell satisfies an unknown operator. */
  ghost predicate Satisfies(cell: string, op: string, value: string) {
    || (op == "=" && Equal(cell, value))
    || (op == "!=" && !Equal(cell, value))
    || (op == ">" && Below(value, cell))
    || (op == ">=" && !Below(cell, value))
    || (op == "<" && Below(cell, value))
    || (op == "<=" && !Below(value, cell))
  }
}
