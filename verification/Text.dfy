/** Character strings: what stands before the terminating NUL. The C locale is fixed. */
module Text {

  const LLONG_MIN := -0x8000_0000_0000_0000
  const LLONG_MAX := 0x7FFF_FFFF_FFFF_FFFF
  const INT_MAX := 0x7FFF_FFFF

  // ---------- Characters ----------

  predicate IsSpace(c: char) {
    c == ' ' || '\t' <= c <= '\r'
  }

  predicate IsDigit(c: char) {
    '0' <= c <= '9'
  }

  predicate IsAlpha(c: char) {
    'a' <= c <= 'z' || 'A' <= c <= 'Z'
  }

  function ToUpper(c: char): char {
    if 'a' <= c <= 'z' then c - 'a' + 'A' else c
  }

  // ---------- Comparison without case ----------

  ghost predicate EqualsIgnoreCase(a: string, b: string) {
    |a| == |b| && forall i :: 0 <= i < |a| ==> ToUpper(a[i]) == ToUpper(b[i])
  }

  method TestEqualsIgnoreCase(lhs: string, rhs: string) returns (equal: bool)
    ensures equal == EqualsIgnoreCase(lhs, rhs)
  {
    var i := 0;
    while i < |lhs| && i < |rhs|
      invariant 0 <= i <= |lhs| && i <= |rhs|
      invariant forall j :: 0 <= j < i ==> ToUpper(lhs[j]) == ToUpper(rhs[j])
    {
      if ToUpper(lhs[i]) != ToUpper(rhs[i]) {
        return false;
      }
      i := i + 1;
    }
    return i == |lhs| && i == |rhs|;
  }

  // ---------- Integers ----------

  predicate AllDigits(s: string) {
    forall i :: 0 <= i < |s| ==> IsDigit(s[i])
  }

  predicate Signed(s: string) {
    s != [] && (s[0] == '-' || s[0] == '+')
  }

  /** A sign and at least one digit, or digits alone. */
  predicate IsInteger(s: string) {
    if Signed(s) then |s| > 1 && AllDigits(s[1..]) else s != [] && AllDigits(s)
  }

  method TestIsInteger(text: string) returns (r: bool)
    ensures r == IsInteger(text)
  {
    if |text| == 0 {
      return false;
    }
    var i := 0;
    if text[0] == '-' || text[0] == '+' {
      if |text| == 1 {
        return false;
      }
      i := 1;
    }
    ghost var start := i;
    while i < |text|
      invariant start <= i <= |text|
      invariant forall j :: start <= j < i ==> IsDigit(text[j])
    {
      if !IsDigit(text[i]) {
        assert start == 1 ==> text[1..][i - 1] == text[i];
        return false;
      }
      i := i + 1;
    }
    return true;
  }

  function Magnitude(digits: string): nat
    requires AllDigits(digits)
  {
    if digits == [] then 0
    else Magnitude(digits[..|digits| - 1]) * 10 + (digits[|digits| - 1] as int - '0' as int)
  }

  /** The number that an integer literal stands for, however large. */
  function NumberOf(s: string): int
    requires IsInteger(s)
  {
    if !Signed(s) then Magnitude(s)
    else if s[0] == '-' then -(Magnitude(s[1..]) as int)
    else Magnitude(s[1..])
  }

  /** What `strtoll` makes of an integer literal: its number, cut off at the ends of `long long`. */
  function ParseInteger(s: string): (v: int)
    requires IsInteger(s)
    ensures LLONG_MIN <= v <= LLONG_MAX
  {
    var v := NumberOf(s);
    if v < LLONG_MIN then LLONG_MIN else if v > LLONG_MAX then LLONG_MAX else v
  }

  /** The digits of a number, as `%lld` prints them. */
  function Digits(n: nat): (s: string)
    ensures s != [] && AllDigits(s) && Magnitude(s) == n
  {
    var last := ['0' + (n % 10) as char];
    if n < 10 then last
    else
      var s := Digits(n / 10) + last;
      assert s[..|s| - 1] == Digits(n / 10);
      s
  }

  function Decimal(n: int): (s: string)
    ensures IsInteger(s) && NumberOf(s) == n
    ensures LLONG_MIN <= n <= LLONG_MAX ==> ParseInteger(s) == n
  {
    if n < 0 then
      var s := ['-'] + Digits(-n);
      assert s[1..] == Digits(-n);
      s
    else
      Digits(n)
  }

  // ---------- Order of values ----------

  function Sign(n: int): int {
    if n < 0 then -1 else if n > 0 then 1 else 0
  }

  /** Byte order of strings, as the sign of `strcmp`. */
  function StrCmp(a: string, b: string): (c: int)
    ensures c == 0 <==> a == b
  {
    if a == [] || b == [] then |a| - |b|
    else if a[0] != b[0] then a[0] as int - b[0] as int
    else StrCmp(a[1..], b[1..])
  }

  /** Two integers compare as numbers, anything else as strings. */
  function CompareValues(a: string, b: string): int {
    if IsInteger(a) && IsInteger(b) then Sign(ParseInteger(a) - ParseInteger(b)) else Sign(StrCmp(a, b))
  }

  /** Both numbers are cut off at the same end of `long long`, or lie just there. */
  ghost predicate SameEnd(a: int, b: int) {
    (a >= LLONG_MAX && b >= LLONG_MAX) || (a <= LLONG_MIN && b <= LLONG_MIN)
  }

  /** Integers compare as the numbers they stand for if and only if these are equal or are not cut off at one end;
      if they are, they compare as equal. */
  lemma CompareExactly(a: string, b: string)
    requires IsInteger(a) && IsInteger(b)
    ensures CompareValues(a, b) == Sign(NumberOf(a) - NumberOf(b)) <==>
      NumberOf(a) == NumberOf(b) || !SameEnd(NumberOf(a), NumberOf(b))
    ensures CompareValues(a, b) == 0 <==> NumberOf(a) == NumberOf(b) || SameEnd(NumberOf(a), NumberOf(b))
  {
  }

  // ---------- Copies of limited length ----------

  /** Copying into a buffer of this size keeps what fits, and succeeds when everything did. */
  function SafeCopy(size: nat, s: string): (r: (string, bool))
    requires size > 0
    ensures r.1 <==> |s| < size
    ensures |r.0| < size && r.0 <= s && (r.1 ==> r.0 == s) && (!r.1 ==> r.0 == s[..size - 1])
  {
    if |s| < size then (s, true) else (s[..size - 1], false)
  }

  /** The text of a buffer, up to its first NUL. */
  function CString(s: string): (r: string)
    ensures r <= s && '\0' !in r && ('\0' !in s ==> r == s)
  {
    if s == [] || s[0] == '\0' then "" else [s[0]] + CString(s[1..])
  }

  // ---------- White space at the ends ----------

  ghost function TrimEnd(s: string): (r: string)
    ensures r <= s && (r != "" ==> !IsSpace(r[|r| - 1]))
  {
    if s != [] && IsSpace(s[|s| - 1]) then TrimEnd(s[..|s| - 1]) else s
  }

  ghost function TrimStart(s: string): (r: string)
    ensures |r| <= |s| && r == s[|s| - |r|..] && (r != "" ==> !IsSpace(r[0]))
  {
    if s != [] && IsSpace(s[0]) then TrimStart(s[1..]) else s
  }

  ghost function Trimmed(s: string): string {
    TrimStart(TrimEnd(s))
  }

  lemma {:induction false} CStringLength(s: string)
    requires '\0' in s
    ensures |CString(s)| < |s| && s[|CString(s)|] == '\0'
  {
    if s[0] != '\0' {
      assert '\0' in s[1..];
      CStringLength(s[1..]);
    }
  }

  lemma {:induction false} CStringIs(s: string, n: nat)
    requires n < |s| && s[n] == '\0' && forall i :: 0 <= i < n ==> s[i] != '\0'
    ensures CString(s) == s[..n]
  {
    if n > 0 {
      CStringIs(s[1..], n - 1);
      assert [s[0]] + s[1..][..n - 1] == s[..n];
    }
  }

  /** Removes white space from both ends of the text in a buffer. */
  method Trim(text: array<char>)
    requires '\0' in text[..]
    modifies text
    ensures '\0' in text[..] && CString(text[..]) == Trimmed(old(CString(text[..])))
  {
    hide CString, TrimStart, TrimEnd;
    var length := DropEnd(text);
    DropStart(text, length);
  }

  method DropEnd(text: array<char>) returns (length: nat)
    requires '\0' in text[..]
    modifies text
    ensures length < text.Length && text[length] == '\0' && '\0' !in text[..length]
    ensures text[..length] == TrimEnd(old(CString(text[..])))
  {
    ghost var before := CString(text[..]);
    CStringLength(text[..]);
    length := |CString(text[..])|;
    assert before[..length] == before == text[..length];
    while length > 0 && IsSpace(text[length - 1])
      invariant length <= |before| < text.Length && before[..length] == text[..length] && text[length] == '\0'
      invariant TrimEnd(before[..length]) == TrimEnd(before)
    {
      assert before[..length][..length - 1] == before[..length - 1];
      text[length - 1] := '\0';
      length := length - 1;
    }
    assert '\0' !in before[..length];
  }

  method DropStart(text: array<char>, length: nat)
    requires length < text.Length && text[length] == '\0' && '\0' !in text[..length]
    modifies text
    ensures '\0' in text[..] && CString(text[..]) == TrimStart(old(text[..length]))
  {
    ghost var kept := text[..length];
    var start := FirstKept(text, length);
    assert kept[start..] == text[start..length];
    if start > 0 {
      MoveDown(text, start, length);
    }
    assert kept[start..] == text[..length - start];
    CStringIs(text[..], length - start);
  }

  method FirstKept(text: array<char>, length: nat) returns (start: nat)
    requires length < text.Length
    ensures start <= length && TrimStart(text[..length]) == text[start..length]
  {
    ghost var kept := text[..length];
    start := 0;
    assert kept[0..] == kept;
    while start < length && IsSpace(text[start])
      invariant 0 <= start <= length && TrimStart(kept[start..]) == TrimStart(kept)
    {
      assert kept[start..][1..] == kept[start + 1..];
      start := start + 1;
    }
    assert text[start..length] == kept[start..];
  }

  /** What `memmove` does: the characters from `start` to `end` go to the front of the buffer. */
  method MoveDown(text: array<char>, start: nat, end: nat)
    requires start <= end < text.Length
    modifies text
    ensures text[..end - start + 1] == old(text[start..end + 1])
    ensures text[..end - start] == old(text[start..end]) && text[end - start] == old(text[end])
  {
    forall i | 0 <= i <= end - start {
      text[i] := text[start + i];
    }
  }
}
