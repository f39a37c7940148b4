/** What the basic functions on texts mean, in the words of `Reference`. */
module TextLaws {
  import opened Text
  import opened TableModel
  import opened Reference

  // ---------- Characters ----------

  /** The classes of characters, one by one. */
  lemma CharsExact(c: char)
    ensures IsSpace(c) <==> WhiteChar(c)
    ensures IsDigit(c) <==> DigitChar(c)
    ensures IsAlpha(c) <==> LetterChar(c)
  {
  }

  lemma CaseExact(c: char, d: char)
    ensures ToUpper(c) == ToUpper(d) <==> SameLetter(c, d)
  {
  }

  /** Names are the same without regard to case exactly if they differ in the case of ASCII letters only. */
  lemma {:induction false} NamesExact(a: string, b: string)
    ensures EqualsIgnoreCase(a, b) <==> SameName(a, b)
  {
    if |a| == |b| {
      forall i | 0 <= i < |a| ensures ToUpper(a[i]) == ToUpper(b[i]) <==> SameLetter(a[i], b[i]) {
        CaseExact(a[i], b[i]);
      }
    }
  }

  /** The search for a column finds the first one of this name, if there is one. */
  lemma {:induction false} FindExact(columns: seq<string>, name: string)
    ensures var i := FindColumn(columns, name); if Named(columns, name) then FirstNamed(columns, name, i) else i == -1
  {
    hide EqualsIgnoreCase, SameName;
    forall i | 0 <= i < |columns| ensures EqualsIgnoreCase(columns[i], name) <==> SameName(columns[i], name) {
      NamesExact(columns[i], name);
    }
  }

  // ---------- Numbers ----------

  lemma {:induction false} PlaceLast(s: string)
    requires s != "" && forall i :: 0 <= i < |s| ==> DigitChar(s[i])
    ensures PlaceValue(s) == PlaceValue(s[..|s| - 1]) * 10 + Digit(s[|s| - 1])
  {
    hide Digit, DigitChar;
    var n := |s| - 1;
    if n > 0 {
      PlaceLast(s[1..]);
      assert s[1..][..n - 1] == s[..n][1..];
      var d, p := Digit(s[0]), Power10(n - 1);
      assert d * (10 * p) == (d * p) * 10;
    }
  }

  /** The value of digits is the sum of the digits by their places. */
  lemma {:induction false} MagnitudeExact(s: string)
    requires AllDigits(s)
    ensures (forall i :: 0 <= i < |s| ==> DigitChar(s[i])) && Magnitude(s) == PlaceValue(s)
  {
    forall i | 0 <= i < |s| ensures DigitChar(s[i]) {
      CharsExact(s[i]);
    }
    if s != "" {
      MagnitudeExact(s[..|s| - 1]);
      PlaceLast(s);
      DigitExact(s[|s| - 1]);
    }
  }

  lemma DigitExact(c: char)
    requires DigitChar(c)
    ensures Digit(c) == c as int - '0' as int
  {
  }

  lemma {:induction false} DigitsExact(s: string)
    ensures AllDigits(s) <==> forall i :: 0 <= i < |s| ==> DigitChar(s[i])
  {
    hide IsDigit, DigitChar;
    forall i | 0 <= i < |s| ensures IsDigit(s[i]) <==> DigitChar(s[i]) {
      CharsExact(s[i]);
    }
  }

  /** The integer literals, and the numbers they are taken for. */
  lemma {:induction false} IntegersExact(s: string)
    ensures IsInteger(s) <==> IntegerText(s)
    ensures IsInteger(s) ==> NumberOf(s) == IntegerValue(s) && ParseInteger(s) == Cut(IntegerValue(s))
  {
    DigitsExact(s);
    if s != "" {
      DigitsExact(s[1..]);
    }
    if IsInteger(s) {
      MagnitudeExact(if Signed(s) then s[1..] else s);
      if Signed(s) {
        assert !DigitChar(s[0]);
      } else {
        assert DigitChar(s[0]);
      }
    }
  }

  /** The printed number has a minus sign exactly if it is negative, and no zero in front. */
  lemma {:induction false} DecimalExact(n: int)
    ensures IntegerText(Decimal(n)) && IntegerValue(Decimal(n)) == n
    ensures Decimal(n)[0] == '-' <==> n < 0
    ensures Decimal(n)[0] != '+'
    ensures n != 0 ==> Decimal(n)[if n < 0 then 1 else 0] != '0'
    ensures n == 0 ==> Decimal(n) == "0"
  {
    IntegersExact(Decimal(n));
    NoLeadingZero(if n < 0 then -n else n);
  }

  lemma {:induction false} NoLeadingZero(n: nat)
    ensures IsDigit(Digits(n)[0]) && (n > 0 ==> Digits(n)[0] != '0') && (n == 0 ==> Digits(n) == "0")
  {
    if n >= 10 {
      NoLeadingZero(n / 10);
    }
  }

  // ---------- Order ----------

  lemma {:induction false} PrecedesFirst(a: string, b: string)
    ensures b == "" ==> !Precedes(a, b)
    ensures a == "" && b != "" ==> Precedes(a, b)
    ensures a != "" && b != "" && a[0] != b[0] ==> (Precedes(a, b) <==> a[0] < b[0])
    ensures a != "" && b != "" && a[0] == b[0] ==> (Precedes(a, b) <==> Precedes(a[1..], b[1..]))
  {
    if a == "" && b != "" {
      assert a[..0] == b[..0];
    }
    if a != "" && b != "" {
      assert a[..0] == b[..0];
      if a[0] == b[0] {
        PrecedesRest(a, b);
      } else {
        forall k | 0 < k <= |a| && k < |b| ensures a[..k] != b[..k] {
          assert a[..k][0] != b[..k][0];
        }
      }
    }
  }

  lemma {:induction false} PrecedesRest(a: string, b: string)
    requires a != "" && b != "" && a[0] == b[0]
    ensures Precedes(a, b) <==> Precedes(a[1..], b[1..])
  {
    if k :| 0 <= k <= |a| && k < |b| && a[..k] == b[..k] && (k == |a| || a[k] < b[k]) {
      assert k > 0;
      assert a[1..][..k - 1] == a[..k][1..] && b[1..][..k - 1] == b[..k][1..];
    }
    var c, d := a[1..], b[1..];
    if k :| 0 <= k <= |c| && k < |d| && c[..k] == d[..k] && (k == |c| || c[k] < d[k]) {
      assert a[..k + 1] == [a[0]] + a[1..][..k] && b[..k + 1] == [b[0]] + b[1..][..k];
    }
  }

  /** The order of strings is byte order. */
  lemma {:induction false} OrderExact(a: string, b: string)
    ensures StrCmp(a, b) < 0 <==> Precedes(a, b)
    ensures StrCmp(a, b) > 0 <==> Precedes(b, a)
    ensures StrCmp(a, b) == 0 <==> a == b
  {
    hide Precedes;
    PrecedesFirst(a, b);
    PrecedesFirst(b, a);
    if a != "" && b != "" && a[0] == b[0] {
      OrderExact(a[1..], b[1..]);
    }
  }

  /** Values compare as integers if both are, and by byte order otherwise. */
  lemma {:induction false} CompareExact(a: string, b: string)
    ensures CompareValues(a, b) < 0 <==> Below(a, b)
    ensures CompareValues(a, b) > 0 <==> Below(b, a)
    ensures CompareValues(a, b) == 0 <==> Equal(a, b)
  {
    hide StrCmp, Precedes, IsInteger, IntegerText, ParseInteger, IntegerValue;
    IntegersExact(a);
    IntegersExact(b);
    OrderExact(a, b);
  }

  /** A cell matches a condition exactly if it satisfies it. */
  lemma {:induction false} MatchesExact(cell: string, op: string, value: string)
    ensures Matches(CompareValues(cell, value), op) <==> Satisfies(cell, op, value)
  {
    hide CompareValues, Below, Equal;
    CompareExact(cell, value);
  }

  // ---------- White space at the ends ----------

  lemma {:induction false} TrimEndExact(s: string)
    ensures White(s[|TrimEnd(s)|..])
  {
    if s != [] && IsSpace(s[|s| - 1]) {
      TrimEndExact(s[..|s| - 1]);
      CharsExact(s[|s| - 1]);
      assert s[|TrimEnd(s)|..] == s[..|s| - 1][|TrimEnd(s)|..] + [s[|s| - 1]];
    }
  }

  lemma {:induction false} TrimStartExact(s: string)
    ensures White(s[..|s| - |TrimStart(s)|])
  {
    if s != [] && IsSpace(s[0]) {
      TrimStartExact(s[1..]);
      CharsExact(s[0]);
      var n := |s| - |TrimStart(s)|;
      assert s[..n] == [s[0]] + s[1..][..n - 1];
    }
  }

  /** Trimming takes white space away at both ends, and all of it. */
  lemma {:induction false} TrimExact(s: string) returns (front: string, back: string)
    ensures s == front + Trimmed(s) + back && White(front) && White(back)
    ensures Trimmed(s) == "" || (!WhiteChar(Trimmed(s)[0]) && !WhiteChar(Trimmed(s)[|Trimmed(s)| - 1]))
  {
    hide TrimStart, TrimEnd, WhiteChar;
    var r := TrimEnd(s);
    var t := TrimStart(r);
    TrimEndExact(s);
    TrimStartExact(r);
    front, back := r[..|r| - |t|], s[|r|..];
    assert r == front + t && s == r + back;
    if t != "" {
      CharsExact(t[0]);
      CharsExact(t[|t| - 1]);
      assert t[|t| - 1] == r[|r| - 1];
    }
  }
}
