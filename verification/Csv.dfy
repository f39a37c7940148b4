/** One line of a CSV file: a writer that quotes where it must, and a parser that undoes it. */
module Csv {
  import opened Options
  import opened Sql

  // ---------- Writing ----------

  ghost predicate NeedsQuotes(value: string) {
    ',' in value || '"' in value || '\n' in value || '\r' in value
  }

  ghost function Escaped(value: string): string {
    if value == [] then ""
    else (if value[0] == '"' then "\"\"" else [value[0]]) + Escaped(value[1..])
  }

  ghost function CsvValue(value: string): string {
    if NeedsQuotes(value) then ['"'] + (Escaped(value) + ['"']) else value
  }

  ghost function CsvFields(values: seq<string>): string {
    if values == [] then ""
    else if |values| == 1 then CsvValue(values[0])
    else CsvValue(values[0]) + ([','] + CsvFields(values[1..]))
  }

  ghost function CsvRow(values: seq<string>): (r: string)
    ensures r != [] && r[|r| - 1] == '\n'
  {
    CsvFields(values) + ['\n']
  }

  method TestNeedsQuotes(value: string) returns (needsQuotes: bool)
    ensures needsQuotes == NeedsQuotes(value)
  {
    var i := 0;
    while i < |value|
      invariant 0 <= i <= |value| && !NeedsQuotes(value[..i])
    {
      if value[i] == ',' || value[i] == '"' || value[i] == '\n' || value[i] == '\r' {
        return true;
      }
      i := i + 1;
    }
    assert value[..i] == value;
    return false;
  }

  lemma {:induction false} EscapedStep(value: string, i: nat, file: string, done: string)
    requires i < |value|
    ensures var c := if value[i] == '"' then "\"\"" else [value[i]];
      && done + Escaped(value[i..]) == (done + c) + Escaped(value[i + 1..])
      && file + (['"'] + done) + c == file + (['"'] + (done + c))
  {
    assert value[i..][1..] == value[i + 1..];
  }

  /** Writes a value between quotes, with the quotes in it doubled. */
  method WriteQuoted(file: string, value: string) returns (out: string)
    ensures out == file + (['"'] + (Escaped(value) + ['"']))
  {
    hide Escaped;
    out := file + ['"'];
    var i := 0;
    ghost var done := "";
    assert value[0..] == value && ['"'] + done == ['"'] && done + Escaped(value) == Escaped(value);
    while i < |value|
      invariant 0 <= i <= |value|
      invariant out == file + (['"'] + done) && done + Escaped(value[i..]) == Escaped(value)
    {
      EscapedStep(value, i, file, done);
      var c := if value[i] == '"' then "\"\"" else [value[i]];
      out := out + c;
      done := done + c;
      i := i + 1;
    }
    EscapedEnd(value[i..], done);
    assert file + (['"'] + done) + ['"'] == file + (['"'] + (done + ['"']));
    out := out + ['"'];
  }

  lemma {:induction false} EscapedEnd(rest: string, done: string)
    requires rest == []
    ensures done + Escaped(rest) == done
  {
  }

  method WriteValue(file: string, value: string) returns (out: string)
    ensures out == file + CsvValue(value)
  {
    var needsQuotes := TestNeedsQuotes(value);
    if needsQuotes {
      out := WriteQuoted(file, value);
    } else {
      out := file + value;
    }
  }

  ghost function Remaining(values: seq<string>, i: nat): string
    requires i <= |values|
  {
    if i == |values| then "" else Separator(i) + CsvFields(values[i..])
  }

  lemma CsvFieldsEmpty()
    ensures CsvFields([]) == ""
  {
  }

  ghost function Separator(i: nat): string {
    if i > 0 then [','] else ""
  }

  lemma {:induction false} RemainingStep(values: seq<string>, i: nat, file: string, done: string)
    requires i < |values|
    ensures file + done + Separator(i) + CsvValue(values[i]) == file + (done + (Separator(i) + CsvValue(values[i])))
    ensures done + (Separator(i) + CsvValue(values[i])) + Remaining(values, i + 1) == done + Remaining(values, i)
  {
    hide CsvValue;
    assert values[i..][1..] == values[i + 1..];
    assert Remaining(values, i) == Separator(i) + CsvValue(values[i]) + Remaining(values, i + 1);
  }

  method WriteRow(file: string, values: seq<string>) returns (out: string)
    ensures out == file + CsvRow(values)
  {
    hide CsvValue, CsvFields;
    out := file;
    var i := 0;
    ghost var done := "";
    assert file + done == file && done + Remaining(values, 0) == CsvFields(values) by {
      assert values[0..] == values;
      CsvFieldsEmpty();
    }
    while i < |values|
      invariant 0 <= i <= |values|
      invariant out == file + done && done + Remaining(values, i) == CsvFields(values)
    {
      RemainingStep(values, i, file, done);
      if i > 0 {
        out := out + [','];
      }
      assert out == file + done + Separator(i);
      out := WriteValue(out, values[i]);
      done := done + (Separator(i) + CsvValue(values[i]));
      i := i + 1;
    }
    assert done + Remaining(values, i) == done;
    assert file + done + ['\n'] == file + (done + ['\n']);
    out := out + ['\n'];
  }

  // ---------- Parsing ----------

  predicate EndsLine(c: char) {
    c == '\n' || c == '\r'
  }

  /** The fields of the rest of a line, when `field` has been read so far and quotes are open or not. */
  ghost function Parse(line: string, quoted: bool, field: string): (r: Option<seq<string>>)
    ensures r.Some? ==> r.value != []
  {
    if quoted then
      if line == [] then None
      else if line[0] == '"' then
        if |line| > 1 && line[1] == '"' then Parse(line[2..], true, field + ['"']) else Parse(line[1..], false, field)
      else if EndsLine(line[0]) then None
      else Parse(line[1..], true, field + [line[0]])
    else
      if line == [] || EndsLine(line[0]) then Some([field])
      else if line[0] == '"' then Parse(line[1..], true, field)
      else if line[0] == ',' then Prepend([field], Parse(line[1..], false, ""))
      else Parse(line[1..], false, field + [line[0]])
  }

  ghost function Prepend(fields: seq<string>, rest: Option<seq<string>>): (r: Option<seq<string>>)
    ensures r.Some? <==> rest.Some?
    ensures r.Some? ==> r.value == fields + rest.value
  {
    if rest.Some? then Some(fields + rest.value) else None
  }

  lemma {:induction false} PrependTwice(fields: seq<string>, field: string, rest: Option<seq<string>>)
    ensures Prepend(fields, Prepend([field], rest)) == Prepend(fields + [field], rest)
    ensures Prepend([], rest) == rest
  {
    if rest.Some? {
      assert fields + ([field] + rest.value) == fields + [field] + rest.value;
      assert [] + rest.value == rest.value;
    }
  }

  /** The fields of a line; nothing if it ends inside quotes. */
  ghost function Fields(line: string): (r: Option<seq<string>>)
    ensures r.Some? ==> r.value != []
  {
    Parse(line, false, "")
  }

  method ParseLine(line: string) returns (r: Option<seq<string>>)
    ensures r == Fields(line)
  {
    var fields: seq<string>, field, quoted := [], "", false;
    var i := 0;
    assert line[0..] == line;
    PrependTwice([], "", Fields(line));
    while true
      invariant 0 <= i <= |line|
      invariant Prepend(fields, Parse(line[i..], quoted, field)) == Fields(line)
      decreases |line| - i
    {
      var atEnd := i == |line| || EndsLine(line[i]);
      assert i < |line| ==> line[i..][1..] == line[i + 1..];
      if i < |line| && !quoted && line[i] == ',' {
        PrependTwice(fields, field, Parse(line[i + 1..], false, ""));
      }
      if quoted {
        if i + 1 < |line| && line[i] == '"' && line[i + 1] == '"' {
          assert line[i..][2..] == line[i + 2..];
          field := field + ['"'];
          i := i + 1;
        } else if i < |line| && line[i] == '"' {
          quoted := false;
        } else if atEnd {
          return None;
        } else {
          field := field + [line[i]];
        }
      } else if !atEnd && line[i] == '"' {
        quoted := true;
      } else if atEnd || line[i] == ',' {
        fields := fields + [field];
        field := "";
        if atEnd {
          return Some(fields);
        }
      } else {
        field := field + [line[i]];
      }
      i := i + 1;
    }
  }

  // ---------- Round trip ----------

  ghost predicate HasBreak(value: string) {
    '\n' in value || '\r' in value
  }

  lemma {:induction false} ParsePlain(value: string, rest: string, field: string)
    requires !NeedsQuotes(value)
    ensures Parse(value + rest, false, field) == Parse(rest, false, field + value)
  {
    if value == [] {
      assert value + rest == rest && field + value == field;
    } else {
      assert value[0] in value;
      assert (value + rest)[1..] == value[1..] + rest;
      assert field + [value[0]] + value[1..] == field + value;
      ParsePlain(value[1..], rest, field + [value[0]]);
    }
  }

  lemma {:induction false} ParseEscaped(value: string, rest: string, field: string)
    requires rest == [] || rest[0] != '"'
    ensures Parse(Escaped(value) + (['"'] + rest), true, field) ==
      if HasBreak(value) then None else Parse(rest, false, field + value)
  {
    if value == [] {
      assert Escaped(value) + (['"'] + rest) == ['"'] + rest;
      assert (['"'] + rest)[1..] == rest && field + value == field;
    } else {
      var tail := Escaped(value[1..]) + (['"'] + rest);
      ParseEscaped(value[1..], rest, field + [value[0]]);
      assert field + [value[0]] + value[1..] == field + value;
      assert HasBreak(value) <==> EndsLine(value[0]) || HasBreak(value[1..]);
      if value[0] == '"' {
        assert Escaped(value) + (['"'] + rest) == "\"\"" + tail;
        assert ("\"\"" + tail)[2..] == tail;
      } else {
        assert Escaped(value) + (['"'] + rest) == [value[0]] + tail;
        assert ([value[0]] + tail)[1..] == tail;
      }
    }
  }

  lemma {:induction false} ParseValue(value: string, rest: string)
    requires rest == [] || rest[0] != '"'
    ensures Parse(CsvValue(value) + rest, false, "") == if HasBreak(value) then None else Parse(rest, false, value)
  {
    if NeedsQuotes(value) {
      ParseEscaped(value, rest, "");
      var body := Escaped(value) + (['"'] + rest);
      assert CsvValue(value) + rest == ['"'] + body;
      assert (['"'] + body)[1..] == body && "" + value == value;
    } else {
      ParsePlain(value, rest, "");
      assert "" + value == value;
    }
  }

  ghost predicate AnyBreak(values: seq<string>) {
    exists i :: 0 <= i < |values| && HasBreak(values[i])
  }

  /** Parsing a written row gives the row back, unless it is empty or a value has a line break in it:
      then the line is refused. */
  lemma {:induction false} RoundTrip(values: seq<string>)
    ensures Fields(CsvRow(values)) ==
      if values == [] then Some([""]) else if AnyBreak(values) then None else Some(values)
  {
    if |values| == 0 {
      assert CsvRow(values) == ['\n'];
    } else if |values| == 1 {
      ParseValue(values[0], ['\n']);
      assert values == [values[0]];
    } else {
      var rest := [','] + CsvRow(values[1..]);
      assert CsvRow(values) == CsvValue(values[0]) + rest;
      ParseValue(values[0], rest);
      assert rest[1..] == CsvRow(values[1..]);
      RoundTrip(values[1..]);
      assert [values[0]] + values[1..] == values;
      BreakFirst(values);
    }
  }

  lemma {:induction false} BreakFirst(values: seq<string>)
    requires values != []
    ensures AnyBreak(values) <==> HasBreak(values[0]) || AnyBreak(values[1..])
  {
    if AnyBreak(values) && !HasBreak(values[0]) {
      var i :| 0 <= i < |values| && HasBreak(values[i]);
      assert HasBreak(values[1..][i - 1]);
    }
  }

  /** A value that a line can hold: no line break, and no NUL, at which the line would end. */
  ghost predicate Clean(value: string) {
    !HasBreak(value) && '\0' !in value
  }

  ghost predicate AllClean(values: seq<string>) {
    forall i :: 0 <= i < |values| ==> Clean(values[i])
  }

  /** No value contains a NUL. */
  ghost predicate NulFree(values: seq<string>) {
    forall i :: 0 <= i < |values| ==> '\0' !in values[i]
  }

  lemma CleanExactly(values: seq<string>)
    ensures AllClean(values) <==> NulFree(values) && !AnyBreak(values)
  {
  }

  /** A line is parsed up to its first newline. */
  lemma {:induction false} ParseCut(front: string, rest: string, quoted: bool, field: string)
    requires '\n' !in front
    ensures Parse(front + (['\n'] + rest), quoted, field) == Parse(front + ['\n'], quoted, field)
    decreases |front|
  {
    var all, cut := front + (['\n'] + rest), front + ['\n'];
    if front != [] {
      var next := front[1..];
      assert all[1..] == next + (['\n'] + rest) && cut[1..] == next + ['\n'];
      ParseCut(next, rest, false, field);
      ParseCut(next, rest, true, field);
      ParseCut(next, rest, quoted, field + [front[0]]);
      ParseCut(next, rest, false, "");
      if |front| > 1 {
        assert all[2..] == front[2..] + (['\n'] + rest) && cut[2..] == front[2..] + ['\n'];
        ParseCut(front[2..], rest, true, field + ['"']);
      }
    } else {
      assert all[0] == '\n' && cut[0] == '\n';
    }
  }

  /** Every field of a line is clean. */
  lemma {:induction false} FieldsClean(line: string, quoted: bool, field: string)
    requires '\0' !in line && Clean(field)
    ensures Parse(line, quoted, field).Some? ==> AllClean(Parse(line, quoted, field).value)
    decreases |line|
  {
    if line != [] {
      if quoted {
        if line[0] == '"' {
          if |line| > 1 && line[1] == '"' {
            FieldsClean(line[2..], true, field + ['"']);
          } else {
            FieldsClean(line[1..], false, field);
          }
        } else if !EndsLine(line[0]) {
          FieldsClean(line[1..], true, field + [line[0]]);
        }
      } else if !EndsLine(line[0]) {
        if line[0] == '"' {
          FieldsClean(line[1..], true, field);
        } else if line[0] == ',' {
          FieldsClean(line[1..], false, "");
        } else {
          FieldsClean(line[1..], false, field + [line[0]]);
        }
      }
    }
  }

  // ---------- Length ----------

  ghost function Quotes(value: string): nat {
    if value == [] then 0 else Quotes(value[..|value| - 1]) + if value[|value| - 1] == '"' then 1 else 0
  }

  lemma {:induction false} EscapedLength(value: string)
    ensures |Escaped(value)| == |value| + Quotes(value)
  {
    if value != [] {
      EscapedLength(value[1..]);
      QuotesFirst(value);
    }
  }

  lemma {:induction false} QuotesFirst(value: string)
    requires value != []
    ensures Quotes(value) == Quotes(value[1..]) + if value[0] == '"' then 1 else 0
  {
    if |value| > 1 {
      QuotesFirst(value[..|value| - 1]);
      assert value[..|value| - 1][1..] == value[1..][..|value| - 2];
    }
  }

  ghost function Budget(field: string, quoted: bool): nat {
    |field| + Quotes(field) + if quoted then 1 else if NeedsQuotes(field) then 2 else 0
  }

  lemma {:induction false} BudgetGrows(field: string, c: char)
    requires !EndsLine(c)
    ensures Budget(field + [c], true) == Budget(field, true) + if c == '"' then 2 else 1
    ensures c != '"' && c != ',' ==> Budget(field + [c], false) == Budget(field, false) + 1
  {
    assert (field + [c])[..|field|] == field;
  }

  lemma {:induction false} ValueLength(value: string)
    ensures |CsvValue(value)| <= Budget(value, false)
  {
    EscapedLength(value);
    if !NeedsQuotes(value) {
    }
  }

  /** Writing the fields of a line again takes no more room than the line took, but for a missing newline. */
  lemma {:induction false} RewriteNoLonger(line: string, quoted: bool, field: string, spent: nat)
    requires spent >= Budget(field, quoted) && Parse(line, quoted, field).Some?
    ensures |CsvRow(Parse(line, quoted, field).value)| <= spent + |line| + if HasBreak(line) then 0 else 1
    decreases |line|
  {
    var fields := Parse(line, quoted, field).value;
    if !quoted && (line == [] || EndsLine(line[0])) {
      ValueLength(field);
    } else if quoted && line[0] == '"' && |line| > 1 && line[1] == '"' {
      BudgetGrows(field, '"');
      RewriteNoLonger(line[2..], true, field + ['"'], spent + 2);
    } else if line[0] == '"' {
      RewriteNoLonger(line[1..], !quoted, field, spent + 1);
    } else if !quoted && line[0] == ',' {
      ValueLength(field);
      RewriteNoLonger(line[1..], false, "", 0);
      assert fields[1..] == Parse(line[1..], false, "").value;
    } else {
      BudgetGrows(field, line[0]);
      RewriteNoLonger(line[1..], quoted, field + [line[0]], spent + 1);
    }
  }

  lemma {:induction false} QuotesBound(value: string)
    ensures Quotes(value) <= |value|
  {
    if value != [] {
      QuotesBound(value[..|value| - 1]);
    }
  }

  /** A row of column names is a line of limited length. */
  lemma {:induction false} HeaderLength(columns: seq<string>)
    requires forall i :: 0 <= i < |columns| ==> |columns[i]| < MAX_IDENTIFIER_LEN
    ensures |CsvFields(columns)| <= |columns| * (2 * MAX_IDENTIFIER_LEN + 1)
  {
    hide CsvValue, NeedsQuotes;
    if columns != [] {
      ValueLength(columns[0]);
      QuotesBound(columns[0]);
      HeaderLength(columns[1..]);
    }
  }

  /** The only line break of a written row is the one at its end. */
  lemma {:induction false} RowIsLine(values: seq<string>)
    requires AllClean(values)
    ensures Clean(CsvFields(values))
  {
    hide CsvFields;
    RowWithout(values, '\n');
    RowWithout(values, '\r');
    RowWithout(values, '\0');
  }

  lemma {:induction false} ValueIsClean(value: string)
    requires Clean(value)
    ensures Clean(CsvValue(value))
  {
    hide CsvValue;
    ValueWithout(value, '\n');
    ValueWithout(value, '\r');
    ValueWithout(value, '\0');
  }

  /** Writing adds no characters but commas and quotation marks. */
  lemma {:induction false} RowWithout(values: seq<string>, c: char)
    requires c != ',' && c != '"' && forall i :: 0 <= i < |values| ==> c !in values[i]
    ensures c !in CsvFields(values)
  {
    hide CsvValue;
    if values != [] {
      ValueWithout(values[0], c);
      RowWithout(values[1..], c);
    }
  }

  lemma {:induction false} ValueWithout(value: string, c: char)
    requires c != '"' && c !in value
    ensures c !in CsvValue(value)
  {
    EscapedWithout(value, c);
  }

  lemma {:induction false} EscapedWithout(value: string, c: char)
    requires c != '"' && c !in value
    ensures c !in Escaped(value)
  {
    if value != [] {
      EscapedWithout(value[1..], c);
    }
  }
}
