/** Which lines of a table file can be read, and to which rows: by the parity of quotation marks, in the words of
    `Reference`. */
module CsvLaws {
  import opened Options
  import opened Text
  import opened Csv
  import opened Storage
  import opened Reference

  // ---------- Fields ----------

  ghost predicate BreakChar(c: char) {
    c in {'\n', '\r'}
  }

  /** The line up to its first line break. */
  ghost function FrontOf(line: string): string {
    if line == "" || BreakChar(line[0]) then "" else [line[0]] + FrontOf(line[1..])
  }

  ghost function Odd(quotes: nat): bool {
    quotes % 2 == 1
  }

  ghost function Mark(c: char): nat {
    if c == '"' then 1 else 0
  }

  /** The fields of a line, with so many quotation marks in front of it and a field begun: commas divide where the
      number of marks is even. A mark belongs to a field only where the number in front of it is odd and another one
      follows. */
  ghost function Divided(line: string, quotes: nat, field: string): (fields: seq<string>)
    ensures fields != []
  {
    if line == "" then [field]
    else if line[0] == ',' && !Odd(quotes) then [field] + Divided(line[1..], quotes, "")
    else
      var kept := line[0] != '"' || (Odd(quotes) && |line| > 1 && line[1] == '"');
      Divided(line[1..], quotes + Mark(line[0]), if kept then field + [line[0]] else field)
  }

  lemma {:induction false} DividedParity(line: string, quotes: nat, field: string)
    ensures Divided(line, quotes + 2, field) == Divided(line, quotes, field)
  {
    if line != "" {
      var kept := line[0] != '"' || (Odd(quotes) && |line| > 1 && line[1] == '"');
      DividedParity(line[1..], quotes, "");
      DividedParity(line[1..], quotes + Mark(line[0]), if kept then field + [line[0]] else field);
    }
  }

  /** The fields of the front of a line, if the number of quotation marks is even at its end. */
  ghost function Even(front: string, quotes: nat, field: string): Option<seq<string>> {
    if (Count(front, '"') + quotes) % 2 == 0 then Some(Divided(front, quotes, field)) else None
  }

  lemma {:induction false} EvenStep(front: string, quotes: nat, field: string)
    requires front != ""
    ensures var c, rest := front[0], front[1..];
      var kept := c != '"' || (Odd(quotes) && rest != "" && rest[0] == '"');
      Even(front, quotes, field) ==
        if c == ',' && !Odd(quotes) then Prepend([field], Even(rest, quotes, ""))
        else Even(rest, quotes + Mark(c), if kept then field + [c] else field)
  {
  }

  lemma {:induction false} EvenParity(front: string, quotes: nat, field: string)
    ensures Even(front, quotes + 2, field) == Even(front, quotes, field)
    ensures Even("", quotes, field) == if Odd(quotes) then None else Some([field])
  {
    DividedParity(front, quotes, field);
  }

  lemma {:induction false} EvenTwoMarks(front: string, field: string)
    requires |front| > 1 && front[0] == front[1] == '"'
    ensures Even(front, 1, field) == Even(front[2..], 1, field + ['"'])
  {
    hide Even;
    EvenStep(front, 1, field);
    EvenStep(front[1..], 2, field + ['"']);
    assert front[1..][1..] == front[2..];
    EvenParity(front[2..], 1, field + ['"']);
  }

  /** A line can be read exactly if the number of quotation marks up to its end is even. */
  lemma {:induction false} ParseDivides(line: string, quoted: bool, field: string)
    ensures Parse(line, quoted, field) == Even(FrontOf(line), if quoted then 1 else 0, field)
    decreases |line|
  {
    hide Even;
    var front := FrontOf(line);
    if front == "" {
      EvenParity("", if quoted then 1 else 0, field);
    } else {
      assert front[1..] == FrontOf(line[1..]);
      assert front[0] == line[0] && (|front| > 1 ==> front[1] == line[1]);
      EvenStep(front, if quoted then 1 else 0, field);
      if line[0] == '"' {
        if quoted && |line| > 1 && line[1] == '"' {
          assert front[1..][1..] == FrontOf(line[2..]) == front[2..];
          ParseDivides(line[2..], true, field + ['"']);
          EvenTwoMarks(front, field);
        } else {
          ParseDivides(line[1..], !quoted, field);
          EvenParity(front[1..], 0, field);
        }
      } else if line[0] == ',' && !quoted {
        ParseDivides(line[1..], false, "");
      } else {
        ParseDivides(line[1..], quoted, field + [line[0]]);
      }
    }
  }

  /** The fields of a line, for every line. */
  lemma {:induction false} FieldsExact(line: string)
    ensures var front := FrontOf(line);
      Fields(line) == if Count(front, '"') % 2 == 0 then Some(Divided(front, 0, "")) else None
  {
    ParseDivides(line, false, "");
  }

  /** A value is written as it is exactly if it contains no comma, quotation mark or line break. */
  lemma {:induction false} WrittenPlain(value: string)
    ensures CsvValue(value) == value <==> forall i :: 0 <= i < |value| ==> value[i] !in {',', '"', '\n', '\r'}
  {
    hide Escaped;
    EscapedLength(value);
  }

  // ---------- Lines ----------

  /** From `pos` to `end` there is one line: its newline, if it has one, is its last character. */
  ghost predicate IsLine(file: string, pos: nat, end: nat) {
    && pos < end <= |file| && (file[end - 1] == '\n' || end == |file|)
    && forall i :: pos <= i < end ==> file[i] != '\0' && (file[i] == '\n' ==> i == end - 1)
  }

  /** The reader's buffer holds 16383 characters, and must have one left to see the end of the file. */
  ghost predicate Short(file: string, pos: nat, end: nat)
    requires IsLine(file, pos, end)
  {
    end - pos <= if file[end - 1] == '\n' then 16383 else 16382
  }

  lemma {:induction false} LineExact(file: string, pos: nat, end: nat)
    requires IsLine(file, pos, end)
    ensures ReadLine(file, pos).Some?
    ensures var line := ReadLine(file, pos).value;
      if Short(file, pos, end) then line == Line(file[pos..end], end, true) else !line.whole
  {
    hide CString;
    var room := MAX_CSV_LINE_LENGTH - 1;
    LineStops(file, pos, end, room);
    var stop := LineEnd(file, pos, room);
    var text := file[pos..stop];
    assert forall i :: 0 <= i < |text| ==> text[i] == file[pos + i];
    assert CString(text) == text;
    if file[end - 1] == '\n' && stop == end {
      assert text[|text| - 1] == '\n';
    }
  }

  lemma {:induction false} LineStops(file: string, pos: nat, end: nat, room: nat)
    requires IsLine(file, pos, end)
    ensures LineEnd(file, pos, room) == if end - pos <= room then end else pos + room
    decreases room
  {
    if room > 0 && pos + 1 < end {
      LineStops(file, pos + 1, end, room - 1);
    }
  }

  /** The header is read exactly if its line is short and has an even number of quotation marks, and it names at most 32
      columns of fewer than 64 characters. */
  lemma {:induction false} HeaderExact(file: string, end: nat)
    requires IsLine(file, 0, end)
    ensures var front := FrontOf(file[..end]);
      var columns := Divided(front, 0, "");
      Header(file) ==
        if Short(file, 0, end) && Count(front, '"') % 2 == 0 && |columns| <= 32
          && (forall i :: 0 <= i < |columns| ==> |columns[i]| < 64) then Some(columns) else None
    ensures Short(file, 0, end) ==> HeaderEnd(file) == end
  {
    hide ReadLine, Fields, Divided, FrontOf;
    LineExact(file, 0, end);
    assert file[0..end] == file[..end];
    FieldsExact(file[..end]);
  }

  /** A line behind the header makes the file unreadable if it is too long; it is passed over if it starts with a line
      break; otherwise it is the next row, if its quotation marks are even in number and its fields as many as the
      columns. */
  lemma {:induction false} RecordsExact(file: string, pos: nat, end: nat, count: nat)
    requires IsLine(file, pos, end)
    ensures var front := FrontOf(file[pos..end]);
      var fields := Divided(front, 0, "");
      Records(file, pos, count) ==
        if !Short(file, pos, end) then None
        else if BreakChar(file[pos]) then Records(file, end, count)
        else if Count(front, '"') % 2 == 0 && |fields| == count
          then Join([Record(pos, fields)], Records(file, end, count)) else None
  {
    hide ReadLine, Fields, Divided, FrontOf, Records;
    LineExact(file, pos, end);
    FieldsExact(file[pos..end]);
    RecordsRead(file, pos, count);
    assert file[pos..end][0] == file[pos];
  }

  /** Reading at an offset gives the fields of the line there, if they can be read and are as many as expected; a count
      below zero expects nothing. There is nothing at a negative offset, nor behind the end. */
  lemma {:induction false} RowAtExact(file: string, offset: int, end: nat, count: int)
    requires 0 <= offset ==> offset >= |file| || (IsLine(file, offset, end) && Short(file, offset, end))
    ensures RowAt(file, offset, count) ==
      if offset < 0 || offset >= |file| then None
      else
        var front := FrontOf(file[offset..end]);
        var fields := Divided(front, 0, "");
        if Count(front, '"') % 2 == 0 && (count < 0 || |fields| == count) then Some(fields) else None
  {
    hide ReadLine, Fields, Divided, FrontOf;
    if 0 <= offset < |file| {
      LineExact(file, offset, end);
      FieldsExact(file[offset..end]);
    }
  }
}
