/** What table files keep: offsets lead back to the rows, and a written row is read as itself. */
module StorageFacts {
  import opened Text
  import opened Options
  import opened Sql
  import opened TableModel
  import opened Csv
  import opened Storage
  import Reference
  import TextLaws

  // ---------- Offsets ----------

  lemma {:induction false} RecordsReread(file: string, pos: nat, count: nat)
    requires pos <= |file| && Records(file, pos, count).Some?
    ensures var rs := Records(file, pos, count).value;
      && (forall k :: 0 <= k < |rs| ==>
        pos <= rs[k].offset < |file| && RowAt(file, rs[k].offset, count) == Some(rs[k].fields))
      && (forall j, k :: 0 <= j < k < |rs| ==> rs[j].offset < rs[k].offset)
    decreases |file| - pos
  {
    hide Records, ReadLine, Fields;
    RecordsRead(file, pos, count);
    match Reads(file, pos, count)
    case Skipped(next) => RecordsReread(file, next, count);
    case Row(_, next) => RecordsReread(file, next, count);
    case _ =>
  }

  /** In every file that loads, reading at a recorded offset gives the row loaded at that position, and no
      two rows have the same offset. */
  lemma {:induction false} RereadAtOffset(file: string)
    requires Load(file).Some?
    ensures var t := Load(file).value;
      && |t.offsets| == |t.rows|
      && (forall k :: 0 <= k < |t.rows| ==> |t.rows[k]| == |t.columns|)
      && (forall k :: 0 <= k < |t.rows| ==> RowAt(file, t.offsets[k], |t.columns|) == Some(t.rows[k]))
      && (forall j, k :: 0 <= j < k < |t.offsets| ==> t.offsets[j] < t.offsets[k])
  {
    hide RowAt, Records;
    LoadRegular(file);
    RecordsReread(file, HeaderEnd(file), |Load(file).value.columns|);
  }

  // ---------- Appending ----------

  ghost predicate EndsInNewline(file: string) {
    file != "" && file[|file| - 1] == '\n'
  }

  lemma {:induction false} LineEndAppended(file: string, more: string, pos: nat, room: nat)
    requires EndsInNewline(file) && pos < |file|
    ensures LineEnd(file + more, pos, room) == LineEnd(file, pos, room)
    decreases room
  {
    if room > 0 && file[pos] != '\n' {
      LineEndAppended(file, more, pos + 1, room - 1);
    }
  }

  lemma {:induction false} LineAppended(file: string, more: string, pos: nat)
    requires EndsInNewline(file) && pos < |file|
    ensures ReadLine(file + more, pos) == ReadLine(file, pos)
  {
    hide LineEnd, CString;
    LineEndAppended(file, more, pos, MAX_CSV_LINE_LENGTH - 1);
    var end := LineEnd(file, pos, MAX_CSV_LINE_LENGTH - 1);
    assert (file + more)[pos..end] == file[pos..end];
    assert (file + more)[end - 1] == file[end - 1];
    if end == |file + more| {
      assert more == "";
    }
  }

  lemma {:induction false} ReadsAppended(file: string, more: string, pos: nat, count: nat)
    requires EndsInNewline(file) && pos < |file|
    ensures Reads(file + more, pos, count) == Reads(file, pos, count)
  {
    hide ReadLine, Fields;
    LineAppended(file, more, pos);
  }

  ghost function JoinAll(front: Option<seq<Record>>, rest: Option<seq<Record>>): Option<seq<Record>> {
    if front.Some? then Join(front.value, rest) else None
  }

  /** The rows of a file that ends in a newline are read first, whatever follows it. */
  lemma {:induction false} RecordsAppended(file: string, more: string, pos: nat, count: nat)
    requires EndsInNewline(file) && pos <= |file|
    ensures Records(file + more, pos, count) == JoinAll(Records(file, pos, count), Records(file + more, |file|, count))
    decreases |file| - pos
  {
    hide Records, Reads;
    var rest := Records(file + more, |file|, count);
    RecordsRead(file, pos, count);
    JoinTwice([], Record(0, []), rest);
    AtEndReads(file, pos, count);
    if pos < |file| {
      RecordsRead(file + more, pos, count);
      ReadsAppended(file, more, pos, count);
      match Reads(file, pos, count)
      case Skipped(next) =>
        RecordsAppended(file, more, next, count);
      case Row(fields, next) =>
        RecordsAppended(file, more, next, count);
        JoinAfter(Record(pos, fields), Records(file, next, count), rest);
      case _ =>
    }
  }

  lemma {:induction false} AtEndReads(file: string, pos: nat, count: nat)
    requires pos <= |file|
    ensures Reads(file, pos, count) == AtEnd <==> pos == |file|
  {
    hide Fields;
  }

  lemma {:induction false} JoinAfter(record: Record, front: Option<seq<Record>>, rest: Option<seq<Record>>)
    ensures JoinAll(Join([record], front), rest) == Join([record], JoinAll(front, rest))
  {
    if front.Some? && rest.Some? {
      assert [record] + front.value + rest.value == [record] + (front.value + rest.value);
    }
  }

  // ---------- One written row ----------

  /** A line that the reader's buffer holds. */
  ghost predicate FitsLine(row: seq<string>) {
    |CsvRow(row)| <= 16383
  }

  lemma {:induction false} LineEndFinds(file: string, pos: nat, end: nat, room: nat)
    requires pos < end <= |file| && file[end - 1] == '\n'
    requires forall i :: pos <= i < end - 1 ==> file[i] != '\n'
    ensures LineEnd(file, pos, room) == if end - pos <= room then end else pos + room
    decreases room
  {
    if room > 0 && pos + 1 < end {
      LineEndFinds(file, pos + 1, end, room - 1);
    }
  }

  /** Reading a row that was written at the end of a file. */
  lemma {:induction false} ReadWritten(file: string, row: seq<string>)
    requires AllClean(row)
    ensures ReadLine(file + CsvRow(row), |file|).Some?
    ensures var line := ReadLine(file + CsvRow(row), |file|).value;
      if FitsLine(row) then line == Line(CsvRow(row), |file + CsvRow(row)|, true) else !line.whole
  {
    hide CsvFields;
    var text := CsvRow(row);
    var all := file + text;
    RowIsLine(row);
    assert all[|all| - 1] == text[|text| - 1];
    assert forall i :: |file| <= i < |all| - 1 ==> all[i] == CsvFields(row)[i - |file|];
    LineEndFinds(all, |file|, |all|, MAX_CSV_LINE_LENGTH - 1);
    if FitsLine(row) {
      assert all[|file|..|all|] == text;
      assert '\0' !in text;
      assert text[|text| - 1] in text;
    } else {
      var end := |file| + (MAX_CSV_LINE_LENGTH - 1);
      assert all[|file|..end] == CsvFields(row)[..MAX_CSV_LINE_LENGTH - 1];
    }
  }

  /** A row that is read again where it was written, on a line of its own. */
  ghost predicate Readable(row: seq<string>) {
    FitsLine(row) && !AnyBreak(row)
  }

  lemma {:induction false} FirstNewline(text: string) returns (n: nat)
    requires '\n' in text
    ensures n < |text| && text[n] == '\n' && '\n' !in text[..n]
  {
    if text[0] == '\n' {
      n := 0;
    } else {
      n := FirstNewline(text[1..]);
      n := n + 1;
      assert text[..n] == [text[0]] + text[1..][..n - 1];
    }
  }

  /** A row with a line break in a value takes more than one line, and the first of them is malformed. */
  lemma {:induction false} ReadBroken(file: string, row: seq<string>)
    requires AnyBreak(row) && NulFree(row)
    ensures ReadLine(file + CsvRow(row), |file|).Some?
    ensures var line := ReadLine(file + CsvRow(row), |file|).value;
      !line.whole || (Fields(line.text) == None && !Blank(line.text))
  {
    hide CsvRow, ReadLine, Fields, Blank, AnyBreak;
    var text := CsvRow(row);
    RowNulFree(row);
    assert text[|text| - 1] in text;
    var n := FirstNewline(text);
    ReadFirst(file, text, n);
    BrokenRow(row);
    CutRow(text, n);
  }

  lemma {:induction false} RowNulFree(row: seq<string>)
    requires NulFree(row)
    ensures '\0' !in CsvRow(row) && CString(CsvRow(row)) == CsvRow(row)
  {
    RowWithout(row, '\0');
  }

  /** The first line of a text at the end of a file. */
  lemma {:induction false} ReadFirst(file: string, text: string, n: nat)
    requires n < |text| && text[n] == '\n' && '\n' !in text[..n]
    ensures ReadLine(file + text, |file|).Some?
    ensures var line := ReadLine(file + text, |file|).value;
      line.whole ==> line.text == CString(text[..n + 1]) && line.next == |file| + n + 1 && '\n' in line.text
  {
    hide CString;
    var all := file + text;
    var end := |file| + n + 1;
    assert forall i :: |file| <= i < end - 1 ==> all[i] == text[..n][i - |file|];
    LineEndFinds(all, |file|, end, MAX_CSV_LINE_LENGTH - 1);
    if n + 1 < MAX_CSV_LINE_LENGTH {
      assert all[|file|..end] == text[..n + 1];
    } else {
      var full := |file| + (MAX_CSV_LINE_LENGTH - 1);
      assert all[|file|..full] == text[..n][..MAX_CSV_LINE_LENGTH - 1];
    }
  }

  lemma {:induction false} CutRow(text: string, n: nat)
    requires n < |text| && text[n] == '\n' && '\n' !in text[..n]
    ensures Fields(text[..n + 1]) == Fields(text) && (Blank(text[..n + 1]) <==> Blank(text))
  {
    hide Parse;
    assert text[..n + 1] == text[..n] + ['\n'];
    assert text == text[..n] + (['\n'] + text[n + 1..]);
    ParseCut(text[..n], text[n + 1..], false, "");
  }

  lemma {:induction false} BrokenRow(row: seq<string>)
    requires AnyBreak(row)
    ensures Fields(CsvRow(row)) == None && !Blank(CsvRow(row))
  {
    hide CsvRow, AnyBreak;
    assert row != [] by { SomeBreak(row); }
    RoundTrip(row);
  }

  lemma SomeBreak(row: seq<string>)
    requires AnyBreak(row)
    ensures row != []
  {
  }

  /** A written row is read as itself; one that is too long or has a line break spoils the file; the row of one
      empty value is a blank line, and lost. */
  ghost function Written(offset: nat, row: seq<string>, count: nat): Option<seq<Record>> {
    if !Readable(row) then None
    else if row == [""] || row == [] then Some([])
    else if |row| != count then None
    else Some([Record(offset, row)])
  }

  lemma {:induction false} BlankRow(row: seq<string>)
    requires AllClean(row)
    ensures Blank(CsvRow(row)) <==> row == [""] || row == []
  {
    if row != [] {
      var v := CsvValue(row[0]);
      if |row| == 1 {
        assert row == [row[0]];
        if row[0] == "" {
          assert CsvRow(row) == ['\n'];
        } else {
          ValueIsClean(row[0]);
          assert CsvRow(row)[0] == v[0];
          assert v[0] in v;
        }
      } else {
        var rest := [','] + CsvFields(row[1..]);
        assert CsvRow(row) == v + (rest + ['\n']);
        ValueIsClean(row[0]);
        if v == "" {
          assert CsvRow(row)[0] == ',';
        } else {
          assert CsvRow(row)[0] == v[0];
          assert v[0] in v;
        }
      }
    } else {
      assert CsvRow(row) == ['\n'];
    }
  }

  lemma {:induction false} CleanRow(row: seq<string>)
    requires AllClean(row) && row != []
    ensures Fields(CsvRow(row)) == Some(row)
  {
    RoundTrip(row);
  }

  lemma {:induction false} RecordsWritten(file: string, row: seq<string>, count: nat)
    requires NulFree(row)
    ensures Records(file + CsvRow(row), |file|, count) == Written(|file|, row, count)
  {
    hide CsvRow, AnyBreak, AllClean, NulFree, Records, Reads;
    CleanExactly(row);
    if AnyBreak(row) {
      RecordsRead(file + CsvRow(row), |file|, count);
      assert Reads(file + CsvRow(row), |file|, count) == Unreadable by { BrokenUnreadable(file, row, count); }
    } else {
      CleanWritten(file, row, count);
    }
  }

  lemma {:induction false} BrokenUnreadable(file: string, row: seq<string>, count: nat)
    requires AnyBreak(row) && NulFree(row)
    ensures Reads(file + CsvRow(row), |file|, count) == Unreadable
  {
    hide CsvRow, Fields, ReadLine, Blank, AnyBreak, NulFree;
    ReadBroken(file, row);
  }

  lemma {:induction false} CleanWritten(file: string, row: seq<string>, count: nat)
    requires AllClean(row)
    ensures Records(file + CsvRow(row), |file|, count) == Written(|file|, row, count)
  {
    hide CsvRow, Fields, ReadLine, Blank, AnyBreak, AllClean;
    CleanExactly(row);
    var all := file + CsvRow(row);
    ReadWritten(file, row);
    BlankRow(row);
    RecordsRead(all, |file|, count);
    RecordsRead(all, |all|, count);
    AtEndReads(all, |all|, count);
    if row != [] {
      CleanRow(row);
      assert [Record(|file|, row)] + [] == [Record(|file|, row)];
    }
  }

  lemma {:induction false} HeaderAppended(file: string, more: string)
    requires EndsInNewline(file)
    ensures Header(file + more) == Header(file) && HeaderEnd(file + more) == HeaderEnd(file)
  {
    hide ReadLine;
    LineAppended(file, more, 0);
    assert file + more != "";
  }

  /** Whatever is added to a file that ends in a newline and does not load, it does not load. */
  lemma {:induction false} StaysSpoiled(file: string, more: string)
    requires EndsInNewline(file) && Load(file) == None
    ensures Load(file + more) == None
  {
    hide Records, Header;
    HeaderAppended(file, more);
    if Header(file).Some? {
      RecordsAppended(file, more, HeaderEnd(file), |Header(file).value|);
    }
  }

  /** Adding a row to a file that ends in a newline adds it to what the file holds, and nothing else. */
  lemma {:induction false} LineAdded(file: string, row: seq<string>)
    requires EndsInNewline(file) && NulFree(row)
    ensures Load(file + CsvRow(row)) ==
      if Load(file) == None then None
      else
        var t := Load(file).value;
        match Written(|file|, row, |t.columns|)
        case None => None
        case Some(rs) => Some(TableData(t.columns, t.rows + FieldsOf(rs), t.offsets + OffsetsOf(rs)))
  {
    hide CsvRow, Records, Written, Header, NulFree;
    HeaderAppended(file, CsvRow(row));
    if Header(file).Some? {
      var columns := Header(file).value;
      RecordsAppended(file, CsvRow(row), HeaderEnd(file), |columns|);
      RecordsWritten(file, row, |columns|);
      if Load(file).Some? && Written(|file|, row, |columns|).Some? {
        var front := Records(file, HeaderEnd(file), |columns|).value;
        var rs := Written(|file|, row, |columns|).value;
        assert FieldsOf(front + rs) == FieldsOf(front) + FieldsOf(rs);
        assert OffsetsOf(front + rs) == OffsetsOf(front) + OffsetsOf(rs);
      }
    }
  }

  // ---------- A last line without a newline ----------

  lemma {:induction false} LineEndGlued(file: string, more: string, pos: nat, room: nat)
    requires pos < |file| && !EndsInNewline(file)
    ensures var end := LineEnd(file, pos, room);
      if end < |file| then LineEnd(file + more, pos, room) == end
      else forall i :: pos <= i < |file| ==> file[i] != '\n'
    decreases room
  {
    if room > 0 && file[pos] != '\n' && pos + 1 < |file| {
      LineEndGlued(file, more, pos + 1, room - 1);
    }
  }

  /** A line before the last one is read as before; the last one now reaches to the end of the row, if it is not
      too long for the buffer then. */
  lemma {:induction false} LineGlued(file: string, row: seq<string>, pos: nat)
    requires pos < |file| && !EndsInNewline(file) && AllClean(row)
    requires ReadLine(file, pos).value.whole && ReadLine(file + CsvRow(row), pos).value.whole
    ensures var line, glued := ReadLine(file, pos).value, ReadLine(file + CsvRow(row), pos).value;
      if line.next < |file| then glued == line
      else glued.next == |file + CsvRow(row)| && (Blank(glued.text) <==> Blank(line.text))
  {
    hide LineEnd, CsvFields, CString, Clean;
    var all := file + CsvRow(row);
    var end := LineEnd(file, pos, MAX_CSV_LINE_LENGTH - 1);
    LineEndGlued(file, CsvRow(row), pos, MAX_CSV_LINE_LENGTH - 1);
    if end < |file| {
      assert all[pos..end] == file[pos..end] && all[end - 1] == file[end - 1];
    } else {
      assert end == |file|;
      LastLineGlued(file, row, pos);
      BlankGlued(file[pos..end], all[pos..|all|]);
    }
  }

  lemma {:induction false} LastLineGlued(file: string, row: seq<string>, pos: nat)
    requires pos < |file| && AllClean(row) && forall i :: pos <= i < |file| ==> file[i] != '\n'
    requires ReadLine(file + CsvRow(row), pos).value.whole
    ensures var all := file + CsvRow(row);
      ReadLine(all, pos).value.next == |all| && ReadLine(all, pos).value.text == CString(all[pos..|all|])
    ensures '\n' in CString((file + CsvRow(row))[pos..])
  {
    hide CsvFields, ReadLine, CString;
    var all := file + CsvRow(row);
    var text := all[pos..];
    RowIsLine(row);
    forall i | 0 <= i < |text| - 1 ensures text[i] != '\n' {
      assert text[i] == if pos + i < |file| then file[pos + i] else CsvFields(row)[pos + i - |file|];
    }
    assert all == all[..pos] + text && all[pos..|all|] == text;
    assert text[..|text|] == text;
    ReadFirst(all[..pos], text, |text| - 1);
  }

  lemma {:induction false} BlankGlued(text: string, glued: string)
    requires text != [] && text <= glued && '\n' in CString(glued)
    ensures Blank(CString(glued)) <==> Blank(CString(text))
  {
    if text[0] != '\0' {
      assert glued[0] == text[0];
    }
  }

  /** Where a row is added behind a last line without a newline, no row is gained; all rows but perhaps the last
      are what they were. */
  lemma {:induction false} RecordsGlued(file: string, row: seq<string>, pos: nat, count: nat)
    requires pos < |file| && !EndsInNewline(file) && AllClean(row)
    requires Records(file, pos, count).Some? && Records(file + CsvRow(row), pos, count).Some?
    ensures var rs, glued := Records(file, pos, count).value, Records(file + CsvRow(row), pos, count).value;
      |glued| == |rs| && (rs != [] ==> glued[..|rs| - 1] == rs[..|rs| - 1])
    decreases |file| - pos
  {
    hide CsvRow, Records, ReadLine, Fields, Blank, AllClean;
    var all := file + CsvRow(row);
    RecordsRead(file, pos, count);
    RecordsRead(all, pos, count);
    LineGlued(file, row, pos);
    var next := ReadLine(file, pos).value.next;
    if next < |file| {
      RecordsGlued(file, row, next, count);
    } else {
      RecordsRead(file, |file|, count);
      AtEndReads(file, |file|, count);
      RecordsRead(all, |all|, count);
      AtEndReads(all, |all|, count);
    }
  }

  /** A row added behind a last line without a newline is glued to that line: no row is gained. */
  lemma {:induction false} LoadGlued(file: string, row: seq<string>)
    requires file != "" && !EndsInNewline(file) && AllClean(row)
    requires Load(file).Some? && Load(file + CsvRow(row)).Some?
    ensures var rows, glued := Load(file).value.rows, Load(file + CsvRow(row)).value.rows;
      |glued| == |rows| && (rows != [] ==> glued[..|rows| - 1] == rows[..|rows| - 1])
  {
    hide CsvRow, Records, ReadLine, Fields, AllClean;
    var all := file + CsvRow(row);
    LineGlued(file, row, 0);
    if HeaderEnd(file) < |file| {
      RecordsGlued(file, row, HeaderEnd(file), |Header(file).value|);
    } else {
      var count, glued := |Header(file).value|, |Header(all).value|;
      RecordsRead(file, |file|, count);
      AtEndReads(file, |file|, count);
      RecordsRead(all, |all|, glued);
      AtEndReads(all, |all|, glued);
    }
  }

  /** A row has been added to what loads from the file, and nothing else has changed. */
  ghost predicate Adds(file: string, row: seq<string>) {
    && Load(file).Some? && Load(file + CsvRow(row)).Some?
    && Load(file + CsvRow(row)).value.columns == Load(file).value.columns
    && Load(file + CsvRow(row)).value.rows == Load(file).value.rows + [row]
  }

  /** Writing a row behind a file adds it to what loads if and only if the file ends in a newline, and the row is of
      the table's width, fits the reader's buffer, contains neither line break nor NUL, and is not one empty value. */
  lemma {:induction false} LoadAppended(file: string, row: seq<string>)
    requires file != "" && Load(file).Some?
    ensures Adds(file, row) <==>
      EndsInNewline(file) && |row| == |Load(file).value.columns| && Readable(row) && NulFree(row) && row != [""]
  {
    hide CsvRow, Load, AnyBreak, NulFree, AllClean, Header, FitsLine;
    CleanExactly(row);
    var t := Load(file).value;
    LoadedHeader(file);
    if Adds(file, row) {
      AddedStorable(file, row);
      if !EndsInNewline(file) {
        LoadGlued(file, row);
        assert false;
      }
    }
    if EndsInNewline(file) && NulFree(row) {
      LineAdded(file, row);
      if |row| == |t.columns| > 0 {
        OneWritten(|file|, row, |row|);
        assert |t.rows + []| != |t.rows + [row]|;
      }
    }
  }

  lemma {:induction false} LoadedHeader(file: string)
    requires file != "" && Load(file).Some?
    ensures Header(file) == Some(Load(file).value.columns) && Load(file).value.columns != []
  {
  }

  lemma {:induction false} AddedStorable(file: string, row: seq<string>)
    requires file != "" && Adds(file, row)
    ensures AllClean(row) && FitsLine(row) && |row| == |Load(file).value.columns| > 0
  {
    hide CsvRow, Load, AllClean, FitsLine, ValidHeader;
    LoadedStorable(file + CsvRow(row));
    var t := Load(file + CsvRow(row)).value;
    assert t.rows[|t.rows| - 1] == row;
  }

  // ---------- Written tables ----------

  ghost function TableFile(header: seq<string>, rows: seq<seq<string>>): (file: string)
    ensures EndsInNewline(file)
  {
    CsvRow(header) + CsvRows(rows)
  }

  ghost predicate Storable(header: seq<string>, rows: seq<seq<string>>) {
    && header != [] && ValidHeader(header) && AllClean(header)
    && forall k :: 0 <= k < |rows| ==> |rows[k]| == |header| && AllClean(rows[k])
  }

  /** The rows that are not written as a blank line. */
  ghost function Visible(rows: seq<seq<string>>): seq<seq<string>> {
    if rows == [] then []
    else
      var last := rows[|rows| - 1];
      Visible(rows[..|rows| - 1]) + if last == [""] then [] else [last]
  }

  /** All rows survive being written exactly if none is a row of one empty value. */
  lemma {:induction false} AllVisible(rows: seq<seq<string>>)
    ensures Visible(rows) == rows <==> forall k :: 0 <= k < |rows| ==> rows[k] != [""]
    ensures |Visible(rows)| <= |rows|
  {
    if rows != [] {
      var n := |rows| - 1;
      AllVisible(rows[..n]);
      assert rows == rows[..n] + [rows[n]];
    }
  }

  lemma {:induction false} HeaderWritten(header: seq<string>)
    requires header != [] && ValidHeader(header) && AllClean(header)
    ensures Header(CsvRow(header)) == Some(header) && HeaderEnd(CsvRow(header)) == |CsvRow(header)|
  {
    hide CsvRow, Fields, ReadLine, CsvFields;
    HeaderFits(header);
    ReadWritten("", header);
    assert "" + CsvRow(header) == CsvRow(header);
    CleanRow(header);
  }

  lemma {:induction false} HeaderFits(header: seq<string>)
    requires ValidHeader(header)
    ensures FitsLine(header)
  {
    HeaderLength(header);
  }

  lemma {:induction false} LoadHeader(header: seq<string>)
    requires header != [] && ValidHeader(header) && AllClean(header)
    ensures Load(CsvRow(header)) == Some(TableData(header, [], []))
  {
    hide CsvRow, Header;
    var file := CsvRow(header);
    HeaderWritten(header);
    RecordsRead(file, |file|, |header|);
    AtEndReads(file, |file|, |header|);
  }

  /** A written table loads exactly if every row fits the reader's buffer, and then as it was written. */
  lemma {:induction false} LoadWritten(header: seq<string>, rows: seq<seq<string>>)
    requires Storable(header, rows)
    ensures Load(TableFile(header, rows)).Some? <==> forall k :: 0 <= k < |rows| ==> FitsLine(rows[k])
    ensures var r := Load(TableFile(header, rows));
      r.Some? ==> r.value.columns == header && r.value.rows == Visible(rows)
  {
    hide CsvRow, Load, Clean, ValidHeader, FitsLine;
    if rows == [] {
      LoadHeader(header);
      assert TableFile(header, rows) == CsvRow(header);
    } else {
      var n := |rows| - 1;
      var file := TableFile(header, rows[..n]);
      LoadWritten(header, rows[..n]);
      CleanExactly(rows[n]);
      LineAdded(file, rows[n]);
      assert TableFile(header, rows) == file + CsvRow(rows[n]);
      OneWritten(|file|, rows[n], |header|);
    }
  }

  lemma {:induction false} OneWritten(offset: nat, row: seq<string>, count: nat)
    requires |row| == count > 0
    ensures Written(offset, row, count).Some? <==> Readable(row)
    ensures var w := Written(offset, row, count);
      w.Some? ==> FieldsOf(w.value) == if row == [""] then [] else [row]
  {
  }

  // ---------- INSERT and DELETE ----------

  /** What is read from a line can be written in a line again. */
  lemma {:induction false} LineRewrites(file: string, pos: nat)
    requires ReadLine(file, pos).Some? && ReadLine(file, pos).value.whole
    requires Fields(ReadLine(file, pos).value.text).Some?
    ensures var fields := Fields(ReadLine(file, pos).value.text).value; AllClean(fields) && FitsLine(fields)
  {
    hide CString, LineEnd, CsvRow;
    var line := ReadLine(file, pos).value;
    FieldsClean(line.text, false, "");
    RewriteNoLonger(line.text, false, "", 0);
  }

  lemma {:induction false} RecordsRewrite(file: string, pos: nat, count: nat)
    requires pos <= |file| && Records(file, pos, count).Some?
    ensures forall r :: r in Records(file, pos, count).value ==> AllClean(r.fields) && FitsLine(r.fields)
    decreases |file| - pos
  {
    hide Records, ReadLine, Fields, AllClean, FitsLine;
    RecordsRead(file, pos, count);
    match Reads(file, pos, count)
    case Skipped(next) =>
      RecordsRewrite(file, next, count);
    case Row(fields, next) =>
      RecordsRewrite(file, next, count);
      LineRewrites(file, pos);
    case _ =>
  }

  lemma {:induction false} HeaderRewrites(file: string)
    requires file != "" && Header(file).Some?
    ensures var h := Header(file).value; h != [] && ValidHeader(h) && AllClean(h)
  {
    hide ReadLine, Fields;
    LineRewrites(file, 0);
  }

  lemma {:induction false} LoadedStorable(file: string)
    requires file != "" && Load(file).Some?
    ensures var t := Load(file).value;
      Storable(t.columns, t.rows) && forall k :: 0 <= k < |t.rows| ==> FitsLine(t.rows[k])
  {
    hide Records, AllClean, FitsLine, ValidHeader, Header;
    HeaderRewrites(file);
    LoadRegular(file);
    var records := Records(file, HeaderEnd(file), |Header(file).value|).value;
    RecordsRewrite(file, HeaderEnd(file), |Header(file).value|);
    assert forall k :: 0 <= k < |records| ==> records[k] in records;
  }

  /** These are the places of the rows that the condition does not select, in order. */
  ghost predicate Places(at: seq<nat>, rows: seq<seq<string>>, column: nat, op: string, value: string) {
    && (forall i :: 0 <= i < |at| ==> at[i] < |rows|)
    && (forall i, j :: 0 <= i < j < |at| ==> at[i] < at[j])
    && (forall k :: 0 <= k < |rows| ==> column < |rows[k]|)
    && (forall k :: 0 <= k < |rows| ==> (k in at <==> !Reference.Satisfies(rows[k][column], op, value)))
  }

  ghost predicate Picks(left: seq<seq<string>>, rows: seq<seq<string>>, at: seq<nat>) {
    |at| == |left| && forall i :: 0 <= i < |at| ==> at[i] < |rows| && left[i] == rows[at[i]]
  }

  lemma {:induction false} PlacesMore(at: seq<nat>, rows: seq<seq<string>>, column: nat, op: string, value: string)
    requires rows != [] && Places(at, rows[..|rows| - 1], column, op, value) && column < |rows[|rows| - 1]|
    ensures var n := |rows| - 1;
      Places(if Matches(CompareValues(rows[n][column], value), op) then at else at + [n], rows, column, op, value)
  {
    hide Matches, CompareValues, Reference.Satisfies;
    var n := |rows| - 1;
    TextLaws.MatchesExact(rows[n][column], op, value);
    var more := if Matches(CompareValues(rows[n][column], value), op) then at else at + [n];
    assert n !in at;
    forall k | 0 <= k < |rows|
      ensures column < |rows[k]| && (k in more <==> !Reference.Satisfies(rows[k][column], op, value))
    {
      if k < n {
        assert rows[..n][k] == rows[k];
        assert k in more <==> k in at;
      }
    }
  }

  lemma {:induction false} KeptPlaces(rows: seq<seq<string>>, column: nat, op: string, value: string)
    returns (at: seq<nat>)
    requires forall k :: 0 <= k < |rows| ==> column < |rows[k]|
    ensures Places(at, rows, column, op, value) && Picks(Kept(rows, column, op, value), rows, at)
  {
    hide Matches, CompareValues, Places, Picks;
    if rows == [] {
      at := [];
      NoPlaces(column, op, value);
    } else {
      var n := |rows| - 1;
      at := KeptPlaces(rows[..n], column, op, value);
      PlacesMore(at, rows, column, op, value);
      PicksMore(Kept(rows[..n], column, op, value), rows, at);
      if !Matches(CompareValues(rows[n][column], value), op) {
        at := at + [n];
      }
    }
  }

  lemma NoPlaces(column: nat, op: string, value: string)
    ensures Places([], [], column, op, value) && Picks([], [], [])
  {
  }

  lemma {:induction false} PicksMore(left: seq<seq<string>>, rows: seq<seq<string>>, at: seq<nat>)
    requires rows != [] && Picks(left, rows[..|rows| - 1], at)
    ensures Picks(left, rows, at) && Picks(left + [rows[|rows| - 1]], rows, at + [|rows| - 1])
  {
  }

  /** What a DELETE leaves are the rows at certain places, in order: exactly those that the condition does not
      select, and none without a condition. */
  lemma {:induction false} SurvivorPlaces(file: string, where: Option<WhereClause>) returns (at: seq<nat>)
    requires Survivors(file, where).Some?
    ensures Picks(Survivors(file, where).value, Load(file).value.rows, at)
    ensures where == None ==> at == []
    ensures var t := Load(file).value;
      where.Some? && t.rows != [] ==>
        var column := FindColumn(t.columns, where.value.column);
        0 <= column < |t.columns| && Places(at, t.rows, column, where.value.op, where.value.value)
  {
    hide Matches, CompareValues, Load, FindColumn;
    LoadRegular(file);
    var t := Load(file).value;
    if where.Some? && t.rows != [] {
      at := KeptPlaces(t.rows, FindColumn(t.columns, where.value.column), where.value.op, where.value.value);
    } else {
      at := [];
    }
  }

  /** After a DELETE, on any file with a header, the file holds exactly the surviving rows, in order, and the
      others are counted. Only a row of one empty value does not survive being written. */
  lemma {:induction false} DeleteKeeps(file: string, where: Option<WhereClause>)
    requires file != "" && AfterDelete(file, where).Some?
    ensures Survivors(file, where).Some?
    ensures
      var t := Load(file).value;
      var left := Survivors(file, where).value;
      var (after, count) := AfterDelete(file, where).value;
      && count + |left| == |t.rows|
      && Load(after).Some? && Load(after).value.columns == t.columns && Load(after).value.rows == Visible(left)
  {
    hide Load, Survivors, AllClean, FitsLine, CsvRow, ValidHeader, CsvRows, Visible;
    var at := SurvivorPlaces(file, where);
    LoadedStorable(file);
    var t := Load(file).value;
    var left := Survivors(file, where).value;
    forall k | 0 <= k < |left| ensures |left[k]| == |t.columns| && AllClean(left[k]) && FitsLine(left[k]) {
      assert left[k] == t.rows[at[k]];
    }
    LoadWritten(t.columns, left);
  }
}
