/** Inputs on which the table file does not keep what it was given. */
module StorageLimits {
  import opened Text
  import opened Options
  import opened Sql
  import opened TableModel
  import opened Csv
  import opened Storage
  import opened StorageFacts
  import opened StorageHistory
  import opened SheetModel
  import Reference

  // ---------- A failed first INSERT ----------

  /** An INSERT that fails because its id is empty leaves an empty file behind. */
  lemma {:induction false} EmptyFileLeft()
    ensures Plain(Insert("t", ["id"], [""])) && Apply(None, Insert("t", ["id"], [""])) == Some("")
  {
    var first := FindColumn(["id"], "id");
    assert ["id"][0] == "id" && EqualsIgnoreCase("id", "id");
    EmptyKeys(["id"], [""]);
  }

  // ---------- A row that is too long ----------

  ghost function Repeated(value: string, n: nat): (r: seq<string>)
    ensures |r| == n && forall i :: 0 <= i < n ==> r[i] == value
  {
    seq(n, _ => value)
  }

  lemma {:induction false} RepeatedLength(value: string, n: nat)
    requires n > 0
    ensures |CsvFields(Repeated(value, n))| == n * (|CsvValue(value)| + 1) - 1
  {
    hide CsvValue;
    var values := Repeated(value, n);
    if n > 1 {
      assert values[1..] == Repeated(value, n - 1);
      RepeatedLength(value, n - 1);
      assert (n - 1) * (|CsvValue(value)| + 1) + (|CsvValue(value)| + 1) == n * (|CsvValue(value)| + 1);
    }
  }

  ghost function Marks(n: nat): (s: string)
    ensures |s| == n && forall i :: 0 <= i < n ==> s[i] == '"'
  {
    seq(n, _ => '"')
  }

  lemma {:induction false} MarksLength(n: nat)
    ensures Quotes(Marks(n)) == n && Clean(Marks(n))
  {
    if n > 0 {
      assert Marks(n)[..n - 1] == Marks(n - 1);
      MarksLength(n - 1);
    }
  }

  /** The names `id`, `c1`, `c2` and so on. */
  ghost function Names(n: nat): (names: seq<string>)
    ensures |names| == n
    ensures forall i :: 0 <= i < n ==> names[i] == if i == 0 then "id" else ['c'] + Digits(i)
  {
    seq(n, i requires 0 <= i => if i == 0 then "id" else ['c'] + Digits(i))
  }

  lemma {:induction false} ShortName(i: nat)
    requires i < 100
    ensures |Digits(i)| <= 2 && Clean(['c'] + Digits(i))
  {
    if i >= 10 {
      assert |Digits(i / 10)| == 1;
    }
  }

  lemma {:induction false} NamesClean(n: nat)
    requires n <= MAX_COLUMNS
    ensures AllClean(Names(n)) && forall i :: 0 <= i < n ==> |Names(n)[i]| < MAX_IDENTIFIER_LEN
  {
    forall i | 0 <= i < n ensures Clean(Names(n)[i]) && |Names(n)[i]| < MAX_IDENTIFIER_LEN {
      ShortName(i);
    }
  }

  /** 32 named columns and 32 values of 255 quotation marks are accepted, within the buffers of a statement; the
      line that is written is too long to be read, and the file does not load. */
  lemma {:induction false} WideRow()
    ensures var columns, values := Names(MAX_COLUMNS), Repeated(Marks(MAX_VALUE_LEN - 1), MAX_COLUMNS);
      && Plain(Insert("t", columns, values)) && (forall i :: 0 <= i < |columns| ==> |columns[i]| < MAX_IDENTIFIER_LEN)
      && AfterInsert("", columns, values).Some? && Load(AfterInsert("", columns, values).value) == None
  {
    hide CsvRow, Load, EqualsIgnoreCase, Marks, Names, Repeated;
    var columns, values := Names(MAX_COLUMNS), Repeated(Marks(MAX_VALUE_LEN - 1), MAX_COLUMNS);
    NamesClean(MAX_COLUMNS);
    MarksLength(MAX_VALUE_LEN - 1);
    IdFirst(columns);
    EmptyKeys(columns, values);
    FirstInsertStores(columns, values);
    WideLine();
  }

  lemma {:induction false} IdFirst(columns: seq<string>)
    requires columns != [] && columns[0] == "id"
    ensures FindColumn(columns, "id") == 0
  {
    assert EqualsIgnoreCase("id", "id");
  }

  lemma {:induction false} WideLine()
    ensures !FitsLine(Repeated(Marks(MAX_VALUE_LEN - 1), MAX_COLUMNS))
  {
    hide Marks, Repeated, Escaped, CsvFields;
    var value := Marks(MAX_VALUE_LEN - 1);
    MarksLength(MAX_VALUE_LEN - 1);
    EscapedLength(value);
    assert value[0] == '"';
    RepeatedLength(value, MAX_COLUMNS);
  }

  // ---------- A line break in a value ----------

  /** An INSERT of a value with a line break is accepted, and the file does not load any more. */
  lemma {:induction false} BreakSpoils()
    ensures Load("id,a\n") == Some(TableData(["id", "a"], [], []))
    ensures AfterInsert("id,a\n", ["a"], ["x\ny"]) == Some("id,a\n" + "1,\"x\ny\"\n")
    ensures Load("id,a\n" + "1,\"x\ny\"\n") == None
  {
    hide Load, CsvRow, FitsLine;
    var header, row := ["id", "a"], ["1", "x\ny"];
    IdAndA();
    BrokenText();
    LoadHeader(header);
    FirstAdded("id,a\n", ["a"], ["x\ny"]);
    LoadAppended("id,a\n", row);
    LineAdded("id,a\n", row);
  }

  lemma {:induction false} IdAndA()
    ensures var header := ["id", "a"];
      && CsvRow(header) == "id,a\n" && ValidHeader(header) && AllClean(header)
      && FindColumn(header, "id") == 0 && FindColumn(["a"], "id") < 0 && FindColumn(["a"], "a") == 0
      && Fitting(header, ["a"]) && Automatic(header, ["a"])
  {
    var header := ["id", "a"];
    assert header[0] == "id" && header[1] == "a" && ["a"][0] == "a" && header[1..] == ["a"];
    assert EqualsIgnoreCase("id", "id") && EqualsIgnoreCase("a", "a") && !EqualsIgnoreCase("a", "id");
    assert "id" + ([','] + "a") + ['\n'] == "id,a\n";
  }

  lemma {:induction false} BrokenText()
    ensures var row := ["1", "x\ny"]; CsvRow(row) == "1,\"x\ny\"\n" && AnyBreak(row) && NulFree(row)
  {
    var row := ["1", "x\ny"];
    assert row[1..] == ["x\ny"];
    var v := "x\ny";
    assert v[1..] == "\ny" && v[1..][1..] == "y" && v[1..][1..][1..] == "";
    assert Escaped(v) == v;
    assert HasBreak(row[1]);
    assert "1" + ([','] + (['"'] + (v + ['"']))) + ['\n'] == "1,\"x\ny\"\n";
  }

  /** The first row under the columns `id` and `a` gets the id 1. */
  lemma {:induction false} FirstAdded(file: string, columns: seq<string>, values: seq<string>)
    requires file != "" && Load(file) == Some(TableData(["id", "a"], [], []))
    requires columns == ["a"] && |values| == 1
    ensures AfterInsert(file, columns, values) == Some(file + CsvRow(["1", values[0]]))
  {
    hide Load, CsvRow, FindColumn, IdCells;
    var header := ["id", "a"];
    IdAndA();
    LoadedHeader(file);
    IdCellsLoaded(file, 0);
    assert IdCells(file, HeaderEnd(file), 2, 0) == Some([]);
    assert Digits(1) == "1";
    assert Arranged(header, columns, values, "1") == ["1", values[0]];
  }

  // ---------- A last line without a newline ----------

  /** In a file that consists of a header without a newline, the row of the first INSERT becomes part of the header. */
  lemma {:induction false} RowGlued()
    ensures Load("id,a") == Some(TableData(["id", "a"], [], []))
    ensures AfterInsert("id,a", ["a"], ["y"]) == Some("id,a1,y\n")
    ensures Load("id,a1,y\n") == Some(TableData(["id", "a1", "y"], [], []))
  {
    hide Load, CsvRow, FitsLine;
    OpenHeader();
    FirstAdded("id,a", ["a"], ["y"]);
    assert "id,a" + "1,y\n" == "id,a1,y\n";
    GluedTexts();
    LoadHeader(["id", "a1", "y"]);
  }

  lemma {:induction false} LineEndOpen(file: string, pos: nat, room: nat)
    requires pos <= |file| && '\n' !in file && |file| - pos <= room
    ensures LineEnd(file, pos, room) == |file|
    decreases room
  {
    if pos < |file| {
      LineEndOpen(file, pos + 1, room - 1);
    }
  }

  lemma {:induction false} OpenHeader()
    ensures Load("id,a") == Some(TableData(["id", "a"], [], []))
  {
    hide LineEnd, CString, Parse, Records;
    var file := "id,a";
    LineEndOpen(file, 0, MAX_CSV_LINE_LENGTH - 1);
    assert file[0..|file|] == file;
    assert Fields(file) == Some(["id", "a"]) by { OpenFields(); }
    RecordsRead(file, |file|, 2);
    AtEndReads(file, |file|, 2);
  }

  lemma {:induction false} OpenFields()
    ensures Fields("id,a") == Some(["id", "a"])
  {
    assert "id,a"[1..] == "d,a" && "d,a"[1..] == ",a" && ",a"[1..] == "a" && "a"[1..] == "";
    assert "" + ['a'] == "a" && "i" + ['d'] == "id" && "" + ['i'] == "i";
    assert Parse("a", false, "") == Some(["a"]);
    assert Parse(",a", false, "id") == Some(["id"] + ["a"]);
    assert ["id"] + ["a"] == ["id", "a"];
    assert Parse("d,a", false, "i") == Parse(",a", false, "id");
  }

  lemma {:induction false} GluedTexts()
    ensures CsvRow(["1", "y"]) == "1,y\n" && CsvRow(["id", "a1", "y"]) == "id,a1,y\n"
    ensures AllClean(["id", "a1", "y"]) && ValidHeader(["id", "a1", "y"])
  {
    assert ["1", "y"][1..] == ["y"] && ["id", "a1", "y"][1..] == ["a1", "y"] && ["a1", "y"][1..] == ["y"];
    assert "1" + ([','] + "y") + ['\n'] == "1,y\n";
    assert "id" + ([','] + ("a1" + ([','] + "y"))) + ['\n'] == "id,a1,y\n";
  }

  // ---------- A row of one empty value ----------

  /** A line of two quotation marks is read as a row of one empty value. */
  lemma {:induction false} EmptyQuoted(file: string)
    ensures Records(file + "\"\"\n", |file|, 1) == Some([Record(|file|, [""])])
  {
    hide CString;
    var text := "\"\"\n";
    var all := file + text;
    assert all[|file|] == '"' && all[|file| + 1] == '"' && all[|file| + 2] == '\n';
    LineEndFinds(all, |file|, |all|, MAX_CSV_LINE_LENGTH - 1);
    assert all[|file|..|all|] == text;
    assert text[2] == '\n' && CString(text) == text;
    assert Fields(text) == Some([""]) by {
      assert text[1..] == "\"\n" && text[1..][1..] == "\n";
    }
    AtEndReads(all, |all|, 1);
    RecordsRead(all, |all|, 1);
    assert [Record(|file|, [""])] + [] == [Record(|file|, [""])];
  }

  /** In a table of the column `a` with an empty value and a `b`, DELETE WHERE a = 'b' is to keep the first row and
      counts one deleted row; afterwards both are gone. */
  lemma {:induction false} BlankLost()
    ensures var file, where := "a\n" + "\"\"\n" + "b\n", Some(WhereClause("a", "=", "b"));
      && Load(file).Some? && Load(file).value.rows == [[""], ["b"]]
      && Survivors(file, where) == Some([[""]]) && AfterDelete(file, where).Some?
      && AfterDelete(file, where).value.1 == 1
      && Load(AfterDelete(file, where).value.0).Some? && Load(AfterDelete(file, where).value.0).value.rows == []
  {
    hide Load, Survivors;
    var file, where := "a\n" + "\"\"\n" + "b\n", Some(WhereClause("a", "=", "b"));
    BlankLoads();
    BlankSurvives();
    DeleteKeeps(file, where);
    assert Visible([[""]]) == [] by {
      assert [[""]][..0] == [];
      assert Visible([]) == [];
    }
  }

  lemma {:induction false} BlankLoads()
    ensures var file := "a\n" + "\"\"\n" + "b\n";
      Load(file).Some? && Load(file).value.columns == ["a"] && Load(file).value.rows == [[""], ["b"]]
  {
    hide Header, HeaderEnd, Records, FitsLine, CsvRow;
    Written1("a");
    Written1("b");
    var head, one := "a\n", "a\n" + "\"\"\n";
    assert "a" + "\n" == head && "b" + "\n" == "b\n";
    QuotedLoads(head);
    LoadAppended(one, ["b"]);
    OneWritten(|one|, ["b"], 1);
    assert [[""]] + [["b"]] == [[""], ["b"]];
  }

  lemma {:induction false} QuotedLoads(head: string)
    requires head == CsvRow(["a"]) && head == "a\n"
    ensures var t := Load(head + "\"\"\n"); t.Some? && t.value.columns == ["a"] && t.value.rows == [[""]]
    ensures EndsInNewline(head + "\"\"\n")
  {
    hide Header, HeaderEnd, Records, CsvRow, Clean;
    Written1("a");
    HeaderWritten(["a"]);
    HeaderAppended(head, "\"\"\n");
    EmptyQuoted(head);
    assert FieldsOf([Record(2, [""])]) == [[""]];
  }

  lemma {:induction false} Written1(value: string)
    requires value == "a" || value == "b"
    ensures CsvRow([value]) == value + "\n" && AllClean([value]) && FitsLine([value]) && ValidHeader([value])
  {
    HeaderFits([value]);
  }

  lemma {:induction false} BlankSurvives()
    ensures var file, where := "a\n" + "\"\"\n" + "b\n", Some(WhereClause("a", "=", "b"));
      Survivors(file, where) == Some([[""]])
  {
    hide Load, IsInteger;
    BlankLoads();
    var rows := [[""], ["b"]];
    assert FindColumn(["a"], "a") == 0 by {
      assert ["a"][0] == "a" && EqualsIgnoreCase("a", "a");
    }
    assert rows[..1] == [[""]] && rows[..1][..0] == [];
    BlankCompares();
    assert Kept(rows, 0, "=", "b") == [[""]];
  }

  lemma {:induction false} BlankCompares()
    ensures CompareValues("", "b") != 0 && CompareValues("b", "b") == 0
  {
    assert !IsInteger("") && !IsInteger("b");
  }

  // ---------- The end of long long ----------

  ghost function Four(): seq<Statement> {
    [Insert("t", ["id", "v"], [Decimal(6), "x"]),
     Insert("t", ["id", "v"], [Decimal(LLONG_MAX), "x"]),
     Insert("t", ["id", "v"], [Decimal(5), "x"]),
     Insert("t", ["v"], ["x"])]
  }

  lemma {:induction false} TwoColumns()
    ensures var header := ["id", "v"];
      && FindColumn(header, "id") == 0 && FindColumn(header, "v") == 1
      && FindColumn(["v"], "id") < 0 && FindColumn(["v"], "v") == 0
      && Fitting(header, header) && !Automatic(header, header) && Fitting(header, ["v"]) && Automatic(header, ["v"])
  {
    var header := ["id", "v"];
    assert header[0] == "id" && header[1] == "v" && ["v"][0] == "v";
    assert EqualsIgnoreCase("id", "id") && EqualsIgnoreCase("v", "v") && !EqualsIgnoreCase("v", "id");
    assert !EqualsIgnoreCase("id", "v");
  }

  lemma {:induction false} DigitsAtMost(n: nat, k: nat)
    requires n < Reference.Power10(k) && k > 0
    ensures |Digits(n)| <= k
  {
    if n >= 10 {
      DigitsAtMost(n / 10, k - 1);
    }
  }

  lemma {:induction false} ShortDecimal(n: nat)
    requires n <= LLONG_MAX
    ensures |Decimal(n)| < MAX_IDENTIFIER_LEN && IsInteger(Decimal(n)) && Clean(Decimal(n)) && Decimal(n) != ""
  {
    assert Reference.Power10(10) == 1_0000000000;
    assert Reference.Power10(19) == 1_000_000_000 * Reference.Power10(10);
    DigitsAtMost(n, 19);
    IntegerClean(Decimal(n));
  }

  lemma RowReadable(header: seq<string>, row: seq<string>)
    requires header == ["id", "v"] && |row| == 2 && Clean(row[0]) && row[1] == "x" && |row[0]| < MAX_IDENTIFIER_LEN
    ensures Readable(row) && !AnyBreak(header) && row != [""]
  {
    hide CsvFields;
    HeaderFits(row);
  }

  /** Under the columns `id` and `v` an INSERT of an id that is not there yet adds a row. */
  lemma {:induction false} AddRow(rows: seq<seq<string>>, id: string)
    requires forall k :: 0 <= k < |rows| ==> |rows[k]| == 2
    requires id != "" && Clean(id) && |id| < MAX_IDENTIFIER_LEN && id !in Column(rows, 0)
    requires Plain(Insert("t", ["id", "v"], [id, "x"]))
    ensures PlainApply(Filled(["id", "v"], rows), Insert("t", ["id", "v"], [id, "x"])) ==
      Filled(["id", "v"], rows + [[id, "x"]])
  {
    hide FindColumn, Fitting, Automatic, Readable, AnyBreak;
    TwoColumns();
    var header, row := ["id", "v"], [id, "x"];
    assert Arranged(header, header, row, "") == row;
    assert StoredRow(header, rows, header, row) == Some(row);
    RowReadable(header, row);
  }

  lemma {:induction false} AddNext(rows: seq<seq<string>>, id: string)
    requires forall k :: 0 <= k < |rows| ==> |rows[k]| == 2
    requires AllIntegers(Column(rows, 0)) && Decimal(AutoId(Column(rows, 0))) == id
    requires Clean(id) && |id| < MAX_IDENTIFIER_LEN
    requires Plain(Insert("t", ["v"], ["x"]))
    ensures PlainApply(Filled(["id", "v"], rows), Insert("t", ["v"], ["x"])) == Filled(["id", "v"], rows + [[id, "x"]])
  {
    hide FindColumn, Fitting, Automatic, AutoId, Decimal, IsInteger, Readable, AnyBreak;
    TwoColumns();
    var header, row := ["id", "v"], [id, "x"];
    assert Arranged(header, ["v"], ["x"], id) == row;
    assert StoredRow(header, rows, ["v"], ["x"]) == Some(row);
    RowReadable(header, row);
  }

  lemma {:induction false} FourPlain(i: nat)
    requires i < 4
    ensures Plain(Four()[i])
  {
    hide Decimal, IsInteger;
    ShortDecimal(6);
    ShortDecimal(5);
    ShortDecimal(LLONG_MAX);
  }

  lemma {:induction false} FirstOfFour()
    ensures Plain(Four()[0]) && PlainApply(Absent, Four()[0]) == Filled(["id", "v"], [[Decimal(6), "x"]])
  {
    hide Decimal, IsInteger, FindColumn, Readable, AnyBreak;
    FourPlain(0);
    ShortDecimal(6);
    TwoColumns();
    var header, row := ["id", "v"], [Decimal(6), "x"];
    assert FirstRow(header, row) == Some((header, row));
    RowReadable(header, row);
  }

  lemma {:induction false} FourRun()
    ensures (forall i :: 0 <= i < 4 ==> Plain(Four()[i]))
    ensures PlainRun(Four()) == Filled(["id", "v"],
      [[Decimal(6), "x"], [Decimal(LLONG_MAX), "x"], [Decimal(5), "x"], [Decimal(6), "x"]])
  {
    hide Decimal, IsInteger, PlainApply, ParseInteger;
    var six, most, five := Decimal(6), Decimal(LLONG_MAX), Decimal(5);
    forall i | 0 <= i < 4 ensures Plain(Four()[i]) { FourPlain(i); }
    ShortDecimal(6);
    ShortDecimal(5);
    ShortDecimal(LLONG_MAX);
    var ss := Four();
    FirstOfFour();
    assert ss[..1] == [ss[0]] && ss[..1][..0] == [];
    assert ss[..2][..1] == ss[..1] && ss[..3][..2] == ss[..2] && ss[..4][..3] == ss[..3] && ss[..4] == ss;
    var r1, r2, r3 := [[six, "x"]], [[six, "x"], [most, "x"]], [[six, "x"], [most, "x"], [five, "x"]];
    assert Column(r1, 0) == [six] && Column(r2, 0) == [six, most] && Column(r3, 0) == [six, most, five];
    AddRow(r1, most);
    assert r1 + [[most, "x"]] == r2;
    AddRow(r2, five);
    assert r2 + [[five, "x"]] == r3;
    AutoIdWraps();
    AddNext(r3, six);
    assert PlainRun(ss[..1]) == Filled(["id", "v"], r1);
    assert PlainRun(ss[..2]) == Filled(["id", "v"], r2);
    assert PlainRun(ss[..3]) == Filled(["id", "v"], r3);
  }

  /** After INSERTs of the ids 6, LLONG_MAX and 5, one that names no id stores a second row under the id 6. */
  lemma {:induction false} AutoIdRepeats()
    ensures (forall i :: 0 <= i < 4 ==> Plain(Four()[i])) && Play(Four()).Some? && Load(Play(Four()).value).Some?
    ensures var t := Load(Play(Four()).value).value;
      t.columns == ["id", "v"] && |t.rows| == 4 && t.rows[0] == t.rows[3] && !Distinct(t.columns, t.rows)
  {
    hide Load, Decimal, PlainRun, Play;
    FourRun();
    HistoryFollows(Four());
    TwoColumns();
  }
}
