/** Histories of inserts and deletes on one table file: what one statement stores, and the ids it gives. */
module StorageHistory {
  import opened Text
  import opened Options
  import opened Sql
  import opened TableModel
  import opened Csv
  import opened Storage
  import opened StorageFacts

  /** The file after one statement; there may be no file yet. An INSERT that fails leaves an empty one. */
  ghost function Apply(file: Option<string>, s: Statement): Option<string>
    requires Plain(s)
  {
    match s
    case Insert(_, columns, values) =>
      var before := if file.Some? then file.value else "";
      var after := AfterInsert(before, columns, values);
      if after.Some? then after else Some(before)
    case Delete(_, where) =>
      if file == None || AfterDelete(file.value, where) == None then file
      else Some(AfterDelete(file.value, where).value.0)
    case Select(_, _, _) => file
  }

  /** A statement as the parser's buffers hold it: texts without NUL, and no more columns than there is room for. */
  ghost predicate Plain(s: Statement) {
    s.Insert? ==> |s.values| == |s.columns| <= MAX_COLUMNS && NulFree(s.columns) && NulFree(s.values)
  }

  ghost function Play(ss: seq<Statement>): Option<string>
    requires forall i :: 0 <= i < |ss| ==> Plain(ss[i])
  {
    if ss == [] then None else Apply(Play(ss[..|ss| - 1]), ss[|ss| - 1])
  }

  // ---------- Ids ----------

  /** No two rows have the same id, and none has an empty one. */
  ghost predicate Distinct(header: seq<string>, rows: seq<seq<string>>) {
    && (forall k :: 0 <= k < |rows| ==> |rows[k]| == |header|)
    && var id := FindColumn(header, "id");
    id >= 0 ==>
      && (forall k :: 0 <= k < |rows| ==> rows[k][id] != "")
      && (forall j, k :: 0 <= j < k < |rows| ==> rows[j][id] != rows[k][id])
  }

  /** Every id in the file that is an integer lies below the end of `long long`. */
  ghost predicate InRange(file: Option<string>) {
    if file == None || Load(file.value) == None then true
    else
      LoadRegular(file.value);
      var t := Load(file.value).value;
      var id := FindColumn(t.columns, "id");
      id >= 0 ==> forall k :: 0 <= k < |t.rows| && IsInteger(t.rows[k][id]) ==> ParseInteger(t.rows[k][id]) < LLONG_MAX
  }

  ghost function Column(rows: seq<seq<string>>, column: nat): (cells: seq<string>)
    requires forall k :: 0 <= k < |rows| ==> column < |rows[k]|
    ensures |cells| == |rows| && forall k :: 0 <= k < |cells| ==> cells[k] == rows[k][column]
  {
    seq(|rows|, k requires 0 <= k < |rows| => rows[k][column])
  }

  /** An automatic id exceeds every id in the file if and only if none of them is at the end of `long long`. */
  lemma {:induction false} AutoIdAbove(ids: seq<string>)
    requires AllIntegers(ids)
    ensures (forall i :: 0 <= i < |ids| ==> ParseInteger(ids[i]) < AutoId(ids)) <==>
            (forall i :: 0 <= i < |ids| ==> ParseInteger(ids[i]) < LLONG_MAX)
    ensures LLONG_MIN <= AutoId(ids) <= LLONG_MAX
    ensures (forall i :: 0 <= i < |ids| ==> ParseInteger(ids[i]) < LLONG_MAX) ==> AutoId(ids) >= 1
  {
    hide ParseInteger, IsInteger;
    AutoIdInRange(ids);
    if forall i :: 0 <= i < |ids| ==> ParseInteger(ids[i]) < LLONG_MAX {
      AutoIdGrows(ids);
    }
  }

  lemma {:induction false} AutoIdInRange(ids: seq<string>)
    requires AllIntegers(ids)
    ensures LLONG_MIN <= AutoId(ids) <= LLONG_MAX
  {
    hide ParseInteger, IsInteger;
    if ids != [] {
      AutoIdInRange(ids[..|ids| - 1]);
    }
  }

  lemma {:induction false} AutoIdGrows(ids: seq<string>)
    requires AllIntegers(ids) && forall i :: 0 <= i < |ids| ==> ParseInteger(ids[i]) < LLONG_MAX
    ensures 1 <= AutoId(ids) && forall i :: 0 <= i < |ids| ==> ParseInteger(ids[i]) < AutoId(ids)
  {
    hide ParseInteger, IsInteger;
    if ids != [] {
      AutoIdGrows(ids[..|ids| - 1]);
    }
  }

  /** One more than the largest of these ids; without any, the least number there is. */
  ghost function Above(ids: seq<string>): (next: int)
    requires AllIntegers(ids)
    ensures forall i :: 0 <= i < |ids| ==> ParseInteger(ids[i]) < next
    ensures if ids == [] then next == LLONG_MIN else exists i :: 0 <= i < |ids| && next == ParseInteger(ids[i]) + 1
  {
    if ids == [] then LLONG_MIN
    else
      var n := |ids| - 1;
      var next := Above(ids[..n]);
      if ParseInteger(ids[n]) >= next then ParseInteger(ids[n]) + 1
      else
        assert next != LLONG_MIN ==> exists i :: 0 <= i < n && next == ParseInteger(ids[..n][i]) + 1;
        next
  }

  /** Behind the last id at the end of `long long` the numbers start over; one up to there is spelled as the number
      above all that stand behind it. */
  ghost predicate Clash(ids: seq<string>)
    requires AllIntegers(ids)
  {
    exists i, j :: 0 <= i <= j < |ids| && LastMax(ids, j) && ids[i] == Decimal(Above(ids[j + 1..]))
  }

  ghost predicate LastMax(ids: seq<string>, j: nat)
    requires AllIntegers(ids)
  {
    j < |ids| && ParseInteger(ids[j]) == LLONG_MAX && forall k :: j < k < |ids| ==> ParseInteger(ids[k]) < LLONG_MAX
  }

  lemma {:induction false} AutoIdBehind(ids: seq<string>, j: nat)
    requires AllIntegers(ids) && LastMax(ids, j)
    ensures AutoId(ids) == Above(ids[j + 1..])
  {
    hide ParseInteger, IsInteger;
    var n := |ids| - 1;
    AutoIdInRange(ids[..n]);
    if j == n {
      assert ids[j + 1..] == [];
    } else {
      AutoIdBehind(ids[..n], j);
      assert ids[j + 1..][..n - j - 1] == ids[..n][j + 1..];
    }
  }

  lemma {:induction false} FindLastMax(ids: seq<string>) returns (j: nat)
    requires AllIntegers(ids) && exists i :: 0 <= i < |ids| && ParseInteger(ids[i]) == LLONG_MAX
    ensures LastMax(ids, j)
  {
    hide ParseInteger, IsInteger;
    var n := |ids| - 1;
    if ParseInteger(ids[n]) == LLONG_MAX {
      j := n;
    } else {
      var i :| 0 <= i < |ids| && ParseInteger(ids[i]) == LLONG_MAX;
      assert ids[..n][i] == ids[i];
      j := FindLastMax(ids[..n]);
    }
  }

  /** The next automatic id is the text of an id that is there if and only if the ids clash. */
  lemma {:induction false} NextTaken(ids: seq<string>)
    requires AllIntegers(ids)
    ensures Decimal(AutoId(ids)) in ids <==> Clash(ids)
  {
    hide ParseInteger, IsInteger, Decimal, AutoId, Above;
    var next := AutoId(ids);
    AutoIdInRange(ids);
    if i, j :| 0 <= i <= j < |ids| && LastMax(ids, j) && ids[i] == Decimal(Above(ids[j + 1..])) {
      AutoIdBehind(ids, j);
      assert Decimal(next) == ids[i];
    }
    if forall k :: 0 <= k < |ids| ==> ParseInteger(ids[k]) < LLONG_MAX {
      AutoIdGrows(ids);
    } else {
      var j := FindLastMax(ids);
      AutoIdBehind(ids, j);
      forall i | j < i < |ids| ensures ids[i] != Decimal(next) {
        assert ids[j + 1..][i - j - 1] == ids[i];
      }
    }
  }

  /** An id at the end of `long long` makes the next one start over, and meet an id that is taken. */
  lemma {:induction false} AutoIdWraps()
    ensures var ids := [Decimal(6), Decimal(LLONG_MAX), Decimal(5)]; AllIntegers(ids) && Decimal(AutoId(ids)) == ids[0]
  {
    hide ParseInteger, IsInteger, Decimal;
    var ids := [Decimal(6), Decimal(LLONG_MAX), Decimal(5)];
    assert ids[..2] == [Decimal(6), Decimal(LLONG_MAX)];
    assert ids[..2][..1] == [Decimal(6)] && ids[..2][..1][..0] == [];
    assert AutoId(ids[..2][..1]) == 7;
    assert AutoId(ids[..2]) == LLONG_MIN;
  }

  lemma {:induction false} IdCellsLoaded(file: string, id: nat)
    requires Load(file).Some? && id < |Load(file).value.columns|
    ensures var t := Load(file).value;
      var cells := IdCells(file, HeaderEnd(file), |t.columns|, id);
      && cells.Some? && |cells.value| == |t.rows|
      && forall k :: 0 <= k < |t.rows| ==> id < |t.rows[k]| && cells.value[k] == t.rows[k][id]
  {
    RecordsRegular(file, HeaderEnd(file), |Load(file).value.columns|);
  }

  /** An automatic id exceeds every id in the file if and only if none of them is at the end of `long long`, and it
      is new if and only if the ids do not clash. */
  lemma {:induction false} AutoIdExceeds(file: string)
    requires Load(file).Some? && NextId(file, Load(file).value.columns).Some?
    ensures var t := Load(file).value;
      var next := NextId(file, t.columns).value;
      var id := FindColumn(t.columns, "id");
      && IsInteger(next) && id >= 0 && next != ""
      && (forall k :: 0 <= k < |t.rows| ==> id < |t.rows[k]| && IsInteger(t.rows[k][id]))
      && ((forall k :: 0 <= k < |t.rows| ==> ParseInteger(t.rows[k][id]) < ParseInteger(next)) <==> InRange(Some(file)))
      && ((exists k :: 0 <= k < |t.rows| && t.rows[k][id] == next) <==> Clash(Column(t.rows, id)))
  {
    hide ParseInteger, Load, Clash, IsInteger, Decimal;
    var t := Load(file).value;
    var id := FindColumn(t.columns, "id");
    IdCellsLoaded(file, id);
    var cells := IdCells(file, HeaderEnd(file), |t.columns|, id).value;
    assert cells == Column(t.rows, id);
    AutoIdAbove(cells);
    NextTaken(cells);
    IntegerClean(Decimal(AutoId(cells)));
    assert forall k :: 0 <= k < |t.rows| ==> cells[k] == t.rows[k][id];
  }

  // ---------- Steps ----------

  lemma {:induction false} VisibleIds(header: seq<string>, rows: seq<seq<string>>)
    requires Distinct(header, rows) && FindColumn(header, "id") >= 0
    ensures Visible(rows) == rows
  {
    hide EqualsIgnoreCase;
    var id := FindColumn(header, "id");
    forall k | 0 <= k < |rows| ensures rows[k] != [""] {
      assert rows[k][id] != "";
    }
    AllVisible(rows);
  }

  lemma {:induction false} TableHeader(header: seq<string>, rows: seq<seq<string>>)
    requires Storable(header, rows)
    ensures Header(TableFile(header, rows)) == Some(header)
    decreases |rows|
  {
    hide CsvRow, Header, AllClean, ValidHeader;
    if rows == [] {
      HeaderWritten(header);
      assert TableFile(header, rows) == CsvRow(header);
    } else {
      var n := |rows| - 1;
      TableHeader(header, rows[..n]);
      HeaderAppended(TableFile(header, rows[..n]), CsvRow(rows[n]));
      assert TableFile(header, rows) == TableFile(header, rows[..n]) + CsvRow(rows[n]);
    }
  }

  lemma {:induction false} IntegerClean(value: string)
    requires IsInteger(value)
    ensures Clean(value) && value != ""
  {
    forall i | 0 <= i < |value| ensures !EndsLine(value[i]) && value[i] != '\0' {
      if Signed(value) && i > 0 {
        assert IsDigit(value[1..][i - 1]);
      }
    }
  }

  lemma {:induction false} ArrangedNulFree(header: seq<string>, columns: seq<string>, values: seq<string>, auto: string)
    requires Fitting(header, columns) && |values| == |columns| && NulFree(values) && '\0' !in auto
    ensures NulFree(Arranged(header, columns, values, auto))
  {
    hide EqualsIgnoreCase, Automatic;
    var row := Arranged(header, columns, values, auto);
    forall i | 0 <= i < |row| ensures '\0' !in row[i] {
      assert row[i] == auto || row[i] == values[FindColumn(columns, header[i])];
    }
  }

  // ---------- What an INSERT stores ----------

  /** The cell is the value that the statement gives, first of all, for a column of this name. */
  ghost predicate Given(cell: string, name: string, columns: seq<string>, values: seq<string>)
    requires |columns| == |values|
  {
    exists j :: 0 <= j < |columns| && EqualsIgnoreCase(columns[j], name) && cell == values[j]
      && forall i :: 0 <= i < j ==> !EqualsIgnoreCase(columns[i], name)
  }

  lemma {:induction false} ArrangedGiven(header: seq<string>, columns: seq<string>, values: seq<string>, auto: string)
    requires Fitting(header, columns) && |values| == |columns|
    ensures var row := Arranged(header, columns, values, auto);
      forall i :: 0 <= i < |row| && !(Automatic(header, columns) && i == FindColumn(header, "id")) ==>
        Given(row[i], header[i], columns, values)
    ensures Automatic(header, columns) ==> Arranged(header, columns, values, auto)[FindColumn(header, "id")] == auto
  {
    hide EqualsIgnoreCase;
    var row := Arranged(header, columns, values, auto);
    forall i | 0 <= i < |row| && !(Automatic(header, columns) && i == FindColumn(header, "id"))
      ensures Given(row[i], header[i], columns, values)
    {
      var j := FindColumn(columns, header[i]);
      assert 0 <= j < |columns| && row[i] == values[j];
    }
  }

  /** An INSERT into any file that loads writes one row behind it: under each column the value the statement names
      for it, and under an `id` that it does not name the next one. The row is added to what loads if and only if
      the file ends in a newline, and the row is not too long, without line breaks and not one empty value. Otherwise
      it spoils the file, is a blank line, or is glued to the last line. */
  lemma {:induction false} InsertStores(file: string, columns: seq<string>, values: seq<string>)
    returns (row: seq<string>)
    requires file != "" && Load(file).Some? && |columns| == |values| && NulFree(values)
    requires AfterInsert(file, columns, values).Some?
    ensures AfterInsert(file, columns, values) == Some(file + CsvRow(row)) && |row| == |Load(file).value.columns|
    ensures var t := Load(file).value;
      forall i :: 0 <= i < |row| ==>
        if Automatic(t.columns, columns) && i == FindColumn(t.columns, "id")
          then NextId(file, t.columns) == Some(row[i])
        else Given(row[i], t.columns[i], columns, values)
    ensures Adds(file, row) <==> EndsInNewline(file) && FitsLine(row) && !AnyBreak(row) && row != [""]
    ensures EndsInNewline(file) ==>
      var t, after := Load(file).value, Load(file + CsvRow(row));
      (after.Some? <==> FitsLine(row) && !AnyBreak(row)) && (row == [""] ==> after == Some(t))
    ensures !EndsInNewline(file) && !AnyBreak(row) && Load(file + CsvRow(row)).Some? ==>
      |Load(file + CsvRow(row)).value.rows| == |Load(file).value.rows|
  {
    hide CsvRow, Load, Records, KeyFree, Given, Fitting, Arranged, ReadLine, Fields, FindColumn, EqualsIgnoreCase;
    hide AutoId, FitsLine, NulFree, AnyBreak, AllClean;
    var header := Load(file).value.columns;
    LoadedHeader(file);
    var auto := if Automatic(header, columns) then NextId(file, header).value else "";
    row := Arranged(header, columns, values, auto);
    ArrangedGiven(header, columns, values, auto);
    assert Clean(auto) by {
      if Automatic(header, columns) {
        IntegerClean(auto);
      }
    }
    ArrangedNulFree(header, columns, values, auto);
    LoadAppended(file, row);
    CleanExactly(row);
    if EndsInNewline(file) {
      LineAdded(file, row);
      OneWritten(|file|, row, |header|);
      BlankAdded(Load(file).value, |file|);
    } else if !AnyBreak(row) && Load(file + CsvRow(row)).Some? {
      LoadGlued(file, row);
    }
  }

  lemma BlankAdded(t: TableData, offset: nat)
    ensures Readable([""]) && Written(offset, [""], |t.columns|) == Some([])
    ensures TableData(t.columns, t.rows + FieldsOf([]), t.offsets + OffsetsOf([])) == t
  {
  }

  /** An INSERT into an empty file stores the statement's columns and values, with `id` and 1 in front if the
      statement names no id; a row that is too long, and a line break in a column or a value, spoil the file. */
  lemma {:induction false} FirstInsertStores(columns: seq<string>, values: seq<string>)
    requires |columns| == |values| <= MAX_COLUMNS && NulFree(columns) && NulFree(values)
    requires AfterInsert("", columns, values).Some?
    ensures var named := FindColumn(columns, "id") >= 0;
      var header, row := if named then columns else ["id"] + columns, if named then values else ["1"] + values;
      var t := Load(AfterInsert("", columns, values).value);
      && (t.Some? <==> FitsLine(row) && !AnyBreak(header) && !AnyBreak(row))
      && (t.Some? ==> t.value.columns == header && t.value.rows == [row])
  {
    hide CsvRow, Load, EqualsIgnoreCase, FitsLine, AnyBreak;
    var header, row := FirstInsert(columns, values);
    FirstLoads(header, row);
  }

  /** A header and one row, written to an empty file. */
  lemma {:induction false} FirstLoads(header: seq<string>, row: seq<string>)
    requires header != [] && ValidHeader(header) && |row| == |header| && row != [""] && NulFree(header) && NulFree(row)
    ensures var t := Load(TableFile(header, [row]));
      && (t.Some? <==> Readable(row) && !AnyBreak(header))
      && (t.Some? ==> t.value.columns == header && t.value.rows == [row])
  {
    hide CsvRow, Load, AnyBreak, NulFree, AllClean, FitsLine, ValidHeader;
    OneRow(header, row);
    CleanExactly(header);
    if AnyBreak(header) {
      BrokenHeader(header);
      StaysSpoiled(CsvRow(header), CsvRow(row));
    } else {
      LoadHeader(header);
      LineAdded(CsvRow(header), row);
      OneWritten(|CsvRow(header)|, row, |header|);
      assert [] + [row] == [row];
    }
  }

  lemma {:induction false} OneRow(header: seq<string>, row: seq<string>)
    ensures TableFile(header, [row]) == CsvRow(header) + CsvRow(row)
    ensures EndsInNewline(CsvRow(header))
  {
    hide CsvRow;
    assert [row][..0] == [];
    assert CsvRows([row]) == CsvRow(row);
  }

  lemma {:induction false} BrokenHeader(header: seq<string>)
    requires AnyBreak(header) && NulFree(header)
    ensures Load(CsvRow(header)) == None
  {
    hide CsvRow, AnyBreak, NulFree, Fields, ReadLine;
    ReadBroken("", header);
    assert "" + CsvRow(header) == CsvRow(header);
  }

  lemma {:induction false} EmptyKeys(header: seq<string>, row: seq<string>)
    requires |row| == |header|
    ensures Header("") == Some([]) && HeaderEnd("") == 0
    ensures KeyFree("", 0, header, row) <==> FindColumn(header, "id") < 0 || row[FindColumn(header, "id")] != ""
  {
    hide FindColumn;
    assert Records("", 0, |header|) == Some([]);
  }

  lemma {:induction false} HeaderNamesId(columns: seq<string>)
    requires NewHeader(columns).Some?
    ensures FindColumn(NewHeader(columns).value, "id") >= 0
  {
    if FindColumn(columns, "id") < 0 {
      assert NewHeader(columns).value[0] == "id" && EqualsIgnoreCase("id", "id");
    }
  }

  lemma {:induction false} FirstNames(columns: seq<string>, values: seq<string>)
    requires |columns| == |values| <= MAX_COLUMNS && NulFree(columns) && NulFree(values) && NewHeader(columns).Some?
    ensures var header, row := NewHeader(columns).value, NewRow(columns, values);
      header != [] && ValidHeader(header) && |row| == |header| && NulFree(header) && NulFree(row)
  {
    hide FindColumn;
    if columns == [] {
      NoColumn("id");
    }
  }

  lemma NoColumn(name: string)
    ensures FindColumn([], name) < 0
  {
  }

  lemma {:induction false} FirstInsert(columns: seq<string>, values: seq<string>)
    returns (header: seq<string>, row: seq<string>)
    requires |columns| == |values| <= MAX_COLUMNS && NulFree(columns) && NulFree(values)
    requires AfterInsert("", columns, values).Some?
    ensures AfterInsert("", columns, values) == Some(TableFile(header, [row]))
    ensures Some(header) == NewHeader(columns) && row == NewRow(columns, values) && FindColumn(header, "id") >= 0
    ensures header != [] && ValidHeader(header) && |row| == |header| && row != [""] && NulFree(header) && NulFree(row)
  {
    hide CsvRow, Load, Header, EqualsIgnoreCase, Records, IdCells, FindColumn, NulFree, ValidHeader, NewHeader, NewRow;
    header := NewHeader(columns).value;
    row := NewRow(columns, values);
    HeaderNamesId(columns);
    FirstNames(columns, values);
    OneRow(header, row);
    assert "" + CsvRow(header) + CsvRow(row) == TableFile(header, [row]);
  }

  lemma {:induction false} KeptDistinct(header: seq<string>, rows: seq<seq<string>>, column: nat, op: string,
      value: string)
    requires forall k :: 0 <= k < |rows| ==> |rows[k]| == |header|
    requires Distinct(header, rows) && column < |header|
    ensures forall row :: row in Kept(rows, column, op, value) ==> row in rows
    ensures Distinct(header, Kept(rows, column, op, value))
  {
    hide Matches, CompareValues, EqualsIgnoreCase;
    if rows != [] {
      var n := |rows| - 1;
      KeptDistinct(header, rows[..n], column, op, value);
      var id := FindColumn(header, "id");
      var front := Kept(rows[..n], column, op, value);
      forall k | 0 <= k < |front| && id >= 0 ensures front[k][id] != rows[n][id] {
        assert front[k] in rows[..n];
      }
    }
  }

  lemma {:induction false} EmptyDelete(where: Option<WhereClause>)
    ensures AfterDelete("", where) == Some((TableFile([""], []), 0))
    ensures Storable([""], []) && FindColumn([""], "id") == -1 && Load(TableFile([""], [])).Some?
  {
    hide Fields, CsvValue;
    assert Load("").value.rows == [];
    assert CsvFields([]) == CsvFields([""]) == "" by {
      assert !NeedsQuotes("");
      EmptyFields();
    }
    assert CsvRow([]) == CsvRow([""]);
    LoadWritten([""], []);
  }

  /** A DELETE on a file that a failed first INSERT left empty succeeds, and writes a header of one nameless
      column; from then on exactly the INSERTs of one nameless column are accepted. */
  lemma {:induction false} SpoiledByDelete(where: Option<WhereClause>, columns: seq<string>, values: seq<string>)
    requires |columns| == |values|
    ensures AfterDelete("", where).Some?
    ensures AfterInsert(AfterDelete("", where).value.0, columns, values).Some? <==> columns == [""]
  {
    hide CsvRow, Records, NextId;
    EmptyDelete(where);
    TableHeader([""], []);
    assert [""][0] == "";
  }

  lemma EmptyFields()
    ensures CsvFields([""]) == CsvFields([]) == ""
  {
  }
}
