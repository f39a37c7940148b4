/** The plain meaning of a history of inserts and deletes on one table file: a header and a list of rows. */
module SheetModel {
  import opened Text
  import opened Options
  import opened Sql
  import opened TableModel
  import opened Csv
  import opened Storage
  import opened StorageFacts
  import opened StorageHistory

  /** No file, a file without a header, a table, or a file with a line that cannot be read. */
  datatype Sheet = Absent | Empty | Filled(header: seq<string>, rows: seq<seq<string>>) | Spoiled

  ghost predicate Rectangle(sheet: Sheet) {
    sheet.Filled? ==> forall k :: 0 <= k < |sheet.rows| ==> |sheet.rows[k]| == |sheet.header|
  }

  /** What there is to read in a file. */
  ghost function Reading(file: Option<string>): (sheet: Sheet)
    ensures Rectangle(sheet)
  {
    if file == None then Absent
    else if file.value == "" then Empty
    else if Load(file.value) == None then Spoiled
    else
      LoadRegular(file.value);
      Filled(Load(file.value).value.columns, Load(file.value).value.rows)
  }

  // ---------- Plain statements ----------

  /** The row that an INSERT stores: values under their names, and a fresh id if none is named; nothing if the
      columns are not the table's or the id is empty or taken. */
  ghost function StoredRow(header: seq<string>, rows: seq<seq<string>>, columns: seq<string>, values: seq<string>):
      (r: Option<seq<string>>)
    requires |columns| == |values| && forall k :: 0 <= k < |rows| ==> |rows[k]| == |header|
    ensures r.Some? ==> |r.value| == |header|
  {
    var id := FindColumn(header, "id");
    if !Fitting(header, columns) then None
    else if Automatic(header, columns) then
      var ids := Column(rows, id);
      if AllIntegers(ids) then Some(Arranged(header, columns, values, Decimal(AutoId(ids)))) else None
    else
      var row := Arranged(header, columns, values, "");
      if id < 0 || (row[id] != "" && row[id] !in Column(rows, id)) then Some(row) else None
  }

  /** The header and the row of a first INSERT. */
  ghost function FirstRow(columns: seq<string>, values: seq<string>): (r: Option<(seq<string>, seq<string>)>)
    requires |columns| == |values|
    ensures r.Some? ==> |r.value.0| == |r.value.1|
  {
    if NewHeader(columns) == None then None
    else
      var header, row := NewHeader(columns).value, NewRow(columns, values);
      if FindColumn(header, "id") >= 0 && row[FindColumn(header, "id")] == "" then None else Some((header, row))
  }

  /** A row of one empty value is not seen again; one that is too long for a line spoils the file, and so does a line
      break in a value or in a name. */
  ghost function Stored(header: seq<string>, rows: seq<seq<string>>, row: seq<string>): Sheet {
    if !Readable(row) || AnyBreak(header) then Spoiled
    else Filled(header, rows + if row == [""] then [] else [row])
  }

  ghost function PlainApply(sheet: Sheet, s: Statement): (r: Sheet)
    requires Plain(s) && Rectangle(sheet)
    ensures Rectangle(r)
  {
    match (s, sheet)
    case (Insert(_, columns, values), Filled(header, rows)) =>
      var row := StoredRow(header, rows, columns, values);
      if row == None then sheet else Stored(header, rows, row.value)
    case (Insert(_, columns, values), Spoiled) => Spoiled
    case (Insert(_, columns, values), _) =>
      var first := FirstRow(columns, values);
      if first == None then Empty else Stored(first.value.0, [], first.value.1)
    case (Delete(_, where), Filled(header, rows)) =>
      var left := RowsLeft(header, rows, where);
      if left == None then sheet
      else
        LeftRectangle(header, rows, where);
        Filled(header, Visible(left.value))
    case (Delete(_, where), Empty) => Filled([""], [])
    case _ => sheet
  }

  lemma {:induction false} LeftWithin(header: seq<string>, rows: seq<seq<string>>, where: Option<WhereClause>)
    requires forall k :: 0 <= k < |rows| ==> |rows[k]| == |header|
    ensures var left := RowsLeft(header, rows, where);
      left.Some? ==> forall row :: row in Visible(left.value) ==> row in rows
  {
    hide Matches, CompareValues, Supported, FindColumn;
    var left := RowsLeft(header, rows, where);
    if left.Some? {
      VisibleIn(left.value);
      if left.value != [] {
        var at := KeptPlaces(rows, FindColumn(header, where.value.column), where.value.op, where.value.value);
      }
    }
  }

  lemma {:induction false} LeftRectangle(header: seq<string>, rows: seq<seq<string>>, where: Option<WhereClause>)
    requires forall k :: 0 <= k < |rows| ==> |rows[k]| == |header|
    ensures var left := RowsLeft(header, rows, where);
      left.Some? ==> Rectangle(Filled(header, Visible(left.value)))
  {
    hide RowsLeft;
    LeftWithin(header, rows, where);
    var left := RowsLeft(header, rows, where);
    if left.Some? {
      assert forall k :: 0 <= k < |Visible(left.value)| ==> Visible(left.value)[k] in rows;
    }
  }

  lemma {:induction false} VisibleIn(rows: seq<seq<string>>)
    ensures forall row :: row in Visible(rows) ==> row in rows
  {
    if rows != [] {
      VisibleIn(rows[..|rows| - 1]);
    }
  }

  ghost function PlainRun(ss: seq<Statement>): (r: Sheet)
    requires forall i :: 0 <= i < |ss| ==> Plain(ss[i])
    ensures Rectangle(r)
  {
    if ss == [] then Absent else PlainApply(PlainRun(ss[..|ss| - 1]), ss[|ss| - 1])
  }

  // ---------- The file follows ----------

  /** Files as the storage layer leaves them: missing, empty or ending in a newline. */
  ghost predicate Proper(file: Option<string>) {
    file == None || file.value == "" || EndsInNewline(file.value)
  }

  lemma {:induction false} FirstInserts(columns: seq<string>, values: seq<string>)
    requires |columns| == |values| <= MAX_COLUMNS && NulFree(columns) && NulFree(values)
    ensures var after, first := AfterInsert("", columns, values), FirstRow(columns, values);
      && (after.Some? <==> first.Some?)
      && (first.Some? ==> EndsInNewline(after.value) && Reading(after) == Stored(first.value.0, [], first.value.1))
  {
    hide CsvRow, Load, EqualsIgnoreCase, FitsLine, FindColumn, NewRow, KeyFree, Header, AnyBreak, NulFree, ValidHeader;
    var names := NewHeader(columns);
    if names.Some? && |NewRow(columns, values)| == |names.value| {
      EmptyKeys(names.value, NewRow(columns, values));
    } else {
      EmptyKeys([], []);
    }
    if names.Some? {
      NewRowFits(columns, values);
    }
    if AfterInsert("", columns, values).Some? {
      var header, row := FirstInsert(columns, values);
      FirstLoads(header, row);
      assert [] + [row] == [row];
    }
  }

  lemma NewRowFits(columns: seq<string>, values: seq<string>)
    requires |columns| == |values| && NewHeader(columns).Some?
    ensures |NewRow(columns, values)| == |NewHeader(columns).value|
  {
  }

  /** An INSERT that succeeds appends one row to a file that is not empty. */
  lemma {:induction false} InsertAppends(file: string, columns: seq<string>, values: seq<string>)
    returns (row: seq<string>)
    requires file != "" && |columns| == |values| && AfterInsert(file, columns, values).Some?
    ensures AfterInsert(file, columns, values) == Some(file + CsvRow(row))
  {
    hide CsvRow, KeyFree, Fitting, Arranged, FindColumn, IdCells, AutoId;
    var header := Header(file).value;
    var auto := if Automatic(header, columns) then NextId(file, header).value else "";
    row := Arranged(header, columns, values, auto);
  }

  /** The id column as it is read from the file is that of the rows that load. */
  lemma {:induction false} IdsLoaded(file: string)
    requires Load(file).Some? && FindColumn(Load(file).value.columns, "id") >= 0
    ensures var t := Load(file).value;
      var id := FindColumn(t.columns, "id");
      && (forall k :: 0 <= k < |t.rows| ==> id < |t.rows[k]|)
      && IdCells(file, HeaderEnd(file), |t.columns|, id) == Some(Column(t.rows, id))
  {
    hide Load, IdCells, EqualsIgnoreCase;
    var t := Load(file).value;
    var id := FindColumn(t.columns, "id");
    IdCellsLoaded(file, id);
    assert IdCells(file, HeaderEnd(file), |t.columns|, id).value == Column(t.rows, id);
  }

  /** An INSERT into a file that loads stores the row that the plain model stores. */
  lemma {:induction false} InsertLoaded(file: string, columns: seq<string>, values: seq<string>)
    requires EndsInNewline(file) && Load(file).Some? && |columns| == |values|
    requires forall k :: 0 <= k < |Load(file).value.rows| ==> |Load(file).value.rows[k]| == |Load(file).value.columns|
    ensures var t := Load(file).value;
      AfterInsert(file, columns, values) ==
        match StoredRow(t.columns, t.rows, columns, values)
        case None => None
        case Some(row) => Some(file + CsvRow(row))
  {
    hide CsvRow, Load, Records, Fitting, Arranged, ReadLine, FindColumn, AutoId, IdCells, Decimal;
    var t := Load(file).value;
    LoadedHeader(file);
    if FindColumn(t.columns, "id") >= 0 {
      IdsLoaded(file);
    }
  }

  lemma {:induction false} InsertFollows(file: string, columns: seq<string>, values: seq<string>)
    requires EndsInNewline(file) && |columns| == |values| && NulFree(values)
    ensures var sheet, after := Reading(Some(file)), AfterInsert(file, columns, values);
      && (after.Some? ==> EndsInNewline(after.value))
      && Reading(if after.Some? then after else Some(file)) ==
        if sheet.Spoiled? then Spoiled
        else
          match StoredRow(sheet.header, sheet.rows, columns, values)
          case None => sheet
          case Some(row) => Stored(sheet.header, sheet.rows, row)
  {
    hide CsvRow, Load, AfterInsert, StoredRow, FitsLine, AllClean, NulFree, AnyBreak, Header, Written, ValidHeader;
    if Load(file).Some? {
      LoadRegular(file);
      var t := Load(file).value;
      LoadedHeader(file);
      InsertLoaded(file, columns, values);
      StoredNulFree(t.columns, t.rows, columns, values);
      HeaderRewrites(file);
      CleanExactly(t.columns);
      var row := StoredRow(t.columns, t.rows, columns, values);
      if row.Some? {
        NewlineAfter(file, row.value);
        LineAdded(file, row.value);
        OneWritten(|file|, row.value, |t.columns|);
      }
    } else if AfterInsert(file, columns, values).Some? {
      var row := InsertAppends(file, columns, values);
      NewlineAfter(file, row);
      StaysSpoiled(file, CsvRow(row));
    }
  }

  lemma {:induction false} NewlineAfter(file: string, row: seq<string>)
    ensures EndsInNewline(file + CsvRow(row))
  {
  }

  lemma {:induction false} StoredNulFree(header: seq<string>, rows: seq<seq<string>>, columns: seq<string>,
      values: seq<string>)
    requires |columns| == |values| && NulFree(values) && forall k :: 0 <= k < |rows| ==> |rows[k]| == |header|
    ensures var row := StoredRow(header, rows, columns, values); row.Some? ==> NulFree(row.value)
  {
    hide Fitting, FindColumn, Arranged, AutoId, NulFree, Decimal;
    if StoredRow(header, rows, columns, values).Some? {
      var auto := if Automatic(header, columns) then Decimal(AutoId(Column(rows, FindColumn(header, "id")))) else "";
      if auto != "" {
        IntegerClean(auto);
      }
      ArrangedNulFree(header, columns, values, auto);
    }
  }

  lemma {:induction false} DeleteFollows(file: string, where: Option<WhereClause>)
    requires EndsInNewline(file)
    ensures var sheet, after := Reading(Some(file)), AfterDelete(file, where);
      && (after.Some? ==> EndsInNewline(after.value.0))
      && Reading(if after.Some? then Some(after.value.0) else Some(file)) ==
        if sheet.Spoiled? then Spoiled
        else
          match RowsLeft(sheet.header, sheet.rows, where)
          case None => sheet
          case Some(left) => Filled(sheet.header, Visible(left))
  {
    hide Load, RowsLeft, CsvRow, CsvRows;
    if AfterDelete(file, where).Some? {
      DeleteKeeps(file, where);
      var t := Load(file).value;
      assert AfterDelete(file, where).value.0 == TableFile(t.columns, Survivors(file, where).value);
    }
    if Load(file).Some? {
      LoadRegular(file);
    }
  }

  /** One statement does to the file what it does to the plain table. */
  lemma {:induction false} ApplyFollows(file: Option<string>, s: Statement)
    requires Plain(s) && Proper(file)
    ensures Proper(Apply(file, s)) && Reading(Apply(file, s)) == PlainApply(Reading(file), s)
  {
    hide CsvRow, Load, AfterInsert, AfterDelete, StoredRow, FirstRow, RowsLeft, FitsLine, Stored, NulFree;
    var before := if file.Some? then file.value else "";
    match s
    case Insert(_, columns, values) =>
      if before == "" {
        FirstInserts(columns, values);
      } else {
        InsertFollows(before, columns, values);
      }
    case Delete(_, where) =>
      if before == "" {
        EmptyDelete(where);
        LoadWritten([""], []);
      } else {
        DeleteFollows(before, where);
      }
    case Select(_, _, _) =>
  }

  /** After every history of statements, what there is to read in the file is what the plain model holds. */
  lemma {:induction false} HistoryFollows(ss: seq<Statement>)
    requires forall i :: 0 <= i < |ss| ==> Plain(ss[i])
    ensures Proper(Play(ss)) && Reading(Play(ss)) == PlainRun(ss)
  {
    hide Plain, Apply, PlainApply, Reading, Proper;
    if ss == [] {
      NothingFollows();
    } else {
      HistoryFollows(ss[..|ss| - 1]);
      ApplyFollows(Play(ss[..|ss| - 1]), ss[|ss| - 1]);
    }
  }

  lemma NothingFollows()
    ensures Proper(None) && Reading(None) == Absent
  {
  }

  // ---------- Ids ----------

  ghost predicate DistinctIds(sheet: Sheet) {
    sheet.Filled? ==> Distinct(sheet.header, sheet.rows)
  }

  /** The statement is an INSERT that fills in an id which is taken, and its row can be read. */
  ghost predicate Repeats(sheet: Sheet, s: Statement)
    requires Plain(s) && Rectangle(sheet)
  {
    && s.Insert? && sheet.Filled? && Fitting(sheet.header, s.columns) && Automatic(sheet.header, s.columns)
    && var ids := Column(sheet.rows, FindColumn(sheet.header, "id"));
    && AllIntegers(ids) && Clash(ids)
    && Readable(Arranged(sheet.header, s.columns, s.values, Decimal(AutoId(ids)))) && !AnyBreak(sheet.header)
  }

  lemma {:induction false} DistinctMore(header: seq<string>, rows: seq<seq<string>>, row: seq<string>)
    requires Distinct(header, rows) && |row| == |header|
    requires FindColumn(header, "id") >= 0 ==> row[FindColumn(header, "id")] != ""
    ensures var id := FindColumn(header, "id");
      Distinct(header, rows + [row]) <==> id < 0 || row[id] !in Column(rows, id)
    ensures FindColumn(header, "id") >= 0 ==> row != [""]
  {
    hide FindColumn;
    var id := FindColumn(header, "id");
    var more := rows + [row];
    if id >= 0 {
      if row[id] in Column(rows, id) {
        var j :| 0 <= j < |rows| && Column(rows, id)[j] == row[id];
        assert more[j][id] == more[|rows|][id];
      } else {
        forall j, k | 0 <= j < k < |more| ensures more[j][id] != more[k][id] {
          assert Column(rows, id)[j] == more[j][id];
        }
      }
    }
  }

  lemma {:induction false} StoredDistinct(header: seq<string>, rows: seq<seq<string>>, s: Statement)
    requires s.Insert? && Plain(s) && Distinct(header, rows)
    ensures DistinctIds(PlainApply(Filled(header, rows), s)) <==> !Repeats(Filled(header, rows), s)
  {
    hide FindColumn, Readable, AnyBreak, Clash, Decimal, AutoId, Fitting, Arranged, Distinct, IsInteger, NulFree;
    var id := FindColumn(header, "id");
    DistinctRectangle(header, rows);
    assert Rectangle(Filled(header, rows));
    var stored := StoredRow(header, rows, s.columns, s.values);
    if stored.Some? {
      if Automatic(header, s.columns) {
        var ids := Column(rows, id);
        FilledIn(header, s.columns, s.values, Decimal(AutoId(ids)));
        IntegerClean(Decimal(AutoId(ids)));
        NextTaken(ids);
      }
      DistinctMore(header, rows, stored.value);
      assert rows + [] == rows;
    }
  }

  lemma {:induction false} FilledIn(header: seq<string>, columns: seq<string>, values: seq<string>, auto: string)
    requires Fitting(header, columns) && Automatic(header, columns) && |values| == |columns|
    ensures Arranged(header, columns, values, auto)[FindColumn(header, "id")] == auto
  {
    hide EqualsIgnoreCase;
  }

  lemma DistinctRectangle(header: seq<string>, rows: seq<seq<string>>)
    requires Distinct(header, rows)
    ensures Rectangle(Filled(header, rows))
  {
  }

  lemma {:induction false} LeftDistinct(header: seq<string>, rows: seq<seq<string>>, where: Option<WhereClause>)
    requires Distinct(header, rows) && Rectangle(Filled(header, rows)) && RowsLeft(header, rows, where).Some?
    ensures Distinct(header, Visible(RowsLeft(header, rows, where).value))
  {
    hide Distinct, FindColumn, Matches, CompareValues, Supported, Visible, Kept;
    var left := RowsLeft(header, rows, where).value;
    if left == [] {
      NoneDistinct(header);
    } else {
      KeptDistinct(header, rows, FindColumn(header, where.value.column), where.value.op, where.value.value);
    }
    VisibleDistinct(header, left);
  }

  lemma {:induction false} VisibleDistinct(header: seq<string>, rows: seq<seq<string>>)
    requires Distinct(header, rows)
    ensures Distinct(header, Visible(rows))
  {
    hide FindColumn, Visible;
    if FindColumn(header, "id") >= 0 {
      VisibleIds(header, rows);
    } else {
      VisibleIn(rows);
      assert forall k :: 0 <= k < |Visible(rows)| ==> Visible(rows)[k] in rows;
    }
  }

  lemma {:induction false} FirstDistinct(columns: seq<string>, values: seq<string>)
    requires |columns| == |values| && FirstRow(columns, values).Some?
    ensures var (header, row) := FirstRow(columns, values).value; Distinct(header, [row]) && Distinct(header, [])
  {
    hide FindColumn;
  }

  lemma NoneDistinct(header: seq<string>)
    ensures Distinct(header, [])
  {
  }

  /** One statement keeps the ids distinct if and only if it does not fill in one that is taken. */
  lemma {:induction false} ApplyDistinct(sheet: Sheet, s: Statement)
    requires Plain(s) && Rectangle(sheet) && DistinctIds(sheet)
    ensures DistinctIds(PlainApply(sheet, s)) <==> !Repeats(sheet, s)
  {
    hide StoredRow, FirstRow, RowsLeft, FindColumn, Readable, AnyBreak, NulFree, Visible, Distinct, Clash;
    match (s, sheet)
    case (Insert(_, columns, values), Filled(header, rows)) =>
      StoredDistinct(header, rows, s);
    case (Insert(_, columns, values), _) =>
      if FirstRow(columns, values).Some? {
        FirstDistinct(columns, values);
        assert [] + [FirstRow(columns, values).value.1] == [FirstRow(columns, values).value.1];
      }
    case (Delete(_, where), Filled(header, rows)) =>
      if RowsLeft(header, rows, where).Some? {
        LeftDistinct(header, rows, where);
      }
    case (Delete(_, where), _) =>
      NoneDistinct([""]);
    case _ =>
  }

  lemma {:induction false} RunDistinct(ss: seq<Statement>)
    requires forall i :: 0 <= i < |ss| ==> Plain(ss[i])
    requires forall n :: 0 <= n < |ss| ==> !Repeats(PlainRun(ss[..n]), ss[n])
    ensures DistinctIds(PlainRun(ss))
  {
    hide Plain, PlainApply, Repeats, DistinctIds;
    if ss == [] {
      NoneYet();
    } else {
      var before := ss[..|ss| - 1];
      forall n | 0 <= n < |before| ensures !Repeats(PlainRun(before[..n]), before[n]) {
        assert before[..n] == ss[..n];
      }
      RunDistinct(before);
      ApplyDistinct(PlainRun(before), ss[|ss| - 1]);
    }
  }

  lemma NoneYet()
    ensures DistinctIds(Absent)
  {
  }

  /** The ids in the file are pairwise distinct after each statement of a history if and only if no INSERT stored a
      readable row in a table in which the id it filled in was taken. */
  lemma {:induction false} HistoryIds(ss: seq<Statement>)
    requires forall i :: 0 <= i < |ss| ==> Plain(ss[i])
    ensures (forall n :: 0 <= n <= |ss| ==> DistinctIds(Reading(Play(ss[..n])))) <==>
      (forall n :: 0 <= n < |ss| ==> !Repeats(PlainRun(ss[..n]), ss[n]))
  {
    hide Plain, PlainApply, Repeats, DistinctIds, Play, Reading;
    forall n | 0 <= n <= |ss| ensures Reading(Play(ss[..n])) == PlainRun(ss[..n]) {
      HistoryFollows(ss[..n]);
    }
    if forall n :: 0 <= n < |ss| ==> !Repeats(PlainRun(ss[..n]), ss[n]) {
      forall n | 0 <= n <= |ss| ensures DistinctIds(PlainRun(ss[..n])) {
        forall i | 0 <= i < n ensures !Repeats(PlainRun(ss[..n][..i]), ss[..n][i]) {
          assert ss[..n][..i] == ss[..i];
        }
        RunDistinct(ss[..n]);
      }
    }
    if forall n :: 0 <= n <= |ss| ==> DistinctIds(Reading(Play(ss[..n]))) {
      forall n | 0 <= n < |ss| ensures !Repeats(PlainRun(ss[..n]), ss[n]) {
        assert ss[..n + 1][..n] == ss[..n];
        assert DistinctIds(Reading(Play(ss[..n]))) && DistinctIds(Reading(Play(ss[..n + 1])));
        ApplyDistinct(PlainRun(ss[..n]), ss[n]);
      }
    }
  }

  // ---------- Ids, from the statements alone ----------

  /** No id of the table that is an integer exceeds the bound. */
  ghost predicate IdsUpTo(sheet: Sheet, bound: int)
    requires Rectangle(sheet)
  {
    sheet.Filled? && FindColumn(sheet.header, "id") >= 0 ==>
      CellsUpTo(Column(sheet.rows, FindColumn(sheet.header, "id")), bound)
  }

  ghost predicate CellsUpTo(cells: seq<string>, bound: int) {
    forall k :: 0 <= k < |cells| && IsInteger(cells[k]) ==> ParseInteger(cells[k]) <= bound
  }

  /** The id that the statement names, if it names one and it is an integer, does not exceed the bound. */
  ghost predicate NamesUpTo(s: Statement, bound: int) {
    s.Insert? && 0 <= FindColumn(s.columns, "id") < |s.values| ==>
      CellsUpTo([s.values[FindColumn(s.columns, "id")]], bound)
  }

  /** An INSERT that leaves its id to be filled in counts as one. */
  ghost function Unnamed(s: Statement): (n: nat) {
    if s.Insert? && FindColumn(s.columns, "id") < 0 then 1 else 0
  }

  ghost function AllUnnamed(ss: seq<Statement>): nat {
    if ss == [] then 0 else AllUnnamed(ss[..|ss| - 1]) + Unnamed(ss[|ss| - 1])
  }

  lemma {:induction false} AutoIdUpTo(ids: seq<string>, bound: int)
    requires AllIntegers(ids) && CellsUpTo(ids, bound) && 0 <= bound < LLONG_MAX
    ensures 1 <= AutoId(ids) <= bound + 1
  {
    hide IsInteger, ParseInteger;
    if ids != [] {
      AutoIdUpTo(ids[..|ids| - 1], bound);
    }
  }

  lemma {:induction false} SameColumn(columns: seq<string>, a: string, b: string)
    requires EqualsIgnoreCase(a, b)
    ensures FindColumn(columns, a) == FindColumn(columns, b)
  {
    var i, j := FindColumn(columns, a), FindColumn(columns, b);
    forall name | EqualsIgnoreCase(name, a) ensures EqualsIgnoreCase(name, b) {
    }
    forall name | EqualsIgnoreCase(name, b) ensures EqualsIgnoreCase(name, a) {
    }
  }

  /** The id of a stored row is the one that the statement names, or the next one. */
  lemma {:induction false} StoredId(header: seq<string>, rows: seq<seq<string>>, columns: seq<string>,
      values: seq<string>)
    requires |columns| == |values| && forall k :: 0 <= k < |rows| ==> |rows[k]| == |header|
    requires StoredRow(header, rows, columns, values).Some? && FindColumn(header, "id") >= 0
    ensures var id := FindColumn(header, "id");
      StoredRow(header, rows, columns, values).value[id] ==
        if FindColumn(columns, "id") >= 0 then values[FindColumn(columns, "id")] else Decimal(AutoId(Column(rows, id)))
    ensures FindColumn(columns, "id") < 0 ==> AllIntegers(Column(rows, FindColumn(header, "id")))
  {
    hide EqualsIgnoreCase, IsInteger, Decimal, AutoId;
    var id := FindColumn(header, "id");
    SameColumn(columns, header[id], "id");
  }

  lemma {:induction false} StoredUpTo(header: seq<string>, rows: seq<seq<string>>, columns: seq<string>,
      values: seq<string>, bound: int)
    requires |columns| == |values| && forall k :: 0 <= k < |rows| ==> |rows[k]| == |header|
    requires StoredRow(header, rows, columns, values).Some?
    requires 0 <= bound <= LLONG_MAX - Unnamed(Insert("", columns, values))
    requires IdsUpTo(Filled(header, rows), bound) && NamesUpTo(Insert("", columns, values), bound)
    ensures IdsUpTo(Filled(header, rows + [StoredRow(header, rows, columns, values).value]),
      bound + Unnamed(Insert("", columns, values)))
  {
    hide IsInteger, ParseInteger, StoredRow, EqualsIgnoreCase, AutoId, Decimal, AllIntegers;
    var id := FindColumn(header, "id");
    if id >= 0 {
      var row := StoredRow(header, rows, columns, values).value;
      StoredId(header, rows, columns, values);
      if FindColumn(columns, "id") < 0 {
        AutoIdUpTo(Column(rows, id), bound);
      } else {
        assert [values[FindColumn(columns, "id")]][0] == row[id];
      }
      assert Column(rows + [row], id) == Column(rows, id) + [row[id]];
    }
  }

  lemma {:induction false} LeftUpTo(header: seq<string>, rows: seq<seq<string>>, where: Option<WhereClause>, bound: int)
    requires Rectangle(Filled(header, rows)) && IdsUpTo(Filled(header, rows), bound)
    requires RowsLeft(header, rows, where).Some?
    ensures Rectangle(Filled(header, Visible(RowsLeft(header, rows, where).value)))
    ensures IdsUpTo(Filled(header, Visible(RowsLeft(header, rows, where).value)), bound)
  {
    hide IsInteger, ParseInteger, RowsLeft, FindColumn, Visible;
    LeftRectangle(header, rows, where);
    LeftWithin(header, rows, where);
    var id := FindColumn(header, "id");
    var left := Visible(RowsLeft(header, rows, where).value);
    forall k | 0 <= k < |left| && id >= 0 && IsInteger(left[k][id]) ensures ParseInteger(left[k][id]) <= bound {
      assert left[k] in left;
      var j :| 0 <= j < |rows| && rows[j] == left[k];
      assert Column(rows, id)[j] == left[k][id];
    }
  }

  lemma {:induction false} FirstUpTo(columns: seq<string>, values: seq<string>, bound: nat)
    requires |columns| == |values| && FirstRow(columns, values).Some?
    requires NamesUpTo(Insert("", columns, values), bound)
    ensures var (header, row) := FirstRow(columns, values).value;
      IdsUpTo(Filled(header, [row]), bound + Unnamed(Insert("", columns, values)))
  {
    hide ParseInteger, EqualsIgnoreCase;
    var (header, row) := FirstRow(columns, values).value;
    var id := FindColumn(header, "id");
    if id >= 0 {
      assert Column([row], id) == [row[id]];
      if FindColumn(columns, "id") < 0 {
        FirstAutoId(columns, values);
      } else {
        assert [values[id]] == [row[id]];
      }
    }
  }

  lemma {:induction false} FirstAutoId(columns: seq<string>, values: seq<string>)
    requires FirstRow.requires(columns, values) && FirstRow(columns, values).Some? && FindColumn(columns, "id") < 0
    ensures var (header, row) := FirstRow(columns, values).value;
      FindColumn(header, "id") == 0 && row[0] == "1" && IsInteger("1") && ParseInteger("1") == 1
  {
    var (header, row) := FirstRow(columns, values).value;
    assert header[0] == "id" && EqualsIgnoreCase("id", "id");
    assert "1"[..0] == "" && Magnitude("1") == 1;
  }

  lemma {:induction false} ApplyUpTo(sheet: Sheet, s: Statement, bound: int)
    requires Plain(s) && Rectangle(sheet) && 0 <= bound <= LLONG_MAX - Unnamed(s)
    requires IdsUpTo(sheet, bound) && NamesUpTo(s, bound)
    ensures IdsUpTo(PlainApply(sheet, s), bound + Unnamed(s))
  {
    hide IsInteger, ParseInteger, StoredRow, FirstRow, RowsLeft, FindColumn, Readable, AnyBreak, NulFree, Visible;
    match (s, sheet)
    case (Insert(_, columns, values), Filled(header, rows)) =>
      if StoredRow(header, rows, columns, values).Some? {
        StoredUpTo(header, rows, columns, values, bound);
        assert rows + [] == rows;
      }
    case (Insert(_, columns, values), _) =>
      if FirstRow(columns, values).Some? {
        var row := FirstRow(columns, values).value.1;
        FirstUpTo(columns, values, bound);
        assert [] + [row] == [row];
      }
    case (Delete(_, where), Filled(header, rows)) =>
      if RowsLeft(header, rows, where).Some? {
        LeftUpTo(header, rows, where, bound);
      }
    case _ =>
  }

  lemma {:induction false} RunUpTo(ss: seq<Statement>, bound: int)
    requires (forall i :: 0 <= i < |ss| ==> Plain(ss[i]) && NamesUpTo(ss[i], bound)) && 0 <= bound
    requires bound + AllUnnamed(ss) <= LLONG_MAX
    ensures IdsUpTo(PlainRun(ss), bound + AllUnnamed(ss))
  {
    hide IdsUpTo, NamesUpTo, PlainApply, Plain, Unnamed;
    if ss == [] {
      NoneUpTo(bound);
    } else {
      var n := |ss| - 1;
      RunUpTo(ss[..n], bound);
      NamesMore(ss[n], bound, bound + AllUnnamed(ss[..n]));
      ApplyUpTo(PlainRun(ss[..n]), ss[n], bound + AllUnnamed(ss[..n]));
    }
  }

  lemma NoneUpTo(bound: int)
    ensures IdsUpTo(Absent, bound)
  {
  }

  lemma {:induction false} NamesMore(s: Statement, bound: int, more: int)
    requires NamesUpTo(s, bound) && bound <= more
    ensures NamesUpTo(s, more)
  {
    hide IsInteger, ParseInteger, FindColumn;
  }

  lemma {:induction false} UnnamedBefore(ss: seq<Statement>, n: nat)
    requires n < |ss|
    ensures AllUnnamed(ss[..n]) + Unnamed(ss[n]) <= AllUnnamed(ss)
  {
    hide Unnamed;
    if n < |ss| - 1 {
      UnnamedBefore(ss[..|ss| - 1], n);
      assert ss[..|ss| - 1][..n] == ss[..n];
    }
  }

  lemma {:induction false} NoneRepeated(sheet: Sheet, s: Statement, bound: int)
    requires Plain(s) && Rectangle(sheet) && IdsUpTo(sheet, bound) && bound + Unnamed(s) <= LLONG_MAX
    ensures !Repeats(sheet, s)
  {
    hide IsInteger, ParseInteger, FindColumn, Readable, AnyBreak, NulFree, Decimal, Arranged, Fitting;
  }

  /** Ids stay distinct over every history of statements in which each id that is named as an integer leaves as many
      numbers up to LLONG_MAX as there are INSERTs without an id. */
  lemma {:induction false} StatementIds(ss: seq<Statement>)
    requires forall i :: 0 <= i < |ss| ==> Plain(ss[i])
    requires forall i :: 0 <= i < |ss| ==> NamesUpTo(ss[i], LLONG_MAX - AllUnnamed(ss))
    requires AllUnnamed(ss) <= LLONG_MAX
    ensures forall n :: 0 <= n <= |ss| ==> DistinctIds(Reading(Play(ss[..n])))
  {
    hide Plain, NamesUpTo, Play, Repeats, DistinctIds, Reading, IdsUpTo, AllUnnamed, Unnamed, PlainRun;
    var bound := LLONG_MAX - AllUnnamed(ss);
    forall n | 0 <= n < |ss| ensures !Repeats(PlainRun(ss[..n]), ss[n]) {
      UnnamedBefore(ss, n);
      RunUpTo(ss[..n], bound);
      NoneRepeated(PlainRun(ss[..n]), ss[n], bound + AllUnnamed(ss[..n]));
    }
    HistoryIds(ss);
  }
}
