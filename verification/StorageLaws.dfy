/** When INSERT and DELETE succeed on a table file, and which lines can be read, in the words of `Reference`. */
module StorageLaws {
  import opened Text
  import opened Options
  import opened Sql
  import opened TableModel
  import opened Csv
  import opened Storage
  import opened StorageFacts
  import opened StorageHistory
  import opened Reference
  import opened TextLaws

  // ---------- DELETE ----------

  /** A DELETE succeeds exactly on a file that loads, if it has no condition, or there is no row to look at, or the
      column is there and the operator is one of the six. */
  lemma {:induction false} DeleteExact(file: string, where: Option<WhereClause>)
    ensures AfterDelete(file, where).Some? <==>
      Load(file).Some? && (where == None || Load(file).value.rows == [] ||
        (Named(Load(file).value.columns, where.value.column) && Comparison(where.value.op)))
  {
    hide Load, Named, Kept, FindColumn;
    if Load(file).Some? && where.Some? {
      LoadRegular(file);
      FindExact(Load(file).value.columns, where.value.column);
    }
  }

  // ---------- INSERT ----------

  /** The table has ids, and the statement leaves its own to be filled in. */
  ghost predicate FillsId(header: seq<string>, columns: seq<string>) {
    Named(header, "id") && !Named(columns, "id")
  }

  /** The statement names each column of the table, but for an id that is filled in, and none besides. */
  ghost predicate SameColumns(header: seq<string>, columns: seq<string>) {
    && |header| == |columns| + (if FillsId(header, columns) then 1 else 0)
    && forall i :: 0 <= i < |header| ==>
      (FillsId(header, columns) && FirstNamed(header, "id", i)) || Named(columns, header[i])
  }

  /** What the ids of a table with such rows ask of a statement: all are integers if the next one is filled in, and
      otherwise the given one is not empty and new. */
  ghost predicate IdAccepted(header: seq<string>, rows: seq<seq<string>>, columns: seq<string>, values: seq<string>)
    requires |columns| == |values| && forall k :: 0 <= k < |rows| ==> |rows[k]| == |header|
  {
    if FillsId(header, columns) then
      forall c, k :: FirstNamed(header, "id", c) && 0 <= k < |rows| ==> IntegerText(rows[k][c])
    else
      forall c, j :: FirstNamed(header, "id", c) && FirstNamed(columns, header[c], j) ==>
        values[j] != "" && forall k :: 0 <= k < |rows| ==> rows[k][c] != values[j]
  }

  lemma {:induction false} FittingExact(header: seq<string>, columns: seq<string>)
    ensures Automatic(header, columns) <==> FillsId(header, columns)
    ensures Fitting(header, columns) <==> SameColumns(header, columns)
  {
    hide FindColumn, Named, FirstNamed;
    FindExact(header, "id");
    FindExact(columns, "id");
    FirstOnly(header, "id");
    forall i | 0 <= i < |header| ensures Named(columns, header[i]) <==> FindColumn(columns, header[i]) >= 0 {
      FindExact(columns, header[i]);
      FirstOnly(columns, header[i]);
    }
    FirstOnly(columns, "id");
  }

  lemma FirstOnly(columns: seq<string>, name: string)
    ensures forall i :: FirstNamed(columns, name, i) ==> 0 <= i < |columns| && Named(columns, name)
    ensures forall i, j :: FirstNamed(columns, name, i) && FirstNamed(columns, name, j) ==> i == j
  {
  }

  lemma {:induction false} IdExact(file: string, columns: seq<string>, values: seq<string>)
    requires file != "" && Load(file).Some? && |columns| == |values|
    requires Fitting(Load(file).value.columns, columns) && Named(Load(file).value.columns, "id")
    ensures forall k :: 0 <= k < |Load(file).value.rows| ==> |Load(file).value.rows[k]| == |Load(file).value.columns|
    ensures AfterInsert(file, columns, values).Some? <==>
      IdAccepted(Load(file).value.columns, Load(file).value.rows, columns, values)
  {
    hide Load, FindColumn, Named, FirstNamed, IsInteger, IntegerText, Records, IdCells, CsvRow, Header, Decimal, AutoId;
    var t := Load(file).value;
    LoadRegular(file);
    LoadedHeader(file);
    FittingExact(t.columns, columns);
    FindExact(t.columns, "id");
    FirstOnly(t.columns, "id");
    var c := FindColumn(t.columns, "id");
    IdCellsLoaded(file, c);
    var cells := IdCells(file, HeaderEnd(file), |t.columns|, c).value;
    if FillsId(t.columns, columns) {
      forall k | 0 <= k < |t.rows| ensures IsInteger(cells[k]) <==> IntegerText(t.rows[k][c]) {
        IntegersExact(t.rows[k][c]);
      }
    } else {
      FindExact(columns, t.columns[c]);
      FirstOnly(columns, t.columns[c]);
      assert forall k :: 0 <= k < |t.rows| ==> cells[k] == t.rows[k][c];
    }
  }

  ghost predicate LoadedAccepts(t: TableData, columns: seq<string>, values: seq<string>)
    requires |columns| == |values|
  {
    (forall k :: 0 <= k < |t.rows| ==> |t.rows[k]| == |t.columns|) && IdAccepted(t.columns, t.rows, columns, values)
  }

  /** An INSERT into a file that is not empty succeeds exactly if there is a header, its columns are those of the
      statement, and, where the table has ids, the file loads and the id is accepted. */
  lemma {:induction false} InsertExact(file: string, columns: seq<string>, values: seq<string>)
    requires file != "" && |columns| == |values|
    ensures AfterInsert(file, columns, values).Some? <==>
      && Header(file).Some?
      && SameColumns(Header(file).value, columns)
      && (Named(Header(file).value, "id") ==> Load(file).Some? && LoadedAccepts(Load(file).value, columns, values))
  {
    hide FindColumn, Named, FirstNamed, IsInteger, IntegerText, Records, CsvRow, Header, Decimal, AutoId, Fitting;
    hide SameColumns, IdAccepted, Arranged;
    if Header(file).Some? {
      var header := Header(file).value;
      FittingExact(header, columns);
      FindExact(header, "id");
      FirstOnly(header, "id");
      if Named(header, "id") && Load(file).Some? && Fitting(header, columns) {
        IdExact(file, columns, values);
      }
    }
  }

  /** A first INSERT succeeds exactly if its names are shorter than 64 characters and its id, if it names one, is not
      empty; if it names none there must be room for it among 32 columns. */
  lemma {:induction false} FirstInsertExact(columns: seq<string>, values: seq<string>)
    requires |columns| == |values|
    ensures AfterInsert("", columns, values).Some? <==>
      && (forall i :: 0 <= i < |columns| ==> |columns[i]| < 64)
      && if Named(columns, "id") then forall j :: FirstNamed(columns, "id", j) ==> values[j] != "" else |columns| < 32
  {
    hide FindColumn, Named, FirstNamed, CsvRow, KeyFree;
    FindExact(columns, "id");
    FirstOnly(columns, "id");
    var names, row := NewHeader(columns), NewRow(columns, values);
    if names.Some? {
      if !Named(columns, "id") {
        IdInFront(columns);
      }
      EmptyKeys(names.value, row);
    }
  }

  lemma {:induction false} IdInFront(columns: seq<string>)
    ensures FindColumn(["id"] + columns, "id") == 0
  {
    assert (["id"] + columns)[0] == "id" && EqualsIgnoreCase("id", "id");
  }
}
