/** Statements against the active table. A SELECT on one id goes through the B+ tree, every other
    WHERE clause looks at all rows; both give what the plain model gives. */
module Executor {
  import opened Text
  import opened Options
  import opened Sql
  import opened TableModel
  import opened TableRuntime
  import BPTreeModel
  import BPTreeFill
  import BPTree

  lemma {:induction false} ProjectionNamed(columns: seq<string>, selected: seq<string>, indices: seq<nat>)
    requires selected != [] && |indices| == |selected|
    requires forall i :: 0 <= i < |selected| ==> FindColumn(columns, selected[i]) == indices[i]
    ensures Projection(columns, selected) == Some(indices)
  {
    hide EqualsIgnoreCase, FindColumn;
    assert Projection(columns, selected).Some?;
    assert Projection(columns, selected).value == indices;
  }

  /** The positions and the headers of the selected columns, unless one of them is unknown. */
  method PrepareProjection(table: Runtime, selected: seq<string>)
    returns (ok: bool, indices: seq<nat>, headers: seq<string>)
    requires table.Valid() && table.loaded
    ensures Projection(table.Model().columns, selected) == if ok then Some(indices) else None
    ensures ok ==> headers == Project(table.Model().columns, indices)
  {
    hide BPTree.LinkedTree.Valid, Runtime.IndexValid, Numbered, Projection, EqualsIgnoreCase, FindColumn;
    ghost var columns := table.Model().columns;
    indices, headers := [], [];
    var i := 0;
    if |selected| == 0 {
      while i < table.colCount
        invariant i == |headers| == |indices| && 0 <= i <= table.colCount
        invariant forall k :: 0 <= k < i ==> indices[k] == k
        invariant forall k :: 0 <= k < i ==> headers[k] == columns[k]
      {
        indices := indices + [i];
        var (copy, fits) := SafeCopy(MAX_IDENTIFIER_LEN, table.columns[i]);
        if !fits {
          assert false;
        }
        headers := headers + [copy];
        i := i + 1;
      }
      ProjectionAll(columns, indices);
      return true, indices, headers;
    }
    while i < |selected|
      invariant |indices| == |headers| == i <= |selected|
      invariant forall k :: 0 <= k < i ==> FindColumn(columns, selected[k]) == indices[k] < |columns|
      invariant forall k :: 0 <= k < i ==> headers[k] == columns[indices[k]]
    {
      var column := FindColumnIndex(table.columns[..table.colCount], selected[i]);
      if column < 0 {
        ProjectionUnknown(columns, selected, i);
        return false, [], [];
      }
      indices := indices + [column];
      var (copy, fits) := SafeCopy(MAX_IDENTIFIER_LEN, table.columns[column]);
      if !fits {
        assert false;
      }
      headers := headers + [copy];
      i := i + 1;
    }
    ProjectionNamed(columns, selected, indices);
    return true, indices, headers;
  }

  lemma {:induction false} ProjectionAll(columns: seq<string>, indices: seq<nat>)
    requires |indices| == |columns| && forall k :: 0 <= k < |indices| ==> indices[k] == k
    ensures Projection(columns, []) == Some(indices)
  {
    hide EqualsIgnoreCase, FindColumn;
    assert Projection(columns, []).value == indices;
  }

  lemma {:induction false} ProjectionUnknown(columns: seq<string>, selected: seq<string>, i: nat)
    requires i < |selected| && FindColumn(columns, selected[i]) < 0
    ensures Projection(columns, selected) == None
  {
    hide EqualsIgnoreCase, FindColumn;
  }

  /** The key to look up when the id index answers this WHERE clause. */
  method CanUseIdIndex(table: Runtime, where: WhereClause) returns (key: Option<int>)
    requires table.Valid()
    ensures key == if UsesIndex(table.Model(), where) then Some(ParseInteger(where.value)) else None
  {
    hide BPTree.LinkedTree.Valid, Numbered, BPTreeFill.Build, BPTreeModel.SortedEntries;
    if !table.loaded || table.idIndex.root == null {
      return None;
    }
    var isInteger := TestIsInteger(where.value);
    if where.op != "=" || !isInteger {
      return None;
    }
    var isId := TestEqualsIgnoreCase(table.columns[table.idColumnIndex], where.column);
    if !isId {
      return None;
    }
    var parsed := ParseInteger(where.value);
    if parsed < 0 || parsed > INT_MAX {
      return None;
    }
    return Some(parsed);
  }

  ghost predicate UsesIndex(t: Table, w: WhereClause) {
    && t.rows != [] && w.op == "=" && EqualsIgnoreCase("id", w.column)
    && IsInteger(w.value) && 0 <= ParseInteger(w.value) <= INT_MAX
  }

  /** Where the index may be used, the scan finds the row one below the key, or nothing. */
  lemma {:induction false} IndexIsScan(t: Table, w: WhereClause)
    requires Numbered(t) && UsesIndex(t, w) && t.loaded && |t.rows| <= INT_MAX
    ensures var key := ParseInteger(w.value);
      Pick(t, Some(w)) == Some(if 1 <= key <= |t.rows| then [key - 1] else [])
  {
    assert FindColumn(t.columns, w.column) == 0;
    ScanById(t.rows, 0, w.value);
  }

  /** The selected columns of the rows in these slots. */
  method CollectByIndices(table: Runtime, indices: seq<nat>, slots: seq<nat>) returns (ok: bool, result: seq<Row>)
    requires table.Valid() && table.loaded
    requires forall i :: 0 <= i < |indices| ==> indices[i] < table.colCount
    requires forall i :: 0 <= i < |slots| ==> slots[i] < table.rowCount
    ensures ok && result == ProjectAll(table.Model().rows, slots, indices)
  {
    hide BPTree.LinkedTree.Valid, Runtime.IndexValid;
    ghost var rows := table.Model().rows;
    result := [];
    var i := 0;
    while i < |slots|
      invariant 0 <= i <= |slots| && result == ProjectAll(rows, slots[..i], indices)
    {
      var source := table.GetRowBySlot(slots[i]);
      if source == None {
        assert false;
      }
      var row := CopyProjected(source.value, indices);
      result := result + [row];
      assert slots[..i + 1] == slots[..i] + [slots[i]];
      i := i + 1;
    }
    assert slots[..i] == slots;
    return true, result;
  }

  method CopyProjected(source: Row, indices: seq<nat>) returns (row: Row)
    requires forall i :: 0 <= i < |indices| ==> indices[i] < |source|
    ensures row == Project(source, indices)
  {
    row := [];
    var i := 0;
    while i < |indices|
      invariant 0 <= i <= |indices| && row == Project(source, indices[..i])
    {
      row := row + [source[indices[i]]];
      i := i + 1;
    }
    assert indices[..i] == indices;
  }

  method CollectAll(table: Runtime, indices: seq<nat>) returns (ok: bool, result: seq<Row>)
    requires table.Valid() && table.loaded
    requires forall i :: 0 <= i < |indices| ==> indices[i] < table.colCount
    ensures ok && result == ProjectAll(table.Model().rows, AllSlots(table.rowCount), indices)
  {
    hide BPTree.LinkedTree.Valid, Runtime.IndexValid;
    var picked := table.LinearScan(None);
    ok, result := CollectByIndices(table, indices, picked.value);
  }

  method CollectByScan(table: Runtime, where: WhereClause, indices: seq<nat>) returns (ok: bool, result: seq<Row>)
    requires table.Valid() && table.loaded
    requires forall i :: 0 <= i < |indices| ==> indices[i] < table.colCount
    ensures ok == Pick(table.Model(), Some(where)).Some?
    ensures ok ==> result == ProjectAll(table.Model().rows, Pick(table.Model(), Some(where)).value, indices)
  {
    hide BPTree.LinkedTree.Valid, Runtime.IndexValid;
    var picked := table.LinearScan(Some(where));
    if picked == None {
      return false, [];
    }
    ok, result := CollectByIndices(table, indices, picked.value);
  }

  /** One lookup in the tree finds the row with this id. */
  method CollectById(table: Runtime, key: int, indices: seq<nat>) returns (ok: bool, result: seq<Row>)
    requires table.Valid() && table.loaded && 0 <= key <= INT_MAX
    requires forall i :: 0 <= i < |indices| ==> indices[i] < table.colCount
    ensures ok
    ensures result == ProjectAll(table.Model().rows, if 1 <= key <= table.rowCount then [key - 1] else [], indices)
  {
    hide BPTree.LinkedTree.Valid, BPTreeFill.Build, BPTreeModel.SortedEntries;
    FindId(table.rowCount, key);
    var found, slot := table.idIndex.Search(key);
    if !found {
      return true, [];
    }
    ok, result := CollectByIndices(table, indices, [slot]);
  }

  method ExecuteInsert(table: Runtime, name: string, names: seq<string>, values: seq<string>) returns (out: Outcome)
    requires table.Valid() && table.rowCount < MAX_ROWS && Fits(Insert(name, names, values))
    modifies table.Repr()
    ensures table.Valid() && fresh(table.Repr() - old(table.Repr()))
    ensures (table.Model(), out) == Step(old(table.Model()), Insert(name, names, values))
  {
    hide BPTree.LinkedTree.Valid, Runtime.IndexValid, Numbered, TableModel.InsertRow;
    var ok := table.GetOrLoad(name);
    if !ok {
      return Failed;
    }
    var done, rowIndex := table.InsertRow(name, names, values);
    return if done then Inserted else Failed;
  }

  method ExecuteSelect(table: Runtime, name: string, columns: seq<string>, where: Option<WhereClause>)
    returns (out: Outcome)
    requires table.Valid() && Fits(Select(name, columns, where))
    modifies table, table.columns
    ensures table.Valid() && fresh(table.Repr() - old(table.Repr()))
    ensures (table.Model(), out) == Step(old(table.Model()), Select(name, columns, where))
  {
    hide BPTree.LinkedTree.Valid, Runtime.IndexValid, Numbered, Projection, Pick;
    var ok := table.GetOrLoad(name);
    if !ok {
      return Failed;
    }
    out := SelectFrom(table, columns, where);
  }

  method SelectFrom(table: Runtime, columns: seq<string>, where: Option<WhereClause>) returns (out: Outcome)
    requires table.Valid()
    ensures out == SelectRows(table.Model(), columns, where)
  {
    hide BPTree.LinkedTree.Valid, Runtime.IndexValid, Numbered, Projection, Scan, FindColumn;
    if !table.loaded {
      return Failed;
    }
    var ok, indices, headers := PrepareProjection(table, columns);
    if !ok {
      return Failed;
    }
    var rows: seq<Row>;
    if where == None {
      ok, rows := CollectAll(table, indices);
    } else {
      var key := CanUseIdIndex(table, where.value);
      if key.Some? {
        IndexIsScan(table.Model(), where.value);
        ok, rows := CollectById(table, key.value, indices);
      } else {
        ok, rows := CollectByScan(table, where.value, indices);
      }
    }
    if !ok {
      return Failed;
    }
    return Selected(headers, rows);
  }

  /** One statement: the table and the answer are those of the plain model. */
  method Execute(table: Runtime, s: Statement) returns (out: Outcome)
    requires table.Valid() && table.rowCount < MAX_ROWS && Fits(s)
    modifies table.Repr()
    ensures table.Valid() && fresh(table.Repr() - old(table.Repr()))
    ensures (table.Model(), out) == Step(old(table.Model()), s)
  {
    hide BPTree.LinkedTree.Valid, Runtime.IndexValid, Numbered, SelectRows, TableModel.InsertRow;
    match s
    case Insert(name, columns, values) => out := ExecuteInsert(table, name, columns, values);
    case Select(name, columns, where) => out := ExecuteSelect(table, name, columns, where);
    case Delete(_, _) => out := Failed;
  }

  lemma {:induction false} RunRows(ss: seq<Statement>)
    requires forall i :: 0 <= i < |ss| ==> Fits(ss[i])
    ensures |Run(ss).0.rows| <= |ss|
  {
    if ss != [] {
      RunRows(ss[..|ss| - 1]);
    }
  }

  /** Any run of statements, from the start: the answers are those of the plain model. */
  method ExecuteAll(ss: seq<Statement>) returns (table: Runtime, outs: seq<Outcome>)
    requires |ss| <= MAX_ROWS && forall i :: 0 <= i < |ss| ==> Fits(ss[i])
    ensures table.Valid() && (table.Model(), outs) == Run(ss)
  {
    hide BPTree.LinkedTree.Valid, Runtime.IndexValid, Numbered, Step;
    table := new Runtime();
    outs := [];
    var i := 0;
    while i < |ss|
      invariant 0 <= i <= |ss|
      invariant table.Valid() && fresh(table.Repr())
      invariant (table.Model(), outs) == Run(ss[..i])
    {
      RunRows(ss[..i]);
      var out := Execute(table, ss[i]);
      outs := outs + [out];
      assert ss[..i + 1][..i] == ss[..i];
      i := i + 1;
    }
    assert ss[..i] == ss;
  }
}
