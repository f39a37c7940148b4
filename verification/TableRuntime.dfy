/** The active table in memory: a growing array of rows, a counter for ids, and the B+ tree from id to slot. */
module TableRuntime {
  import opened Text
  import opened Options
  import opened Sql
  import opened TableModel
  import BPTreeModel
  import BPTreeOrder
  import BPTreeFill
  import BPTree

  const INITIAL_ROW_CAPACITY := 16

  // Doubling the capacity stays an `int` below this many rows.
  const MAX_ROWS := 0x4000_0000

  /** The pairs the id index holds for `n` rows: id k + 1 leads to slot k. */
  ghost function Ids(n: nat): (es: seq<BPTreeModel.Entry>)
    ensures |es| == n && forall k :: 0 <= k < n ==> es[k] == BPTreeModel.Entry(k + 1, k)
  {
    seq(n, k => BPTreeModel.Entry(k + 1, k))
  }

  lemma {:induction false} FindId(n: nat, key: int)
    ensures BPTreeModel.LinearFind(Ids(n), key) ==
      if 1 <= key <= n then Some(key - 1) else None
  {
    BPTreeOrder.LinearFindMeaning(Ids(n), key);
    if 1 <= key <= n {
      assert Ids(n)[key - 1].key == key;
    }
  }

  lemma {:induction false} NextId(n: nat)
    requires n < MAX_ROWS
    ensures BPTreeOrder.InsertSorted(Ids(n), BPTreeModel.Entry(n + 1, n)) == Ids(n + 1)
    ensures BPTreeModel.SortedEntries(Ids(n + 1), BPTreeModel.KEY_MIN, BPTreeModel.KEY_SUP)
  {
    BPTreeOrder.InsertSortedAt(Ids(n), [], BPTreeModel.Entry(n + 1, n));
    assert Ids(n) + [] == Ids(n);
    assert Ids(n + 1) == Ids(n) + [BPTreeModel.Entry(n + 1, n)];
  }

  class Runtime {
    var tableName: string
    var colCount: nat
    const columns: array<string>
    var rows: array<Row>
    var rowCount: nat
    var capacity: nat
    var idColumnIndex: nat
    var nextId: int
    var idIndex: BPTree.LinkedTree
    var loaded: bool

    ghost function Repr(): set<object>
      reads this, idIndex
    {
      {this, columns, rows, idIndex} + idIndex.frame
    }

    ghost predicate Valid()
      reads this, columns, rows, idIndex, idIndex.frame
    {
      && Apart() && IndexValid() && SchemaValid() && RowsValid()
      && nextId == rowCount + 1 && (!loaded ==> rowCount == 0) && |tableName| < MAX_IDENTIFIER_LEN
      && Numbered(Model())
    }

    /** The tree holds exactly id k + 1 for every slot k, and is the one ascending insertion builds. */
    ghost predicate IndexValid()
      reads this`idIndex, this`rowCount, idIndex, idIndex.frame
    {
      && idIndex.Valid()
      && idIndex.Contents() == Ids(rowCount)
      && (idIndex.root == null <==> rowCount == 0)
      && (rowCount > 0 ==> BPTreeModel.SortedEntries(Ids(rowCount), BPTreeModel.KEY_MIN, BPTreeModel.KEY_SUP)
                           && idIndex.Value() == Some(BPTreeFill.Build(Ids(rowCount))))
    }

    ghost predicate SchemaValid()
      reads this`loaded, this`colCount, this`idColumnIndex, columns
    {
      && columns.Length == MAX_COLUMNS && colCount <= MAX_COLUMNS && idColumnIndex == 0
      && (loaded ==> 2 <= colCount && columns[0] == "id"
                     && forall i :: 0 <= i < colCount ==> |columns[i]| < MAX_IDENTIFIER_LEN)
    }

    ghost predicate RowsValid()
      reads this`rows, this`rowCount, this`capacity
    {
      rows.Length == capacity <= INT_MAX && rowCount <= capacity
    }

    ghost predicate Apart()
      reads this, idIndex
    {
      && this !in idIndex.frame && columns !in idIndex.frame && rows !in idIndex.frame
      && columns as object != rows
    }

    /** The plain table that this state stands for. */
    ghost function Model(): Table
      reads this, columns, rows
      requires colCount <= columns.Length && rowCount <= rows.Length
    {
      Table(tableName, loaded, if loaded then columns[..colCount] else [], rows[..rowCount])
    }

    constructor ()
      ensures Valid() && fresh(Repr()) && Model() == START
    {
      tableName, colCount, rowCount, capacity, idColumnIndex, nextId, loaded := "", 0, 0, 0, 0, 1, false;
      columns := new string[MAX_COLUMNS](_ => "");
      rows := new Row[0];
      var index := new BPTree.LinkedTree();
      idIndex := index;
    }

    /** An empty table without a name. */
    method Init()
      requires columns.Length == MAX_COLUMNS
      modifies this, columns
      ensures Valid() && fresh(Repr() - {this, columns}) && Model() == START
    {
      hide BPTree.LinkedTree.Valid, BPTreeFill.Build, BPTreeModel.SortedEntries;
      var index := new BPTree.LinkedTree();
      idIndex := index;
      Clear();
    }

    method Clear()
      requires columns.Length == MAX_COLUMNS && columns !in idIndex.frame && this !in idIndex.frame
      modifies this, columns
      ensures SchemaValid() && RowsValid() && nextId == rowCount + 1 && rowCount == 0 && Model() == START
      ensures idIndex == old(idIndex) && fresh(rows) && |tableName| < MAX_IDENTIFIER_LEN && Numbered(START)
    {
      hide BPTree.LinkedTree.Valid, BPTreeFill.Build, BPTreeModel.SortedEntries;
      tableName, colCount, rowCount, capacity, idColumnIndex, nextId, loaded := "", 0, 0, 0, 0, 1, false;
      forall i | 0 <= i < columns.Length {
        columns[i] := "";
      }
      rows := new Row[0];
    }

    /** The active table if it has this name; otherwise its rows are dropped and the name is taken. */
    method GetOrLoad(name: string) returns (ok: bool)
      requires Valid()
      modifies this, columns
      ensures Valid() && fresh(Repr() - old(Repr()))
      ensures (Model(), ok) == Activate(old(Model()), name)
    {
      hide BPTree.LinkedTree.Valid, Runtime.IndexValid, Numbered, EqualsIgnoreCase;
      if tableName != "" {
        var equal := TestEqualsIgnoreCase(tableName, name);
        if equal {
          return true;
        }
      }
      Init();
      var (copy, fits) := SafeCopy(MAX_IDENTIFIER_LEN, name);
      NumberedRename(Model(), copy);
      tableName := copy;
      return fits;
    }

    /** Makes room for one more row. */
    method ReserveIfNeeded()
      requires Valid() && rowCount < MAX_ROWS
      modifies this`rows, this`capacity
      ensures Valid() && fresh(Repr() - old(Repr())) && rowCount < capacity <= INT_MAX
      ensures Model() == old(Model())
    {
      hide Runtime.IndexValid, Numbered;
      if rowCount < capacity {
        return;
      }
      var newCapacity := if capacity == 0 then INITIAL_ROW_CAPACITY else capacity * 2;
      var newRows := new Row[newCapacity];
      forall i | 0 <= i < rowCount {
        newRows[i] := rows[i];
      }
      assert newRows[..rowCount] == rows[..rowCount];
      rows, capacity := newRows, newCapacity;
      assert Model() == old(Model());
    }

    /** The schema that the first INSERT fixes: `id` and the named columns. */
    method InitializeSchema(names: seq<string>) returns (ok: bool)
      requires Valid() && !loaded
      modifies this`colCount, this`idColumnIndex, this`loaded, columns
      ensures Apart() && IndexValid() && SchemaValid() && RowsValid() && rowCount == 0
      ensures ok == loaded == AcceptsFirst(names)
      ensures ok ==> columns[..colCount] == ["id"] + names
    {
      hide Runtime.IndexValid, Numbered;
      if |names| == 0 || |names| + 1 > MAX_COLUMNS {
        return false;
      }
      colCount := |names| + 1;
      columns[0] := "id";
      var i := 0;
      while i < |names|
        invariant 0 <= i <= |names| && columns[0] == "id"
        invariant forall j :: 0 <= j < i ==> !EqualsIgnoreCase(names[j], "id") && |names[j]| < MAX_IDENTIFIER_LEN
        invariant forall j :: 0 <= j < i ==> columns[j + 1] == names[j]
        modifies columns
      {
        var isId := TestEqualsIgnoreCase(names[i], "id");
        if isId {
          return false;
        }
        var (copy, fits) := SafeCopy(MAX_IDENTIFIER_LEN, names[i]);
        columns[i + 1] := copy;
        if !fits {
          return false;
        }
        i := i + 1;
      }
      idColumnIndex := 0;
      loaded := true;
      assert columns[1..colCount] == names;
      assert columns[..colCount] == [columns[0]] + columns[1..colCount];
      return true;
    }

    method ValidateInsertSchema(names: seq<string>) returns (ok: bool)
      requires Valid() && loaded
      ensures ok == AcceptsNext(columns[..colCount], names)
    {
      hide Runtime.IndexValid, Numbered;
      if |names| == 0 || |names| != colCount - 1 {
        return false;
      }
      var i := 0;
      while i < |names|
        invariant 0 <= i <= |names|
        invariant forall j :: 0 <= j < i ==> EqualsIgnoreCase(columns[j + 1], names[j])
      {
        var equal := TestEqualsIgnoreCase(columns[i + 1], names[i]);
        if !equal {
          return false;
        }
        i := i + 1;
      }
      return true;
    }

    method BuildRow(values: seq<string>) returns (row: Row)
      requires loaded && |values| == colCount - 1
      ensures row == [Decimal(nextId)] + values
    {
      row := [Decimal(nextId)];
      var i := 0;
      while i < colCount - 1
        invariant 0 <= i <= colCount - 1
        invariant row == [Decimal(nextId)] + values[..i]
      {
        row := row + [values[i]];
        i := i + 1;
      }
    }

    /** Appends a row under the next id, and the id to the index. */
    method InsertRow(name: string, names: seq<string>, values: seq<string>) returns (ok: bool, rowIndex: nat)
      requires Valid() && rowCount < MAX_ROWS && |values| == |names|
      modifies Repr()
      ensures Valid() && fresh(Repr() - old(Repr()))
      ensures (Model(), ok) == InsertInto(old(Model()), name, names, values)
      ensures ok ==> rowIndex == old(rowCount)
    {
      hide Runtime.IndexValid, Numbered;
      if tableName == "" {
        var (copy, fits) := SafeCopy(MAX_IDENTIFIER_LEN, name);
        NumberedRename(Model(), copy);
        tableName := copy;
        if !fits {
          return false, 0;
        }
      }
      var same := TestEqualsIgnoreCase(tableName, name);
      if !same {
        return false, 0;
      }
      if !loaded {
        ok, rowIndex := InsertFirstRow(names, values);
      } else {
        ok, rowIndex := InsertNextRow(names, values);
      }
    }

    method InsertFirstRow(names: seq<string>, values: seq<string>) returns (ok: bool, rowIndex: nat)
      requires Valid() && !loaded && |values| == |names|
      modifies Repr()
      ensures Valid() && fresh(Repr() - old(Repr()))
      ensures (Model(), ok) == TableModel.InsertRow(old(Model()), names, values)
      ensures ok ==> rowIndex == old(rowCount)
    {
      hide Runtime.IndexValid, Numbered;
      rowIndex := 0;
      ok := InitializeSchema(names);
      assert rows[..rowCount] == [];
      FreshNumbered(Model());
      if !ok {
        return;
      }
      ok, rowIndex := AppendRow(values);
      assert Model().rows == [[Decimal(1)] + values];
    }

    method InsertNextRow(names: seq<string>, values: seq<string>) returns (ok: bool, rowIndex: nat)
      requires Valid() && loaded && rowCount < MAX_ROWS && |values| == |names|
      modifies Repr()
      ensures Valid() && fresh(Repr() - old(Repr()))
      ensures (Model(), ok) == TableModel.InsertRow(old(Model()), names, values)
      ensures ok ==> rowIndex == old(rowCount)
    {
      hide Runtime.IndexValid, Numbered;
      rowIndex := 0;
      ok := ValidateInsertSchema(names);
      if !ok {
        return;
      }
      ok, rowIndex := AppendRow(values);
    }

    method AppendRow(values: seq<string>) returns (ok: bool, rowIndex: nat)
      requires Valid() && loaded && rowCount < MAX_ROWS && |values| == colCount - 1
      modifies this`rows, this`capacity, this`rowCount, this`nextId, rows, idIndex, idIndex.frame
      ensures Valid() && fresh(Repr() - old(Repr())) && ok && rowIndex == old(rowCount)
      ensures Model() == old(Model()).(rows := old(Model()).rows + [[Decimal(old(rowCount) + 1)] + values])
    {
      hide Runtime.IndexValid, Numbered;
      ReserveIfNeeded();
      var row := BuildRow(values);
      if nextId > INT_MAX {
        assert false;
      }
      rowIndex := rowCount;
      ghost var before := Model();
      rows[rowIndex] := row;
      ok := IndexRow(rowIndex);
      assert Model() == before.(rows := before.rows + [row]);
      NumberedAppend(before, row);
    }

    /** Enters the new id into the tree, which cannot hold it yet, and counts the row. */
    method IndexRow(rowIndex: nat) returns (ok: bool)
      requires Apart() && IndexValid() && rowIndex == rowCount < MAX_ROWS && nextId == rowCount + 1
      modifies this`rowCount, this`nextId, idIndex, idIndex.frame
      ensures Apart() && IndexValid() && ok && rowCount == old(rowCount) + 1 && nextId == rowCount + 1
      ensures forall o :: o in idIndex.frame ==> o in old(idIndex.frame) || fresh(o)
    {
      hide BPTree.LinkedTree.Valid, BPTreeFill.Build, BPTreeModel.Insert, BPTreeModel.SortedEntries;
      hide BPTreeOrder.InsertSorted, BPTreeModel.LinearFind;
      FindId(rowCount, nextId);
      NextId(rowCount);
      ok := idIndex.Insert(nextId, rowIndex);
      rowCount := rowCount + 1;
      nextId := nextId + 1;
      BuildNext(rowCount);
    }

    /** The row in this slot, if there is one. */
    method GetRowBySlot(rowIndex: int) returns (row: Option<Row>)
      requires Valid()
      ensures row == if 0 <= rowIndex < rowCount then Some(Model().rows[rowIndex]) else None
    {
      if rowIndex < 0 || rowIndex >= rowCount {
        return None;
      }
      return Some(rows[rowIndex]);
    }

    /** The slots a WHERE clause selects, found by looking at every row. */
    method LinearScan(where: Option<WhereClause>) returns (picked: Option<seq<nat>>)
      requires Valid()
      ensures picked == Pick(Model(), where)
    {
      hide BPTree.LinkedTree.Valid, BPTreeFill.Build, Runtime.IndexValid, BPTreeModel.SortedEntries, CompareValues;
      hide Matches;
      if !loaded || rowCount == 0 {
        assert Model().rows == [] && AllSlots(0) == [];
        return Some([]);
      }
      var matches := new nat[rowCount];
      if where == None {
        for i := 0 to rowCount
          invariant matches[..i] == AllSlots(i)
        {
          matches[i] := i;
        }
        assert matches[..] == matches[..rowCount];
        return Some(matches[..]);
      }
      var w := where.value;
      var column := FindColumnIndex(columns[..colCount], w.column);
      if column < 0 {
        return None;
      }
      var count := ScanColumn(matches, column, w.op, w.value);
      return Some(matches[..count]);
    }

    method ScanColumn(matches: array<nat>, column: nat, op: string, value: string) returns (count: nat)
      requires Valid() && column < |Model().columns| && matches.Length == rowCount && matches as object != rows
      modifies matches
      ensures count <= rowCount && matches[..count] == Scan(Model().rows, 0, column, op, value)
    {
      hide BPTree.LinkedTree.Valid, Runtime.IndexValid, Numbered, CompareValues, Matches, Scan;
      ghost var table := Model();
      NumberedRegular(table);
      count := 0;
      var i := 0;
      while i < rowCount
        invariant 0 <= count <= i <= rowCount && table.rows == rows[..rowCount]
        invariant forall k :: 0 <= k < |table.rows| ==> column < |table.rows[k]|
        invariant matches[..count] + Scan(table.rows, i, column, op, value) == Scan(table.rows, 0, column, op, value)
      {
        ScanStep(table.rows, i, column, op, value, matches[..count]);
        var comparison := CompareValues(rows[i][column], value);
        if Matches(comparison, op) {
          ghost var before := matches[..count];
          matches[count] := i;
          count := count + 1;
          assert matches[..count] == before + [i];
        }
        i := i + 1;
      }
      ScanEnd(table.rows, column, op, value, matches[..count]);
    }
  }

  /** The tree for one more id is the tree before, with that id inserted. */
  lemma {:induction false} BuildNext(n: nat)
    requires n > 0 && BPTreeModel.SortedEntries(Ids(n), BPTreeModel.KEY_MIN, BPTreeModel.KEY_SUP)
    ensures BPTreeModel.SortedEntries(Ids(n - 1), BPTreeModel.KEY_MIN, BPTreeModel.KEY_SUP)
    ensures BPTreeFill.Build(Ids(n)) ==
      if n == 1 then BPTreeModel.Leaf([1], [0]) else BPTreeModel.Insert(BPTreeFill.Build(Ids(n - 1)), n, n - 1)
  {
    assert Ids(n)[..n - 1] == Ids(n - 1);
  }

  /** Ids arrive in ascending order, so the index of n rows has n / 16 leaves. */
  lemma {:induction false} IndexLeaves(r: Runtime)
    requires r.Valid() && r.rowCount > 0
    ensures r.idIndex.Value().Some?
    ensures |BPTreeModel.Leaves(r.idIndex.Value().value)| == if r.rowCount < 16 then 1 else r.rowCount / 16
  {
    hide BPTree.LinkedTree.Valid, BPTreeFill.Build, BPTreeFill.Packed, BPTreeFill.FilledRoot;
    hide BPTreeModel.SortedEntries, Numbered;
    hide BPTreeModel.Leaves;
    BPTreeFill.AscendingFill(Ids(r.rowCount));
  }
}
