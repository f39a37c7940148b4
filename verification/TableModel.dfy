/** The plain meaning of a run of statements: one named table, its columns and a list of rows. Every
    SELECT is answered by looking at all rows. */
module TableModel {
  import opened Text
  import opened Options
  import opened Sql

  type Row = seq<string>

  datatype Table = Table(name: string, loaded: bool, columns: seq<string>, rows: seq<Row>)

  datatype Outcome = Inserted | Selected(headers: seq<string>, rows: seq<Row>) | Failed

  // ---------- Columns ----------

  /** The first column with this name, whatever its case; -1 if there is none. */
  ghost function FindColumn(columns: seq<string>, target: string): (i: int)
    ensures -1 <= i < |columns|
    ensures i >= 0 ==> EqualsIgnoreCase(columns[i], target)
    ensures forall j :: 0 <= j < (if i >= 0 then i else |columns|) ==> !EqualsIgnoreCase(columns[j], target)
  {
    if columns == [] then -1
    else if EqualsIgnoreCase(columns[0], target) then 0
    else
      var i := FindColumn(columns[1..], target);
      if i < 0 then -1 else i + 1
  }

  /** The search for a column, name by name. */
  method FindColumnIndex(columns: seq<string>, target: string) returns (index: int)
    ensures index == FindColumn(columns, target)
  {
    var i := 0;
    while i < |columns|
      invariant 0 <= i <= |columns|
      invariant forall j :: 0 <= j < i ==> !EqualsIgnoreCase(columns[j], target)
    {
      var equal := TestEqualsIgnoreCase(columns[i], target);
      if equal {
        return i;
      }
      i := i + 1;
    }
    return -1;
  }

  /** The positions of the selected columns, all of them if none is named; none at all if one is unknown. */
  ghost function Projection(columns: seq<string>, selected: seq<string>): (r: Option<seq<nat>>)
    ensures r.Some? ==> forall i :: 0 <= i < |r.value| ==> r.value[i] < |columns|
  {
    if selected == [] then Some(seq(|columns|, i => i))
    else if exists i :: 0 <= i < |selected| && FindColumn(columns, selected[i]) < 0 then None
    else Some(seq(|selected|, i requires 0 <= i < |selected| => FindColumn(columns, selected[i]) as nat))
  }

  ghost function Project(row: Row, indices: seq<nat>): Row
    requires forall i :: 0 <= i < |indices| ==> indices[i] < |row|
  {
    seq(|indices|, i requires 0 <= i < |indices| => row[indices[i]])
  }

  ghost function ProjectAll(rows: seq<Row>, picked: seq<nat>, indices: seq<nat>): (r: seq<Row>)
    requires forall i :: 0 <= i < |picked| ==> picked[i] < |rows|
    requires forall k, i :: 0 <= k < |rows| && 0 <= i < |indices| ==> indices[i] < |rows[k]|
  {
    seq(|picked|, i requires 0 <= i < |picked| => Project(rows[picked[i]], indices))
  }

  // ---------- Rows ----------

  function Matches(comparison: int, op: string): bool {
    if op == "=" then comparison == 0
    else if op == "!=" then comparison != 0
    else if op == ">" then comparison > 0
    else if op == ">=" then comparison >= 0
    else if op == "<" then comparison < 0
    else if op == "<=" then comparison <= 0
    else false
  }

  /** The slots of the rows, from `from` on, whose cell in this column satisfies the condition. */
  ghost function Scan(rows: seq<Row>, from: nat, column: nat, op: string, value: string): (r: seq<nat>)
    requires from <= |rows| && forall k :: 0 <= k < |rows| ==> column < |rows[k]|
    ensures forall i :: 0 <= i < |r| ==> from <= r[i] < |rows| && Matches(CompareValues(rows[r[i]][column], value), op)
    ensures forall k :: from <= k < |rows| && Matches(CompareValues(rows[k][column], value), op) ==> k in r
    ensures forall i, j :: 0 <= i < j < |r| ==> r[i] < r[j]
    decreases |rows| - from
  {
    if from == |rows| then []
    else
      var rest := Scan(rows, from + 1, column, op, value);
      if Matches(CompareValues(rows[from][column], value), op) then [from] + rest else rest
  }

  lemma {:induction false} ScanStep(rows: seq<Row>, i: nat, column: nat, op: string, value: string, done: seq<nat>)
    requires i < |rows| && forall k :: 0 <= k < |rows| ==> column < |rows[k]|
    ensures done + Scan(rows, i, column, op, value) ==
      (if Matches(CompareValues(rows[i][column], value), op) then done + [i] else done)
        + Scan(rows, i + 1, column, op, value)
  {
    hide Matches, CompareValues;
    var rest := Scan(rows, i + 1, column, op, value);
    assert done + ([i] + rest) == done + [i] + rest;
  }

  lemma {:induction false} ScanEnd(rows: seq<Row>, column: nat, op: string, value: string, done: seq<nat>)
    requires forall k :: 0 <= k < |rows| ==> column < |rows[k]|
    ensures done + Scan(rows, |rows|, column, op, value) == done
  {
  }

  ghost function AllSlots(n: nat): seq<nat> {
    seq(n, i => i)
  }

  /** The slots a WHERE clause selects; none for an unknown column, unless there is no row to look at. */
  ghost function Pick(t: Table, where: Option<WhereClause>): (r: Option<seq<nat>>)
    requires Regular(t)
    ensures r.Some? ==> forall i :: 0 <= i < |r.value| ==> r.value[i] < |t.rows|
  {
    match where
    case None => Some(AllSlots(|t.rows|))
    case Some(w) =>
      if t.rows == [] then Some([])
      else
        var c := FindColumn(t.columns, w.column);
        if c < 0 then None else Some(Scan(t.rows, 0, c, w.op, w.value))
  }

  lemma {:induction false} ScanById(rows: seq<Row>, from: nat, value: string)
    requires from <= |rows| <= INT_MAX && IsInteger(value)
    requires forall k :: 0 <= k < |rows| ==> |rows[k]| > 0 && rows[k][0] == Decimal(k + 1)
    ensures Scan(rows, from, 0, "=", value) ==
      if from < ParseInteger(value) <= |rows| then [ParseInteger(value) - 1] else []
    decreases |rows| - from
  {
    hide IsInteger, ParseInteger, Decimal, StrCmp;
    if from < |rows| {
      ScanById(rows, from + 1, value);
    }
  }

  // ---------- Statements ----------

  /** Every row has a cell for every column. */
  ghost predicate Regular(t: Table) {
    && (!t.loaded ==> t.columns == [] && t.rows == [])
    && forall k :: 0 <= k < |t.rows| ==> |t.rows[k]| == |t.columns|
  }

  /** The table a statement works on: the active one, or an empty one under the new name. */
  ghost function Activate(t: Table, name: string): (r: (Table, bool))
    requires Regular(t)
    ensures Regular(r.0)
  {
    if t.name != "" && EqualsIgnoreCase(t.name, name) then (t, true)
    else
      var (copy, ok) := SafeCopy(MAX_IDENTIFIER_LEN, name);
      (Table(copy, false, [], []), ok)
  }

  ghost predicate AcceptsFirst(columns: seq<string>) {
    && 0 < |columns| < MAX_COLUMNS
    && forall i :: 0 <= i < |columns| ==> !EqualsIgnoreCase(columns[i], "id") && |columns[i]| < MAX_IDENTIFIER_LEN
  }

  ghost predicate AcceptsNext(schema: seq<string>, columns: seq<string>) {
    && 0 < |columns| == |schema| - 1
    && forall i :: 0 <= i < |columns| ==> EqualsIgnoreCase(schema[i + 1], columns[i])
  }

  ghost function InsertRow(t: Table, columns: seq<string>, values: seq<string>): (r: (Table, bool))
    requires Regular(t) && |values| == |columns|
    ensures Regular(r.0)
  {
    var row := [Decimal(|t.rows| + 1)] + values;
    if !t.loaded then
      if AcceptsFirst(columns) then (Table(t.name, true, ["id"] + columns, [row]), true) else (t, false)
    else
      if AcceptsNext(t.columns, columns) then (t.(rows := t.rows + [row]), true) else (t, false)
  }

  /** INSERT into a table that takes the name if it has none, and refuses another name. */
  ghost function InsertInto(t: Table, name: string, columns: seq<string>, values: seq<string>): (r: (Table, bool))
    requires Regular(t) && |values| == |columns|
    ensures Regular(r.0)
  {
    var (copy, ok) := if t.name == "" then SafeCopy(MAX_IDENTIFIER_LEN, name) else (t.name, true);
    var named := t.(name := copy);
    if !ok || !EqualsIgnoreCase(copy, name) then (named, false) else InsertRow(named, columns, values)
  }

  ghost function SelectRows(t: Table, columns: seq<string>, where: Option<WhereClause>): Outcome
    requires Regular(t)
  {
    if !t.loaded then Failed
    else
      match (Projection(t.columns, columns), Pick(t, where))
      case (Some(indices), Some(picked)) =>
        Selected(Project(t.columns, indices), ProjectAll(t.rows, picked, indices))
      case _ => Failed
  }

  ghost function Step(t: Table, s: Statement): (r: (Table, Outcome))
    requires Regular(t) && Fits(s)
    ensures Regular(r.0)
  {
    match s
    case Insert(name, columns, values) =>
      var (active, ok) := Activate(t, name);
      if !ok then (active, Failed)
      else
        var (t', done) := InsertInto(active, name, columns, values);
        (t', if done then Inserted else Failed)
    case Select(name, columns, where) =>
      var (active, ok) := Activate(t, name);
      (active, if ok then SelectRows(active, columns, where) else Failed)
    case Delete(_, _) => (t, Failed)
  }

  // ---------- Runs ----------

  const START := Table("", false, [], [])

  ghost function Run(ss: seq<Statement>): (r: (Table, seq<Outcome>))
    requires forall i :: 0 <= i < |ss| ==> Fits(ss[i])
    ensures Regular(r.0) && |r.1| == |ss|
  {
    if ss == [] then (START, [])
    else
      var (t, outs) := Run(ss[..|ss| - 1]);
      var (t', out) := Step(t, ss[|ss| - 1]);
      (t', outs + [out])
  }

  /** Row k carries the decimal text of k + 1 as its id, in the first column. */
  ghost predicate Numbered(t: Table) {
    && Regular(t)
    && (t.loaded ==> |t.columns| > 0 && t.columns[0] == "id")
    && forall k :: 0 <= k < |t.rows| ==> |t.rows[k]| > 0 && t.rows[k][0] == Decimal(k + 1)
  }

  lemma NumberedRegular(t: Table)
    requires Numbered(t)
    ensures Regular(t)
  {
  }

  lemma {:induction false} NumberedAppend(t: Table, row: Row)
    requires Numbered(t) && t.loaded && |row| == |t.columns| && row[0] == Decimal(|t.rows| + 1)
    ensures Numbered(t.(rows := t.rows + [row]))
  {
    hide Decimal, IsInteger, ParseInteger;
  }

  lemma {:induction false} NumberedRename(t: Table, name: string)
    requires Numbered(t)
    ensures Numbered(t.(name := name))
  {
  }

  lemma {:induction false} FreshNumbered(t: Table)
    requires t.rows == [] && (if t.loaded then t.columns != [] && t.columns[0] == "id" else t.columns == [])
    ensures Numbered(t)
  {
  }

  lemma {:induction false} InsertNumbered(t: Table, columns: seq<string>, values: seq<string>)
    requires Numbered(t) && |values| == |columns|
    ensures Numbered(InsertRow(t, columns, values).0)
  {
    hide IsInteger, ParseInteger, EqualsIgnoreCase;
  }

  lemma {:induction false} InsertIntoNumbered(t: Table, name: string, columns: seq<string>, values: seq<string>)
    requires Numbered(t) && |values| == |columns|
    ensures Numbered(InsertInto(t, name, columns, values).0)
  {
    hide Numbered, InsertRow, EqualsIgnoreCase;
    NumberedRegular(t);
    var copy := if t.name == "" then SafeCopy(MAX_IDENTIFIER_LEN, name).0 else t.name;
    NumberedRename(t, copy);
    NumberedRegular(t.(name := copy));
    InsertNumbered(t.(name := copy), columns, values);
  }

  lemma {:induction false} ActivateNumbered(t: Table, name: string)
    requires Numbered(t)
    ensures Numbered(Activate(t, name).0)
  {
  }

  lemma {:induction false} StepNumbered(t: Table, s: Statement)
    requires Numbered(t) && Fits(s)
    ensures Numbered(Step(t, s).0)
  {
    hide Numbered, InsertInto, SelectRows, Activate;
    NumberedRegular(t);
    if !s.Delete? {
      ActivateNumbered(t, s.table);
    }
    if s.Insert? {
      InsertIntoNumbered(Activate(t, s.table).0, s.table, s.columns, s.values);
    }
  }

  /** In every state a run can reach the ids are 1, 2, 3 and so on. */
  lemma {:induction false} RunNumbered(ss: seq<Statement>)
    requires forall i :: 0 <= i < |ss| ==> Fits(ss[i])
    ensures Numbered(Run(ss).0)
  {
    if ss != [] {
      RunNumbered(ss[..|ss| - 1]);
      StepNumbered(Run(ss[..|ss| - 1]).0, ss[|ss| - 1]);
    }
  }

  /** A statement that fails leaves the table as it was if and only if it is a DELETE, names the active table, or
      finds an empty table under its own name. */
  lemma {:induction false} FailureKeeps(t: Table, s: Statement)
    requires Regular(t) && Fits(s) && Step(t, s).1 == Failed
    ensures Step(t, s).0 == t <==>
      s.Delete? || (t.name != "" && EqualsIgnoreCase(t.name, s.table)) || t == Table(s.table, false, [], [])
  {
    hide Projection, Pick, Decimal;
  }

  /** A statement that names another table drops all rows first: what it leaves depends on the statement alone. */
  lemma {:induction false} SwitchDrops(t: Table, s: Statement)
    requires Regular(t) && Fits(s) && !s.Delete? && !(t.name != "" && EqualsIgnoreCase(t.name, s.table))
    ensures Step(t, s) == Step(Table(s.table, false, [], []), s)
    ensures |Step(t, s).0.rows| <= 1 && Step(t, s).0.name == s.table
    ensures Step(t, s).1 != Inserted ==> Step(t, s).0 == Table(s.table, false, [], [])
  {
    hide Projection, Pick, Decimal;
  }
}
