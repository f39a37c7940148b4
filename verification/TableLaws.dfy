/** What each statement does to the runtime table and what it answers, in the words of `Reference`. */
module TableLaws {
  import opened Text
  import opened Options
  import opened Sql
  import opened TableModel
  import opened Reference
  import opened TextLaws

  /** The table that a statement under this name works on: the active one, or an empty one. */
  ghost predicate Active(t: Table, name: string) {
    t.name != "" && SameName(t.name, name)
  }

  ghost function Working(t: Table, name: string): Table {
    if Active(t, name) then t else Table(name, false, [], [])
  }

  lemma {:induction false} ActivateExact(t: Table, name: string)
    requires Regular(t) && |name| < 64
    ensures Activate(t, name) == (Working(t, name), true)
  {
    NamesExact(t.name, name);
  }

  // ---------- INSERT ----------

  /** The columns that a first INSERT may name: 1 to 31, none of them `id`, all of fewer than 64 characters. */
  ghost predicate FirstColumns(columns: seq<string>) {
    1 <= |columns| <= 31 && !Named(columns, "id") && forall i :: 0 <= i < |columns| ==> |columns[i]| < 64
  }

  /** The columns that a later one must name: those of the table behind the first one, in order, in any case. */
  ghost predicate LaterColumns(header: seq<string>, columns: seq<string>) {
    1 <= |columns| == |header| - 1 && forall i :: 0 <= i < |columns| ==> SameName(columns[i], header[i + 1])
  }

  lemma {:induction false} FirstExact(columns: seq<string>)
    ensures AcceptsFirst(columns) <==> FirstColumns(columns)
  {
    hide EqualsIgnoreCase, SameName;
    forall i | 0 <= i < |columns| ensures EqualsIgnoreCase(columns[i], "id") <==> SameName(columns[i], "id") {
      NamesExact(columns[i], "id");
    }
  }

  lemma {:induction false} LaterExact(header: seq<string>, columns: seq<string>)
    ensures AcceptsNext(header, columns) <==> LaterColumns(header, columns)
  {
    hide EqualsIgnoreCase, SameName;
    if |columns| == |header| - 1 {
      forall i | 0 <= i < |columns|
        ensures EqualsIgnoreCase(header[i + 1], columns[i]) <==> SameName(columns[i], header[i + 1])
      {
        NamesExact(header[i + 1], columns[i]);
        SameBackwards(columns[i], header[i + 1]);
      }
    }
  }

  lemma SameBackwards(a: string, b: string)
    ensures SameName(a, b) <==> SameName(b, a)
  {
  }

  lemma SameSelf(a: string)
    ensures SameName(a, a)
  {
  }

  /** An INSERT into a table with columns succeeds exactly if it names them all but the first, in order; one into an
      empty table exactly if its columns may be the first ones. The new row holds the next id and the values in
      order; a failed statement leaves the table it works on. */
  lemma {:induction false} InsertExact(t: Table, name: string, columns: seq<string>, values: seq<string>)
    requires Regular(t) && Fits(Insert(name, columns, values))
    ensures var work := Working(t, name);
      var row := [Decimal(|work.rows| + 1)] + values;
      Step(t, Insert(name, columns, values)) ==
        if work.loaded && LaterColumns(work.columns, columns) then
          (Table(work.name, true, work.columns, work.rows + [row]), Inserted)
        else if !work.loaded && FirstColumns(columns) then
          (Table(work.name, true, ["id"] + columns, [row]), Inserted)
        else (work, Failed)
  {
    hide EqualsIgnoreCase, SameName, AcceptsFirst, AcceptsNext, FirstColumns, LaterColumns, Decimal, Activate;
    var work := Working(t, name);
    ActivateExact(t, name);
    NamesExact(work.name, name);
    SameSelf(name);
    FirstExact(columns);
    LaterExact(work.columns, columns);
  }

  // ---------- SELECT ----------

  /** The answer shows the cells of these columns of these rows. */
  ghost predicate Shows(t: Table, columns: seq<nat>, slots: seq<nat>, headers: seq<string>, rows: seq<Row>) {
    && Regular(t)
    && |headers| == |columns| && |rows| == |slots|
    && (forall j :: 0 <= j < |columns| ==> columns[j] < |t.columns| && headers[j] == t.columns[columns[j]])
    && (forall i :: 0 <= i < |slots| ==> slots[i] < |t.rows| && |rows[i]| == |columns|)
    && (forall i, j :: 0 <= i < |slots| && 0 <= j < |columns| ==> rows[i][j] == t.rows[slots[i]][columns[j]])
  }

  /** These are the columns that the statement selects: the first of each name, or all in order. */
  ghost predicate SelectedColumns(t: Table, selected: seq<string>, columns: seq<nat>) {
    if selected == [] then |columns| == |t.columns| && forall j :: 0 <= j < |columns| ==> columns[j] == j
    else |columns| == |selected| && forall j :: 0 <= j < |columns| ==> FirstNamed(t.columns, selected[j], columns[j])
  }

  /** These are the slots of exactly the rows that satisfy the condition, ascending. */
  ghost predicate SelectedSlots(t: Table, where: Option<WhereClause>, slots: seq<nat>) {
    && Regular(t)
    && (forall i, j :: 0 <= i < j < |slots| ==> slots[i] < slots[j])
    && (forall i :: 0 <= i < |slots| ==> slots[i] < |t.rows|)
    && if where == None then forall k :: 0 <= k < |t.rows| ==> k in slots
       else forall k, c :: 0 <= k < |t.rows| && FirstNamed(t.columns, where.value.column, c) ==>
         (k in slots <==> Satisfies(t.rows[k][c], where.value.op, where.value.value))
  }

  /** A SELECT can be answered: there is a table, with all the columns it names; that of the condition matters only if
      there is a row. */
  ghost predicate Answerable(t: Table, selected: seq<string>, where: Option<WhereClause>) {
    && t.loaded
    && (forall j :: 0 <= j < |selected| ==> Named(t.columns, selected[j]))
    && (where == None || t.rows == [] || Named(t.columns, where.value.column))
  }

  lemma {:induction false} ProjectionExact(t: Table, selected: seq<string>)
    ensures Projection(t.columns, selected).Some? <==> forall j :: 0 <= j < |selected| ==> Named(t.columns, selected[j])
    ensures var r := Projection(t.columns, selected); r.Some? ==> SelectedColumns(t, selected, r.value)
  {
    hide FindColumn, Named, FirstNamed;
    forall j | 0 <= j < |selected|
      ensures var i := FindColumn(t.columns, selected[j]);
        if Named(t.columns, selected[j]) then FirstNamed(t.columns, selected[j], i) && i >= 0 else i == -1
    {
      FindExact(t.columns, selected[j]);
      PlaceNotNegative(t.columns, selected[j]);
    }
  }

  lemma PlaceNotNegative(columns: seq<string>, name: string)
    ensures forall i :: FirstNamed(columns, name, i) ==> 0 <= i < |columns|
    ensures forall i, j :: FirstNamed(columns, name, i) && FirstNamed(columns, name, j) ==> i == j
  {
  }

  lemma {:induction false} PickExact(t: Table, where: Option<WhereClause>)
    requires Regular(t)
    ensures Pick(t, where).Some? <==> where == None || t.rows == [] || Named(t.columns, where.value.column)
    ensures Pick(t, where).Some? ==> SelectedSlots(t, where, Pick(t, where).value)
  {
    hide FindColumn, Named, FirstNamed, Matches, CompareValues, Satisfies;
    if where == None {
      var slots := AllSlots(|t.rows|);
      forall k | 0 <= k < |t.rows| ensures k in slots {
        assert slots[k] == k;
      }
    } else if t.rows != [] {
      var w := where.value;
      var c := FindColumn(t.columns, w.column);
      FindExact(t.columns, w.column);
      PlaceNotNegative(t.columns, w.column);
      if c >= 0 {
        forall k | 0 <= k < |t.rows|
          ensures k in Scan(t.rows, 0, c, w.op, w.value) <==> Satisfies(t.rows[k][c], w.op, w.value)
        {
          MatchesExact(t.rows[k][c], w.op, w.value);
        }
      }
    }
  }

  /** A SELECT leaves the table it works on, and fails exactly if it cannot be answered. The answer has the first column
      of each name, and the rows that satisfy the condition, in order. */
  lemma {:induction false} SelectExact(t: Table, name: string, selected: seq<string>, where: Option<WhereClause>)
    returns (columns: seq<nat>, slots: seq<nat>)
    requires Regular(t) && Fits(Select(name, selected, where))
    ensures var (work, out) := Step(t, Select(name, selected, where));
      && work == Working(t, name)
      && (if Answerable(work, selected, where) then out.Selected? else out == Failed)
      && (out.Selected? ==>
        && SelectedColumns(work, selected, columns) && SelectedSlots(work, where, slots)
        && Shows(work, columns, slots, out.headers, out.rows))
  {
    hide Named, FirstNamed, Projection, Pick, SelectedSlots, SelectedColumns, Activate;
    var work := Working(t, name);
    ActivateExact(t, name);
    ProjectionExact(work, selected);
    PickExact(work, where);
    columns, slots := [], [];
    if Answerable(work, selected, where) {
      columns := Projection(work.columns, selected).value;
      slots := Pick(work, where).value;
    }
  }

  // ---------- DELETE ----------

  /** The runtime table has no DELETE. */
  lemma DeleteFails(t: Table, s: Statement)
    requires Regular(t) && Fits(s) && s.Delete?
    ensures Step(t, s) == (t, Failed)
  {
  }
}
