/** Tables kept as CSV files. A file is its sequence of characters, and each operation on it is atomic. */
module Storage {
  import opened Text
  import opened Options
  import opened Sql
  import opened TableModel
  import opened Csv

  const MAX_CSV_LINE_LENGTH := 16384

  /** A table read from its file: the header, the data rows, and where in the file each row starts. */
  datatype TableData = TableData(columns: seq<string>, rows: seq<seq<string>>, offsets: seq<int>)

  // ---------- Lines ----------

  /** Where a line that starts here ends: behind its newline, at the end of the file, or where the buffer is full. */
  function LineEnd(file: string, pos: nat, room: nat): (end: nat)
    requires pos <= |file|
    ensures pos <= end <= |file| && end - pos <= room && (pos < |file| && room > 0 ==> pos < end)
    decreases room
  {
    if pos == |file| || room == 0 then pos
    else if file[pos] == '\n' then pos + 1
    else LineEnd(file, pos + 1, room - 1)
  }

  datatype Line = Line(text: string, next: nat, whole: bool)

  /** The next line, as `fgets` reads it; whole unless the buffer was too small for it. */
  function ReadLine(file: string, pos: nat): (line: Option<Line>)
    ensures line.Some? <==> pos < |file|
    ensures line.Some? ==> pos < line.value.next <= |file|
  {
    if pos >= |file| then None
    else
      var end := LineEnd(file, pos, MAX_CSV_LINE_LENGTH - 1);
      var text := CString(file[pos..end]);
      var atEof := end == |file| && end - pos < MAX_CSV_LINE_LENGTH - 1 && file[end - 1] != '\n';
      Some(Line(text, end, '\n' in text || atEof))
  }

  // ---------- Header ----------

  /** The column names in the first line: none in an empty file, an error if the line is malformed. */
  ghost function Header(file: string): (r: Option<seq<string>>)
    ensures file == "" ==> r == Some([])
    ensures file != "" && r.Some? ==> r.value != []
  {
    match ReadLine(file, 0)
    case None => Some([])
    case Some(line) =>
      if !line.whole || Fields(line.text) == None || !ValidHeader(Fields(line.text).value) then None
      else Fields(line.text)
  }

  ghost predicate ValidHeader(columns: seq<string>) {
    |columns| <= MAX_COLUMNS && forall i :: 0 <= i < |columns| ==> |columns[i]| < MAX_IDENTIFIER_LEN
  }

  function HeaderEnd(file: string): (end: nat)
    ensures end <= |file|
  {
    if file == "" then 0 else ReadLine(file, 0).value.next
  }

  method ReadHeader(file: string) returns (r: Option<seq<string>>)
    ensures r == Header(file)
  {
    var read := ReadLine(file, 0);
    if read == None {
      return Some([]);
    }
    var line := read.value;
    if !line.whole {
      return None;
    }
    var fields := ParseLine(line.text);
    if fields == None || |fields.value| > MAX_COLUMNS {
      return None;
    }
    var columns: seq<string> := [];
    var i := 0;
    while i < |fields.value|
      invariant 0 <= i <= |fields.value| && columns == fields.value[..i]
      invariant forall j :: 0 <= j < i ==> |fields.value[j]| < MAX_IDENTIFIER_LEN
    {
      var (copy, fits) := SafeCopy(MAX_IDENTIFIER_LEN, fields.value[i]);
      if !fits {
        return None;
      }
      columns := columns + [copy];
      i := i + 1;
    }
    assert fields.value[..i] == fields.value;
    return Some(columns);
  }

  // ---------- Data rows ----------

  datatype Record = Record(offset: nat, fields: seq<string>)

  ghost predicate Blank(text: string) {
    text != [] && EndsLine(text[0])
  }

  /** The data rows from a position on. Blank lines are passed over; a line that is too long, ends inside
      quotes or has another number of fields than the header makes the whole file unreadable. */
  ghost function Records(file: string, pos: nat, count: nat): Option<seq<Record>>
    requires pos <= |file|
    decreases |file| - pos
  {
    match ReadLine(file, pos)
    case None => Some([])
    case Some(line) =>
      if !line.whole then None
      else if Blank(line.text) then Records(file, line.next, count)
      else
        match Fields(line.text)
        case None => None
        case Some(fields) =>
          if |fields| != count then None else Join([Record(pos, fields)], Records(file, line.next, count))
  }

  ghost function Join(front: seq<Record>, rest: Option<seq<Record>>): (r: Option<seq<Record>>)
    ensures r.Some? <==> rest.Some?
    ensures r.Some? ==> r.value == front + rest.value
  {
    if rest.Some? then Some(front + rest.value) else None
  }

  ghost function FieldsOf(records: seq<Record>): (rows: seq<seq<string>>)
    ensures |rows| == |records|
    ensures forall k :: 0 <= k < |rows| ==> rows[k] == records[k].fields
  {
    seq(|records|, i requires 0 <= i < |records| => records[i].fields)
  }

  ghost function OffsetsOf(records: seq<Record>): (offsets: seq<int>)
    ensures |offsets| == |records|
    ensures forall k :: 0 <= k < |offsets| ==> offsets[k] == records[k].offset
  {
    seq(|records|, i requires 0 <= i < |records| => records[i].offset)
  }

  /** What one turn of a reading loop meets. */
  datatype Reading = AtEnd | Skipped(next: nat) | Unreadable | Row(fields: seq<string>, next: nat)

  ghost function Reads(file: string, pos: nat, count: nat): (r: Reading)
    ensures r.Skipped? || r.Row? ==> pos < r.next <= |file|
    ensures r.Row? ==> |r.fields| == count
  {
    match ReadLine(file, pos)
    case None => AtEnd
    case Some(line) =>
      if !line.whole then Unreadable
      else if Blank(line.text) then Skipped(line.next)
      else
        match Fields(line.text)
        case None => Unreadable
        case Some(fields) => if |fields| != count then Unreadable else Row(fields, line.next)
  }

  lemma {:induction false} RecordsRead(file: string, pos: nat, count: nat)
    requires pos <= |file|
    ensures Records(file, pos, count) ==
      match Reads(file, pos, count)
      case AtEnd => Some([])
      case Skipped(next) => Records(file, next, count)
      case Unreadable => None
      case Row(fields, next) => Join([Record(pos, fields)], Records(file, next, count))
  {
    hide Fields;
  }

  lemma {:induction false} JoinTwice(done: seq<Record>, record: Record, rest: Option<seq<Record>>)
    ensures Join(done, Join([record], rest)) == Join(done + [record], rest)
    ensures Join([], rest) == rest
  {
    if rest.Some? {
      assert done + ([record] + rest.value) == done + [record] + rest.value;
      assert [] + rest.value == rest.value;
    }
  }

  method ReadRecord(file: string, pos: nat, count: nat) returns (r: Reading)
    ensures r == Reads(file, pos, count)
  {
    var read := ReadLine(file, pos);
    if read == None {
      return AtEnd;
    }
    var line := read.value;
    if !line.whole {
      return Unreadable;
    }
    if |line.text| > 0 && EndsLine(line.text[0]) {
      return Skipped(line.next);
    }
    var fields := ParseLine(line.text);
    if fields == None || |fields.value| != count {
      return Unreadable;
    }
    return Row(fields.value, line.next);
  }

  ghost function Load(file: string): Option<TableData> {
    match Header(file)
    case None => None
    case Some(columns) =>
      match Records(file, HeaderEnd(file), |columns|)
      case None => None
      case Some(records) => Some(TableData(columns, FieldsOf(records), OffsetsOf(records)))
  }

  method LoadTable(file: string) returns (r: Option<TableData>)
    ensures r == Load(file)
  {
    hide Header, Reads, Records, ReadLine;
    var header := ReadHeader(file);
    if header == None {
      return None;
    }
    var columns := header.value;
    var rows: seq<seq<string>>, offsets: seq<int> := [], [];
    ghost var records: seq<Record> := [];
    var pos := HeaderEnd(file);
    JoinTwice([], Record(0, []), Records(file, pos, |columns|));
    while true
      invariant pos <= |file|
      invariant Join(records, Records(file, pos, |columns|)) == Records(file, HeaderEnd(file), |columns|)
      invariant rows == FieldsOf(records) && offsets == OffsetsOf(records)
      decreases |file| - pos
    {
      RecordsRead(file, pos, |columns|);
      var read := ReadRecord(file, pos, |columns|);
      match read
      case AtEnd =>
        assert records + [] == records;
        return Some(TableData(columns, rows, offsets));
      case Unreadable =>
        return None;
      case Skipped(next) =>
        pos := next;
      case Row(fields, next) =>
        JoinTwice(records, Record(pos, fields), Records(file, next, |columns|));
        records := records + [Record(pos, fields)];
        rows, offsets := rows + [fields], offsets + [pos];
        pos := next;
    }
  }

  /** The row that starts at this offset; with a count that is not negative it must have that many fields. */
  method ReadRowAtOffset(file: string, offset: int, count: int) returns (r: Option<seq<string>>)
    ensures r == RowAt(file, offset, count)
  {
    if offset < 0 {
      return None;
    }
    var read := ReadLine(file, offset);
    if read == None {
      return None;
    }
    var fields := ParseLine(read.value.text);
    if fields == None || (count >= 0 && |fields.value| != count) {
      return None;
    }
    return fields;
  }

  ghost function RowAt(file: string, offset: int, count: int): Option<seq<string>> {
    if offset < 0 || ReadLine(file, offset) == None then None
    else
      var fields := Fields(ReadLine(file, offset).value.text);
      if fields == None || (count >= 0 && |fields.value| != count) then None else fields
  }

  // ---------- Ids ----------

  /** `long long` arithmetic that runs over its end starts again at the other one. */
  function Wrap(n: int): int {
    if n > LLONG_MAX then n - 0x1_0000_0000_0000_0000 else n
  }

  /** One more than the largest id so far, starting from 1. */
  ghost function AutoId(ids: seq<string>): int
    requires forall i :: 0 <= i < |ids| ==> IsInteger(ids[i])
  {
    if ids == [] then 1
    else
      var next := AutoId(ids[..|ids| - 1]);
      var current := ParseInteger(ids[|ids| - 1]);
      if current >= next then Wrap(current + 1) else next
  }

  ghost function CellsOf(records: seq<Record>, column: nat): (cells: seq<string>)
    requires forall i :: 0 <= i < |records| ==> column < |records[i].fields|
    ensures |cells| == |records|
    ensures forall k :: 0 <= k < |cells| ==> cells[k] == records[k].fields[column]
  {
    seq(|records|, i requires 0 <= i < |records| => records[i].fields[column])
  }

  lemma {:induction false} RecordsRegular(file: string, pos: nat, count: nat)
    requires pos <= |file| && Records(file, pos, count).Some?
    ensures forall i :: 0 <= i < |Records(file, pos, count).value| ==>
      |Records(file, pos, count).value[i].fields| == count
    decreases |file| - pos
  {
    hide Records;
    RecordsRead(file, pos, count);
    match Reads(file, pos, count)
    case Skipped(next) => RecordsRegular(file, next, count);
    case Row(_, next) => RecordsRegular(file, next, count);
    case _ =>
  }

  /** The id cells of all data rows from a position on. */
  ghost function IdCells(file: string, pos: nat, count: nat, id: nat): Option<seq<string>>
    requires pos <= |file| && id < count
  {
    if Records(file, pos, count) == None then None
    else
      RecordsRegular(file, pos, count);
      Some(CellsOf(Records(file, pos, count).value, id))
  }

  ghost predicate AllIntegers(cells: seq<string>) {
    forall i :: 0 <= i < |cells| ==> IsInteger(cells[i])
  }

  ghost function NextId(file: string, columns: seq<string>): Option<string> {
    var id := FindColumn(columns, "id");
    if id < 0 then None
    else
      match IdCells(file, HeaderEnd(file), |columns|, id)
      case None => None
      case Some(cells) => if AllIntegers(cells) then Some(Decimal(AutoId(cells))) else None
  }

  lemma {:induction false} IdCellsRead(file: string, pos: nat, count: nat, id: nat, done: seq<string>)
    requires pos <= |file| && id < count
    ensures JoinCells(done, IdCells(file, pos, count, id)) ==
      match Reads(file, pos, count)
      case AtEnd => Some(done)
      case Skipped(next) => JoinCells(done, IdCells(file, next, count, id))
      case Unreadable => None
      case Row(fields, next) => JoinCells(done + [fields[id]], IdCells(file, next, count, id))
  {
    hide Records, Reads;
    RecordsRead(file, pos, count);
    match Reads(file, pos, count)
    case AtEnd =>
      assert done + [] == done;
    case Row(fields, next) =>
      if IdCells(file, next, count, id).Some? {
        var rest := IdCells(file, next, count, id).value;
        assert IdCells(file, pos, count, id).value == [fields[id]] + rest;
        assert done + ([fields[id]] + rest) == done + [fields[id]] + rest;
      }
    case _ =>
  }

  ghost function JoinCells(done: seq<string>, rest: Option<seq<string>>): Option<seq<string>> {
    if rest.Some? then Some(done + rest.value) else None
  }

  /** The next id of a table, from all the ids in its file. */
  method NextAutoId(file: string, columns: seq<string>) returns (next: Option<string>)
    ensures next == NextId(file, columns)
  {
    hide Records, Reads, ReadLine, IsInteger, ParseInteger, Decimal, IdCells;
    var id := FindColumnIndex(columns, "id");
    if id < 0 {
      return None;
    }
    var pos, nextId := HeaderEnd(file), 1;
    ghost var cells: seq<string> := [];
    ghost var all := IdCells(file, pos, |columns|, id);
    assert JoinCells([], all) == all by {
      if all.Some? {
        assert [] + all.value == all.value;
      }
    }
    while true
      invariant pos <= |file|
      invariant JoinCells(cells, IdCells(file, pos, |columns|, id)) == all
      invariant AllIntegers(cells) && nextId == AutoId(cells)
      decreases |file| - pos
    {
      IdCellsRead(file, pos, |columns|, id, cells);
      var read := ReadRecord(file, pos, |columns|);
      match read
      case AtEnd =>
        return Some(Decimal(nextId));
      case Unreadable =>
        return None;
      case Skipped(next) =>
        pos := next;
      case Row(fields, next) =>
        var isInteger := TestIsInteger(fields[id]);
        if !isInteger {
          assert all.Some? ==> all.value[|cells|] == fields[id];
          return None;
        }
        var current := ParseInteger(fields[id]);
        assert (cells + [fields[id]])[..|cells|] == cells;
        if current >= nextId {
          nextId := Wrap(current + 1);
        }
        cells := cells + [fields[id]];
        pos := next;
    }
  }

  /** A row may be stored if it has an id, and no other row has the same; without an id column any may. */
  ghost predicate KeyFree(file: string, pos: nat, columns: seq<string>, row: seq<string>)
    requires pos <= |file| && |row| == |columns|
  {
    var id := FindColumn(columns, "id");
    id < 0 ||
      (row[id] != "" && IdCells(file, pos, |columns|, id).Some? && row[id] !in IdCells(file, pos, |columns|, id).value)
  }

  method ValidatePrimaryKey(file: string, start: nat, columns: seq<string>, row: seq<string>) returns (ok: bool)
    requires start <= |file| && |row| == |columns|
    ensures ok == KeyFree(file, start, columns, row)
  {
    hide Records, Reads, ReadLine, IdCells;
    var id := FindColumnIndex(columns, "id");
    if id < 0 {
      return true;
    }
    if |row[id]| == 0 {
      return false;
    }
    var pos := start;
    ghost var cells: seq<string> := [];
    ghost var all := IdCells(file, pos, |columns|, id);
    assert JoinCells([], all) == all by {
      if all.Some? {
        assert [] + all.value == all.value;
      }
    }
    while true
      invariant pos <= |file|
      invariant JoinCells(cells, IdCells(file, pos, |columns|, id)) == all
      invariant row[id] !in cells
      decreases |file| - pos
    {
      IdCellsRead(file, pos, |columns|, id, cells);
      var read := ReadRecord(file, pos, |columns|);
      match read
      case AtEnd =>
        return true;
      case Unreadable =>
        return false;
      case Skipped(next) =>
        pos := next;
      case Row(fields, next) =>
        if fields[id] == row[id] {
          assert all.Some? ==> all.value[|cells|] == fields[id];
          return false;
        }
        cells := cells + [fields[id]];
        pos := next;
    }
  }

  // ---------- INSERT ----------

  /** The header of a new table: `id` comes first unless the statement names it. */
  ghost function NewHeader(columns: seq<string>): Option<seq<string>> {
    var header := if FindColumn(columns, "id") < 0 then ["id"] + columns else columns;
    if (FindColumn(columns, "id") < 0 && |header| > MAX_COLUMNS)
      || exists i :: 0 <= i < |columns| && |columns[i]| >= MAX_IDENTIFIER_LEN then None
    else Some(header)
  }

  ghost function NewRow(columns: seq<string>, values: seq<string>): seq<string> {
    if FindColumn(columns, "id") < 0 then ["1"] + values else values
  }

  ghost predicate Automatic(header: seq<string>, columns: seq<string>) {
    FindColumn(header, "id") >= 0 && FindColumn(columns, "id") < 0
  }

  /** The statement's columns are the table's, apart from an id that is filled in. */
  ghost predicate Fitting(header: seq<string>, columns: seq<string>) {
    && |header| == |columns| + (if Automatic(header, columns) then 1 else 0)
    && forall i :: 0 <= i < |header| ==>
      (Automatic(header, columns) && i == FindColumn(header, "id")) || FindColumn(columns, header[i]) >= 0
  }

  /** The values in the order of the table's columns. */
  ghost function Arranged(header: seq<string>, columns: seq<string>, values: seq<string>,
      auto: string): (row: seq<string>)
    requires Fitting(header, columns) && |values| == |columns|
    ensures |row| == |header|
  {
    seq(|header|, i requires 0 <= i < |header| =>
      if Automatic(header, columns) && i == FindColumn(header, "id") then auto
      else values[FindColumn(columns, header[i])])
  }

  /** The file after an INSERT; nothing if it fails. */
  ghost function AfterInsert(file: string, columns: seq<string>, values: seq<string>): Option<string>
    requires |values| == |columns|
  {
    match Header(file)
    case None => None
    case Some(header) =>
      if header == [] then
        match NewHeader(columns)
        case None => None
        case Some(names) =>
          var row := NewRow(columns, values);
          if |row| == |names| && KeyFree(file, HeaderEnd(file), names, row)
            then Some(file + CsvRow(names) + CsvRow(row)) else None
      else if !Fitting(header, columns) then None
      else if Automatic(header, columns) then
        match NextId(file, header)
        case None => None
        case Some(id) => Some(file + CsvRow(Arranged(header, columns, values, id)))
      else
        var row := Arranged(header, columns, values, "");
        if KeyFree(file, HeaderEnd(file), header, row) then Some(file + CsvRow(row)) else None
  }

  method CopyColumns(columns: seq<string>) returns (copies: Option<seq<string>>)
    ensures copies ==
      if exists i :: 0 <= i < |columns| && |columns[i]| >= MAX_IDENTIFIER_LEN then None else Some(columns)
  {
    var all: seq<string> := [];
    var i := 0;
    while i < |columns|
      invariant 0 <= i <= |columns| && all == columns[..i]
      invariant forall j :: 0 <= j < i ==> |columns[j]| < MAX_IDENTIFIER_LEN
    {
      var (copy, fits) := SafeCopy(MAX_IDENTIFIER_LEN, columns[i]);
      if !fits {
        return None;
      }
      all := all + [copy];
      i := i + 1;
    }
    assert columns[..i] == columns;
    return Some(all);
  }

  method Insert(file: string, columns: seq<string>, values: seq<string>) returns (out: Option<string>)
    requires |values| == |columns|
    ensures out == AfterInsert(file, columns, values)
  {
    hide KeyFree, Records, NextId, Fitting;
    var header := ReadHeader(file);
    if header == None {
      return None;
    }
    if |header.value| == 0 {
      out := InsertFirst(file, columns, values);
    } else {
      out := InsertNext(file, header.value, columns, values);
    }
  }

  method InsertFirst(file: string, columns: seq<string>, values: seq<string>) returns (out: Option<string>)
    requires |values| == |columns| && Header(file) == Some([])
    ensures out == AfterInsert(file, columns, values)
  {
    hide KeyFree, Records, NextId, Fitting, Header;
    var id := FindColumnIndex(columns, "id");
    if id < 0 && |columns| + 1 > MAX_COLUMNS {
      return None;
    }
    var copies := CopyColumns(columns);
    if copies == None {
      return None;
    }
    var header := if id < 0 then ["id"] + copies.value else copies.value;
    var row := if id < 0 then ["1"] + values else values;
    var ok := ValidatePrimaryKey(file, HeaderEnd(file), header, row);
    if !ok {
      return None;
    }
    var text := WriteRow(file, header);
    text := WriteRow(text, row);
    return Some(text);
  }

  method CheckColumns(header: seq<string>, columns: seq<string>) returns (ok: bool)
    ensures ok == Fitting(header, columns)
  {
    hide FindColumn, EqualsIgnoreCase;
    var existingId := FindColumnIndex(header, "id");
    var statementId := FindColumnIndex(columns, "id");
    if (existingId < 0 && |header| != |columns|)
      || (existingId >= 0 && statementId >= 0 && |header| != |columns|)
      || (existingId >= 0 && statementId < 0 && |header| != |columns| + 1) {
      return false;
    }
    var i := 0;
    while i < |header|
      invariant 0 <= i <= |header|
      invariant forall j :: 0 <= j < i ==>
        (Automatic(header, columns) && j == existingId) || FindColumn(columns, header[j]) >= 0
    {
      if !(i == existingId && statementId < 0) {
        var column := FindColumnIndex(columns, header[i]);
        if column < 0 {
          return false;
        }
      }
      i := i + 1;
    }
    return true;
  }

  method Arrange(header: seq<string>, columns: seq<string>, values: seq<string>, auto: string)
    returns (row: seq<string>)
    requires Fitting(header, columns) && |values| == |columns|
    ensures row == Arranged(header, columns, values, auto)
  {
    hide EqualsIgnoreCase, FindColumn;
    var existingId := FindColumnIndex(header, "id");
    var statementId := FindColumnIndex(columns, "id");
    row := [];
    var i := 0;
    while i < |header|
      invariant |row| == i <= |header|
      invariant forall j :: 0 <= j < i ==> row[j] == Arranged(header, columns, values, auto)[j]
    {
      if i == existingId && statementId < 0 {
        row := row + [auto];
      } else {
        var column := FindColumnIndex(columns, header[i]);
        row := row + [values[column]];
      }
      i := i + 1;
    }
  }

  method InsertNext(file: string, header: seq<string>, columns: seq<string>, values: seq<string>)
    returns (out: Option<string>)
    requires |values| == |columns| && Header(file) == Some(header) && header != []
    ensures out == AfterInsert(file, columns, values)
  {
    hide KeyFree, Records, NextId, Fitting, Header, Arranged;
    var fitting := CheckColumns(header, columns);
    if !fitting {
      return None;
    }
    var existingId := FindColumnIndex(header, "id");
    var statementId := FindColumnIndex(columns, "id");
    var automatic := existingId >= 0 && statementId < 0;
    var auto := "";
    if automatic {
      var next := NextAutoId(file, header);
      if next == None {
        return None;
      }
      auto := next.value;
    }
    var row := Arrange(header, columns, values, auto);
    if !automatic {
      var ok := ValidatePrimaryKey(file, HeaderEnd(file), header, row);
      if !ok {
        return None;
      }
    }
    var text := WriteRow(file, row);
    return Some(text);
  }

  // ---------- DELETE ----------

  ghost function CsvRows(rows: seq<seq<string>>): string {
    if rows == [] then "" else CsvRows(rows[..|rows| - 1]) + CsvRow(rows[|rows| - 1])
  }

  predicate Supported(op: string) {
    op == "=" || op == "!=" || op == ">" || op == "<" || op == ">=" || op == "<="
  }

  /** The rows that a condition on this column does not select, in order. */
  ghost function Kept(rows: seq<seq<string>>, column: nat, op: string, value: string): (kept: seq<seq<string>>)
    requires forall k :: 0 <= k < |rows| ==> column < |rows[k]|
    ensures |kept| <= |rows|
  {
    if rows == [] then []
    else
      var last := rows[|rows| - 1];
      var rest := Kept(rows[..|rows| - 1], column, op, value);
      if Matches(CompareValues(last[column], value), op) then rest else rest + [last]
  }

  /** The rows a DELETE leaves: none without a condition; an error if there are rows to look at, but the
      column or the operator is unknown. */
  ghost function RowsLeft(columns: seq<string>, rows: seq<seq<string>>,
      where: Option<WhereClause>): (r: Option<seq<seq<string>>>)
    requires forall k :: 0 <= k < |rows| ==> |rows[k]| == |columns|
    ensures r.Some? ==> |r.value| <= |rows|
  {
    match where
    case None => Some([])
    case Some(w) =>
      var column := FindColumn(columns, w.column);
      if rows == [] then Some([])
      else if column < 0 || !Supported(w.op) then None
      else Some(Kept(rows, column, w.op, w.value))
  }

  method Delete(file: string, where: Option<WhereClause>) returns (out: Option<string>, deleted: nat)
    ensures AfterDelete(file, where) == if out.Some? then Some((out.value, deleted)) else None
  {
    hide Load, CompareValues, Matches, FindColumn, CsvRows, CsvRow, RowsLeft;
    deleted := 0;
    var loaded := LoadTable(file);
    if loaded == None {
      return None, 0;
    }
    LoadRegular(file);
    var table := loaded.value;
    var text := WriteRow("", table.columns);
    assert "" + CsvRow(table.columns) == CsvRow(table.columns);
    ghost var header := text;
    ghost var kept: seq<seq<string>> := [];
    var i := 0;
    NoneLeft(table.columns, where);
    assert table.rows[..0] == [] && header + "" == header;
    while i < |table.rows|
      invariant 0 <= i <= |table.rows| && deleted + |kept| == i
      invariant RowsLeft(table.columns, table.rows[..i], where) == Some(kept)
      invariant text == header + CsvRows(kept)
    {
      LeftStep(table.columns, table.rows, i, where);
      var matches := where == None;
      if where.Some? {
        var column := FindColumnIndex(table.columns, where.value.column);
        if column < 0 || !Supported(where.value.op) {
          return None, deleted;
        }
        matches := Matches(CompareValues(table.rows[i][column], where.value.value), where.value.op);
      }
      if matches {
        deleted := deleted + 1;
      } else {
        OneMore(header, kept, table.rows[i]);
        text := WriteRow(text, table.rows[i]);
        kept := kept + [table.rows[i]];
      }
      i := i + 1;
    }
    assert table.rows[..i] == table.rows;
    return Some(text), deleted;
  }

  lemma NoneLeft(columns: seq<string>, where: Option<WhereClause>)
    ensures RowsLeft(columns, [], where) == Some([]) && CsvRows([]) == ""
  {
  }

  lemma {:induction false} LeftStep(columns: seq<string>, rows: seq<seq<string>>, i: nat, where: Option<WhereClause>)
    requires i < |rows| && forall k :: 0 <= k < |rows| ==> |rows[k]| == |columns|
    ensures where == None ==> RowsLeft(columns, rows[..i + 1], where) == RowsLeft(columns, rows[..i], where)
    ensures where.Some? ==>
      var column := FindColumn(columns, where.value.column);
      if column < 0 || !Supported(where.value.op) then RowsLeft(columns, rows, where) == None
      else
        RowsLeft(columns, rows[..i], where).Some? &&
        var kept := RowsLeft(columns, rows[..i], where).value;
        RowsLeft(columns, rows[..i + 1], where) ==
        Some(if Matches(CompareValues(rows[i][column], where.value.value), where.value.op)
          then kept else kept + [rows[i]])
  {
    hide Matches, CompareValues, FindColumn;
    assert rows[..i + 1][..i] == rows[..i];
    if where.Some? && i == 0 {
      assert rows[..0] == [];
    }
  }

  lemma {:induction false} OneMore(header: string, kept: seq<seq<string>>, row: seq<string>)
    ensures header + CsvRows(kept + [row]) == header + CsvRows(kept) + CsvRow(row)
  {
    hide CsvRow;
    assert (kept + [row])[..|kept|] == kept;
    assert header + (CsvRows(kept) + CsvRow(row)) == header + CsvRows(kept) + CsvRow(row);
  }

  lemma {:induction false} LoadRegular(file: string)
    requires Load(file).Some?
    ensures var t := Load(file).value;
      && |t.offsets| == |t.rows|
      && forall k :: 0 <= k < |t.rows| ==> |t.rows[k]| == |t.columns|
  {
    RecordsRegular(file, HeaderEnd(file), |Load(file).value.columns|);
  }

  /** The rows of a file that a DELETE leaves; nothing if it fails. */
  ghost function Survivors(file: string, where: Option<WhereClause>): (r: Option<seq<seq<string>>>)
    ensures r.Some? ==> Load(file).Some? && |r.value| <= |Load(file).value.rows|
  {
    if Load(file) == None then None
    else
      LoadRegular(file);
      RowsLeft(Load(file).value.columns, Load(file).value.rows, where)
  }

  /** The file after a DELETE, and the number of rows that are gone; nothing if it fails. */
  ghost function AfterDelete(file: string, where: Option<WhereClause>): Option<(string, nat)> {
    match Survivors(file, where)
    case None => None
    case Some(left) =>
      var t := Load(file).value;
      Some((CsvRow(t.columns) + CsvRows(left), |t.rows| - |left|))
  }
}
