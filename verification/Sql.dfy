/** Parsed statements, and the sizes of the buffers they are kept in. */
module Sql {
  import opened Options

  const MAX_TOKEN_VALUE := 256
  const MAX_IDENTIFIER_LEN := 64
  const MAX_COLUMNS := 32
  const MAX_VALUE_LEN := 256

  datatype WhereClause = WhereClause(column: string, op: string, value: string)

  datatype Statement =
    | Insert(table: string, columns: seq<string>, values: seq<string>)
    | Select(table: string, columns: seq<string>, where: Option<WhereClause>)   // no columns: all of them
    | Delete(table: string, where: Option<WhereClause>)

  /** What the statement's fixed buffers can hold at all. */
  ghost predicate Fits(s: Statement) {
    && |s.table| < MAX_IDENTIFIER_LEN
    && (s.Insert? ==> |s.values| == |s.columns|)
    && (!s.Delete? ==> |s.columns| <= MAX_COLUMNS)
  }
}
