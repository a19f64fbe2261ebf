/** `rust-modules/src/tinycsv_db/query.rs`: the rows whose value in a named
    column equals a value, or is a text holding a given substring. Both
    queries only read the table. */
module TinycsvQuery {
  import opened Wrappers
  import opened Seqs
  import opened TinycsvTypes
  import opened TinycsvDatabase

  /** Why a query panics: the column does not exist (`unwrap` of `None`),
      or some row has no value in it (indexing past the end of `values`). */
  datatype QueryError = UnknownColumn(name: string) | ShortRow

  /** `position(|(column, _)| column == column_name)`: the first column of
      that name. */
  function ColumnIndex(columns: seq<(string, DataType)>, name: string): (r: Option<nat>)
    ensures r.Some? ==> r.value < |columns| && columns[r.value].0 == name
    ensures r.Some? ==> forall k :: 0 <= k < r.value ==> columns[k].0 != name
    ensures r.None? ==> forall k :: 0 <= k < |columns| ==> columns[k].0 != name
  {
    if columns == [] then None
    else if columns[0].0 == name then Some(0)
    else
      match ColumnIndex(columns[1..], name)
      case None => None
      case Some(k) => Some(k + 1)
  }

  /** True when every row has a value in column `index`. */
  predicate Covers(rows: seq<Row>, index: nat) {
    forall i :: 0 <= i < |rows| ==> index < |rows[i].values|
  }

  /** The filter of `find_exact`: `&row.values[index] == value`, with the
      derived `PartialEq` of `Value`. */
  function EqualsAt(index: nat, value: Value): Row -> bool {
    (row: Row) => index < |row.values| && ValueEq(row.values[index], value)
  }

  /** `t` occurs in `s` starting at position `i`. */
  predicate OccursAt(s: string, t: string, i: nat) {
    i + |t| <= |s| && s[i..i + |t|] == t
  }

  /** `str::contains`: `t` occurs in `s` at some position. */
  predicate Contains(s: string, t: string) {
    exists i: nat | i <= |s| :: OccursAt(s, t, i)
  }

  /** The filter of `find_contains`: only a text value can match. */
  function ContainsAt(index: nat, text: string): Row -> bool {
    (row: Row) => index < |row.values| && row.values[index].Text? && Contains(row.values[index].s, text)
  }

  /** The number of rows a filter keeps. */
  function CountWhere(rows: seq<Row>, p: Row -> bool): (n: nat)
    ensures n <= |rows|
  {
    if rows == [] then 0 else (if p(rows[0]) then 1 else 0) + CountWhere(rows[1..], p)
  }

  /** A query finds as many rows as match, duplicates included. */
  lemma {:induction false} FilterCount(rows: seq<Row>, p: Row -> bool)
    ensures |Filter(rows, p)| == CountWhere(rows, p)
  {
    if rows != [] {
      FilterCount(rows[1..], p);
    }
  }

  /** `find_exact`: the rows, in table order, whose value in the column
      equals `value` under `Value`'s `==`, so a NaN cell is never found and
      `0.0` finds `-0.0`. */
  function FindExact(db: Database, column: string, value: Value): (r: Result<seq<Row>, QueryError>)
    reads db
    ensures ColumnIndex(db.schema.columns, column).None? ==> r == Failure(UnknownColumn(column))
    ensures r.Success? <==> ColumnIndex(db.schema.columns, column).Some? && Covers(db.rows, ColumnIndex(db.schema.columns, column).value)
    ensures r.Failure? && ColumnIndex(db.schema.columns, column).Some? ==> r.error == ShortRow
    ensures r.Success? ==> var index := ColumnIndex(db.schema.columns, column).value;
      IsSubsequence(r.value, db.rows) &&
      (forall i :: 0 <= i < |r.value| ==> index < |r.value[i].values| && ValueEq(r.value[i].values[index], value)) &&
      (forall i :: 0 <= i < |db.rows| && ValueEq(db.rows[i].values[index], value) ==> db.rows[i] in r.value) &&
      |r.value| == CountWhere(db.rows, EqualsAt(index, value))
  {
    match ColumnIndex(db.schema.columns, column)
    case None => Failure(UnknownColumn(column))
    case Some(index) =>
      if !Covers(db.rows, index) then Failure(ShortRow)
      else
        FilterIsSubsequence(db.rows, EqualsAt(index, value));
        FilterCount(db.rows, EqualsAt(index, value));
        Success(Filter(db.rows, EqualsAt(index, value)))
  }

  /** `find_contains`: the rows, in table order, whose value in the column is
      a text holding `text`; a value of any other type never matches. */
  function FindContains(db: Database, column: string, text: string): (r: Result<seq<Row>, QueryError>)
    reads db
    ensures ColumnIndex(db.schema.columns, column).None? ==> r == Failure(UnknownColumn(column))
    ensures r.Success? <==> ColumnIndex(db.schema.columns, column).Some? && Covers(db.rows, ColumnIndex(db.schema.columns, column).value)
    ensures r.Failure? && ColumnIndex(db.schema.columns, column).Some? ==> r.error == ShortRow
    ensures r.Success? ==> var index := ColumnIndex(db.schema.columns, column).value;
      IsSubsequence(r.value, db.rows) &&
      (forall i :: 0 <= i < |r.value| ==> index < |r.value[i].values| && r.value[i].values[index].Text? && Contains(r.value[i].values[index].s, text)) &&
      (forall i :: 0 <= i < |db.rows| && db.rows[i].values[index].Text? && Contains(db.rows[i].values[index].s, text) ==> db.rows[i] in r.value) &&
      |r.value| == CountWhere(db.rows, ContainsAt(index, text))
  {
    match ColumnIndex(db.schema.columns, column)
    case None => Failure(UnknownColumn(column))
    case Some(index) =>
      if !Covers(db.rows, index) then Failure(ShortRow)
      else
        FilterIsSubsequence(db.rows, ContainsAt(index, text));
        FilterCount(db.rows, ContainsAt(index, text));
        Success(Filter(db.rows, ContainsAt(index, text)))
  }

  /** The exact query for a text value finds a subset of the substring query
      for the same text. */
  lemma {:induction false} ExactWithinContains(rows: seq<Row>, index: nat, s: string)
    ensures IsSubsequence(Filter(rows, EqualsAt(index, Text(s))), Filter(rows, ContainsAt(index, s)))
  {
    if rows != [] {
      ExactWithinContains(rows[1..], index, s);
      var row := rows[0];
      if EqualsAt(index, Text(s))(row) {
        assert OccursAt(row.values[index].s, s, 0);
        assert ContainsAt(index, s)(row);
      } else if ContainsAt(index, s)(row) {
        SubsequenceCons(Filter(rows[1..], EqualsAt(index, Text(s))), Filter(rows[1..], ContainsAt(index, s)), row);
      }
    }
  }

  /** A subsequence stays one when an element is put in front of the larger
      sequence. */
  lemma SubsequenceCons(r: seq<Row>, s: seq<Row>, x: Row)
    requires IsSubsequence(r, s)
    ensures IsSubsequence(r, [x] + s)
  {
    assert ([x] + s)[1..] == s;
  }
}
