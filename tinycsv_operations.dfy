/** `rust-modules/src/tinycsv_db/operations.rs`: adding a row at the end and
    removing the rows a predicate picks. Neither touches the schema. */
module TinycsvOperations {
  import opened Seqs
  import opened TinycsvTypes
  import opened TinycsvDatabase

  /** `insert`: the row goes after all the others. */
  method Insert(db: Database, row: Row)
    modifies db
    ensures db.rows == old(db.rows) + [row]
    ensures db.schema == old(db.schema)
  {
    db.rows := db.rows + [row];
  }

  /** The filter `retain` is given: the rows the predicate does not pick. */
  function Keep(picks: Row -> bool): Row -> bool {
    (row: Row) => !picks(row)
  }

  /** The rows `delete` leaves. */
  function Retained(rows: seq<Row>, picks: Row -> bool): (r: seq<Row>)
    ensures forall i :: 0 <= i < |r| ==> !picks(r[i])
    ensures forall i :: 0 <= i < |rows| && !picks(rows[i]) ==> rows[i] in r
  {
    Filter(rows, Keep(picks))
  }

  /** `delete`: `Vec::retain` with the negated predicate, which walks the
      rows in order and keeps each one the predicate does not pick. */
  method Delete(db: Database, picks: Row -> bool)
    modifies db
    ensures db.rows == Retained(old(db.rows), picks)
    ensures db.schema == old(db.schema)
  {
    var rows := db.rows;
    var kept: seq<Row> := [];
    for i := 0 to |rows|
      invariant kept == Filter(rows[..i], Keep(picks))
      invariant db.schema == old(db.schema)
    {
      FilterAppend(rows[..i], [rows[i]], Keep(picks));
      assert rows[..i + 1] == rows[..i] + [rows[i]];
      if !picks(rows[i]) {
        kept := kept + [rows[i]];
      }
    }
    assert rows[..|rows|] == rows;
    db.rows := kept;
  }

  /** The survivors keep their order: they are a subsequence of the rows. */
  lemma RetainedInOrder(rows: seq<Row>, picks: Row -> bool)
    ensures IsSubsequence(Retained(rows, picks), rows)
  {
    FilterIsSubsequence(rows, Keep(picks));
  }

  /** Deleting twice with the same predicate is deleting once. */
  lemma RetainedIdempotent(rows: seq<Row>, picks: Row -> bool)
    ensures Retained(Retained(rows, picks), picks) == Retained(rows, picks)
  {
    FilterIdempotent(rows, Keep(picks));
  }

  /** Every row is either deleted or kept: the survivors and the picked rows
      add up to the table. */
  lemma {:induction false} RetainedCount(rows: seq<Row>, picks: Row -> bool)
    ensures |Retained(rows, picks)| + |Filter(rows, picks)| == |rows|
  {
    if rows != [] {
      RetainedCount(rows[1..], picks);
    }
  }

  /** A deletion that picks nothing keeps the table as it was. */
  lemma RetainedNone(rows: seq<Row>, picks: Row -> bool)
    requires forall i :: 0 <= i < |rows| ==> !picks(rows[i])
    ensures Retained(rows, picks) == rows
  {
    FilterAll(rows, Keep(picks));
  }

  /** Deleting after an insert: the new row survives exactly when the
      predicate does not pick it, after the survivors of the old rows. */
  lemma DeleteAfterInsert(rows: seq<Row>, row: Row, picks: Row -> bool)
    ensures Retained(rows + [row], picks) == Retained(rows, picks) + (if picks(row) then [] else [row])
  {
    FilterAppend(rows, [row], Keep(picks));
  }
}
