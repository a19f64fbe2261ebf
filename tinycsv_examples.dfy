/** The session of `rust-modules/src/main.rs`: one row inserted, queried,
    written as CSV, read back and deleted. `f64` formatting and parsing are
    parameters, so the example takes the one float of the row with the two
    facts about it that the session relies on. */
module TinycsvExamples {
  import opened Wrappers
  import opened Seqs
  import opened Chars
  import opened Decimal
  import opened Text
  import opened TinycsvTypes
  import opened TinycsvDatabase
  import opened TinycsvCsv
  import opened TinycsvQuery
  import opened TinycsvOperations

  const Columns: seq<(string, DataType)> := [("id", IntegerType), ("name", TextType), ("score", FloatType), ("active", BooleanType)]

  function AliceValues(score: F64): seq<Value> {
    [Integer(1), Text("Alice"), Float(score), Boolean(true)]
  }

  const Csv := "id,name,score,active\n1,Alice,95.5,true\n"

  lemma JoinTwo(a: string, b: string, sep: char)
    ensures Join([a, b], sep) == a + [sep] + b
  {
    assert [a, b][..1] == [a];
  }

  lemma JoinThree(a: string, b: string, c: string, sep: char)
    ensures Join([a, b, c], sep) == a + [sep] + b + [sep] + c
  {
    assert [a, b, c][..2] == [a, b];
    JoinTwo(a, b, sep);
  }

  lemma JoinFour(a: string, b: string, c: string, d: string, sep: char)
    ensures Join([a, b, c, d], sep) == a + [sep] + b + [sep] + c + [sep] + d
  {
    assert [a, b, c, d][..3] == [a, b, c];
    JoinThree(a, b, c, sep);
  }

  lemma HeaderLineOfColumns()
    ensures Join(Names(Columns), ',') == "id,name,score,active"
  {
    var ns := Names(Columns);
    assert ns[0] == "id" && ns[1] == "name" && ns[2] == "score" && ns[3] == "active";
    assert ns == ["id", "name", "score", "active"];
    JoinFour("id", "name", "score", "active", ',');
  }

  lemma AliceLine(fmt: FloatFormatter, score: F64)
    requires fmt(score) == "95.5"
    ensures Join(Texts(AliceValues(score), fmt), ',') == "1,Alice,95.5,true"
  {
    assert IntToString(1) == "1";
    var ts := Texts(AliceValues(score), fmt);
    assert ts[0] == "1" && ts[1] == "Alice" && ts[2] == "95.5" && ts[3] == "true";
    assert ts == ["1", "Alice", "95.5", "true"];
    JoinFour("1", "Alice", "95.5", "true", ',');
  }

  lemma TwoLines(a: string, b: string)
    ensures Terminated([a, b]) == a + "\n" + b + "\n"
  {
    JoinTwo(a, b, '\n');
  }

  /** The example table is written as the text `main` expects. */
  lemma CsvOfAlice(fmt: FloatFormatter, score: F64)
    requires fmt(score) == "95.5"
    ensures CsvText(Schema(Columns), [Row(AliceValues(score))], fmt) == Csv
  {
    var rows := [Row(AliceValues(score))];
    CsvTextLines(Schema(Columns), rows, fmt);
    assert RowLines(rows, fmt) == [RowLine(rows[0], fmt)];
    HeaderLineOfColumns();
    AliceLine(fmt, score);
    assert CsvLines(Schema(Columns), rows, fmt) == ["id,name,score,active", "1,Alice,95.5,true"];
    TwoLines("id,name,score,active", "1,Alice,95.5,true");
    CsvLiteral();
  }

  lemma CsvLiteral()
    ensures "id,name,score,active" + "\n" + "1,Alice,95.5,true" + "\n" == Csv
  {
  }

  lemma ColumnsKnown()
    ensures KnownSchema(Schema(Columns))
  {
  }

  lemma OneReadsBack(fmt: FloatFormatter, parseFloat: FloatParser)
    ensures ReadsBack(Integer(1), fmt, parseFloat)
  {
    assert IntToString(1) == "1";
    DetectInteger(1, parseFloat);
    ReadsBackOf(Integer(1), fmt, parseFloat, "1");
  }

  lemma AliceTextReadsBack(fmt: FloatFormatter, parseFloat: FloatParser)
    requires parseFloat("Alice") == None
    ensures ReadsBack(Text("Alice"), fmt, parseFloat)
  {
    assert ParseI64("Alice") == None by {
      assert !IsAsciiDigit("Alice"[0]);
    }
    ReadsBackOf(Text("Alice"), fmt, parseFloat, "Alice");
  }

  lemma ScoreReadsBack(fmt: FloatFormatter, parseFloat: FloatParser, score: F64)
    requires fmt(score) == "95.5" && parseFloat("95.5") == Some(score)
    ensures ReadsBack(Float(score), fmt, parseFloat)
  {
    assert ParseI64("95.5") == None by {
      assert !IsAsciiDigit("95.5"[2]);
    }
    ReadsBackOf(Float(score), fmt, parseFloat, "95.5");
  }

  lemma TrueReadsBack(fmt: FloatFormatter, parseFloat: FloatParser)
    ensures ReadsBack(Boolean(true), fmt, parseFloat)
  {
    DetectBoolean(true, parseFloat);
    ReadsBackOf(Boolean(true), fmt, parseFloat, "true");
  }

  /** Each value of the example row reads back as itself. */
  lemma AliceReadsBack(fmt: FloatFormatter, parseFloat: FloatParser, score: F64)
    requires fmt(score) == "95.5" && parseFloat("95.5") == Some(score) && parseFloat("Alice") == None
    ensures ReadableRows([Row(AliceValues(score))], fmt, parseFloat)
  {
    OneReadsBack(fmt, parseFloat);
    AliceTextReadsBack(fmt, parseFloat);
    ScoreReadsBack(fmt, parseFloat, score);
    TrueReadsBack(fmt, parseFloat);
    FourReadBack(Integer(1), Text("Alice"), Float(score), Boolean(true), fmt, parseFloat);
  }

  lemma FourReadBack(a: Value, b: Value, c: Value, d: Value, fmt: FloatFormatter, parseFloat: FloatParser)
    requires ReadsBack(a, fmt, parseFloat) && ReadsBack(b, fmt, parseFloat)
    requires ReadsBack(c, fmt, parseFloat) && ReadsBack(d, fmt, parseFloat)
    ensures ReadableRows([Row([a, b, c, d])], fmt, parseFloat)
  {
    var vs := [a, b, c, d];
    forall k | 0 <= k < 4
      ensures ReadsBack(vs[k], fmt, parseFloat)
    {
      if k == 0 {
        assert vs[k] == a;
      } else if k == 1 {
        assert vs[k] == b;
      } else if k == 2 {
        assert vs[k] == c;
      } else {
        assert vs[k] == d;
      }
    }
    assert [Row(vs)][0].values == vs;
  }

  /** `"lic"` occurs in `"Alice"`. */
  lemma AliceContainsLic()
    ensures Contains("Alice", "lic")
  {
    assert OccursAt("Alice", "lic", 1);
  }

  /** Both queries of `main` find the one row. */
  lemma QueriesOfAlice(db: Database, score: F64)
    requires db.schema == Schema(Columns) && db.rows == [Row(AliceValues(score))]
    ensures FindExact(db, "name", Text("Alice")).Success? && |FindExact(db, "name", Text("Alice")).value| == 1
    ensures FindContains(db, "name", "lic").Success? && |FindContains(db, "name", "lic").value| == 1
  {
    assert ColumnIndex(Columns, "name") == Some(1);
    AliceContainsLic();
    var row := Row(AliceValues(score));
    assert EqualsAt(1, Text("Alice"))(row) && ContainsAt(1, "lic")(row);
    assert [row][1..] == [];
  }

  /** `find_exact` on a float column compares with `f64`'s `==`: a row
      whose score is NaN is not found even by a query for NaN, and a query
      for `0.0` finds a score of `-0.0`. */
  lemma FloatQueries(db: Database)
    requires db.schema == Schema(Columns)
    requires db.rows == [Row(AliceValues(QuietNaN)), Row(AliceValues(NegativeZero))]
    ensures FindExact(db, "score", Float(QuietNaN)) == Success([])
    ensures FindExact(db, "score", Float(PositiveZero)) == Success([db.rows[1]])
  {
    assert ColumnIndex(Columns, "score") == Some(2);
    FloatEqExamples();
    var r0, r1 := Row(AliceValues(QuietNaN)), Row(AliceValues(NegativeZero));
    assert !EqualsAt(2, Float(QuietNaN))(r0) && !EqualsAt(2, Float(QuietNaN))(r1);
    assert !EqualsAt(2, Float(PositiveZero))(r0) && EqualsAt(2, Float(PositiveZero))(r1);
    assert [r0, r1][1..] == [r1] && [r1][1..] == [];
    var zero := EqualsAt(2, Float(PositiveZero));
    assert Filter([r1], zero) == [r1] + Filter([], zero);
    assert Filter([r0, r1], zero) == Filter([r1], zero);
    assert Covers(db.rows, 2);
    assert FindExact(db, "score", Float(PositiveZero)) == Success(Filter([r0, r1], zero));
    assert Filter([], zero) == [];
    assert [r1] + [] == [r1];
  }

  /** The checks `main` makes on a row it reads: the four values of the
      example, in column order. */
  predicate AliceRow(row: Row, score: F64) {
    && row.GetValue(0) == Some(Integer(1))
    && row.GetValue(1) == Some(Text("Alice"))
    && row.GetValue(2) == Some(Float(score))
    && row.GetValue(3) == Some(Boolean(true))
  }

  lemma AliceRowOf(score: F64)
    ensures AliceRow(Row(AliceValues(score)), score)
  {
  }

  /** Reading back the text `main` wrote gives the example table. */
  lemma RestoredAlice(fmt: FloatFormatter, parseFloat: FloatParser, score: F64)
    requires fmt(score) == "95.5" && parseFloat("95.5") == Some(score) && parseFloat("Alice") == None
    ensures ParsedCsv(Csv, parseFloat) == Success((Schema(Columns), [Row(AliceValues(score))]))
  {
    CsvOfAlice(fmt, score);
    ColumnsKnown();
    AliceReadsBack(fmt, parseFloat, score);
    CsvRoundTrip(Schema(Columns), [Row(AliceValues(score))], fmt, parseFloat);
  }

  /** The predicate `main` deletes with: the id is 1. */
  predicate IdIsOne(row: Row) {
    row.GetValue(0) == Some(Integer(1))
  }

  /** Deleting the rows with id 1 empties the example table. */
  lemma DeleteAlice(score: F64)
    ensures Retained([Row(AliceValues(score))], IdIsOne) == []
  {
    var row := Row(AliceValues(score));
    assert IdIsOne(row);
    DeleteAfterInsert([], row, IdIsOne);
  }

  /** `main`, step by step. */
  method TinycsvSession(fmt: FloatFormatter, parseFloat: FloatParser, score: F64)
    returns (rowCount: nat, first: Row, exactCount: nat, containsCount: nat, csv: string,
             restoredCount: nat, restored: Row, remaining: nat)
    requires fmt(score) == "95.5" && parseFloat("95.5") == Some(score) && parseFloat("Alice") == None
    ensures rowCount == 1 && exactCount == 1 && containsCount == 1
    ensures AliceRow(first, score)
    ensures csv == "id,name,score,active\n1,Alice,95.5,true\n"
    ensures restoredCount == 1 && AliceRow(restored, score)
    ensures remaining == 0
  {
    var db := new Database(Schema(Columns));
    var row := Row.New(AliceValues(score));
    AliceRowOf(score);
    Insert(db, row);

    var rows := db.GetRows();
    rowCount := |rows|;
    first := rows[0];

    QueriesOfAlice(db, score);
    var exact := FindExact(db, "name", Text("Alice"));
    exactCount := |exact.value|;
    var contains := FindContains(db, "name", "lic");
    containsCount := |contains.value|;

    csv := ToCsv(db, fmt);
    CsvOfAlice(fmt, score);

    RestoredAlice(fmt, parseFloat, score);
    var db2 := FromCsv(csv, parseFloat);
    var rows2 := db2.value.GetRows();
    restoredCount := |rows2|;
    restored := rows2[0];

    DeleteAlice(score);
    Delete(db, IdIsOne);
    remaining := |db.GetRows()|;
  }
}
