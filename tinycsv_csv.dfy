/** `rust-modules/src/tinycsv_db/csv.rs`: writing a table as CSV text. Every
    name and value is followed by a comma, and `String::pop` then drops the
    last character before the line's '\n'. */
module TinycsvCsv {
  import opened Wrappers
  import opened Decimal
  import opened Chars
  import opened Text
  import opened TinycsvTypes
  import opened TinycsvDatabase

  /** `f64::to_string`, which the model does not define. */
  type FloatFormatter = F64 -> string

  /** `String::pop`: the last character goes; the empty string stays empty. */
  function Pop(s: string): (r: string)
    ensures s == [] ==> r == []
    ensures s != [] ==> r + [s[|s| - 1]] == s
  {
    if s == [] then [] else s[..|s| - 1]
  }

  /** How one value is written: text verbatim, integers in decimal, booleans
      as `true` / `false`. */
  function ValueText(v: Value, fmt: FloatFormatter): string {
    match v
    case Text(s) => s
    case Integer(i) => IntToString(i)
    case Float(f) => fmt(f)
    case Boolean(b) => if b then "true" else "false"
  }

  /** The column names, each followed by a comma. */
  function ColumnsText(columns: seq<(string, DataType)>): string {
    if columns == [] then ""
    else ColumnsText(columns[..|columns| - 1]) + columns[|columns| - 1].0 + ","
  }

  /** The written values, each followed by a comma. */
  function ValuesText(values: seq<Value>, fmt: FloatFormatter): string {
    if values == [] then ""
    else ValuesText(values[..|values| - 1], fmt) + ValueText(values[|values| - 1], fmt) + ","
  }

  /** The text after the header loop. */
  function HeaderText(schema: Schema): string {
    Pop(ColumnsText(schema.columns)) + "\n"
  }

  /** The text after one more row. */
  function AppendRow(csv: string, row: Row, fmt: FloatFormatter): string {
    Pop(csv + ValuesText(row.values, fmt)) + "\n"
  }

  /** The text after the rows loop, as the source computes it. */
  function RowsText(header: string, rows: seq<Row>, fmt: FloatFormatter): string {
    if rows == [] then header
    else AppendRow(RowsText(header, rows[..|rows| - 1], fmt), rows[|rows| - 1], fmt)
  }

  function CsvText(schema: Schema, rows: seq<Row>, fmt: FloatFormatter): string {
    RowsText(HeaderText(schema), rows, fmt)
  }

  /** `to_csv`. */
  method ToCsv(db: Database, fmt: FloatFormatter) returns (csv: string)
    ensures csv == CsvText(db.schema, db.rows, fmt)
  {
    csv := "";
    var columns := db.schema.columns;
    for i := 0 to |columns|
      invariant csv == ColumnsText(columns[..i])
    {
      assert columns[..i + 1][..i] == columns[..i];
      csv := csv + columns[i].0;
      csv := csv + ",";
    }
    assert columns[..|columns|] == columns;
    csv := Pop(csv);
    csv := csv + "\n";

    var rows := db.rows;
    for j := 0 to |rows|
      invariant csv == RowsText(HeaderText(db.schema), rows[..j], fmt)
    {
      var values := rows[j].values;
      var before := csv;
      for k := 0 to |values|
        invariant csv == before + ValuesText(values[..k], fmt)
      {
        var text := ValueText(values[k], fmt);
        ghost var done := csv;
        csv := csv + text;
        csv := csv + ",";
        ValuesTextStep(values, k, fmt);
        Append3(before, ValuesText(values[..k], fmt), text + ",");
        assert csv == done + (text + ",");
      }
      assert values[..|values|] == values;
      assert rows[..j + 1][..j] == rows[..j];
      csv := Pop(csv);
      csv := csv + "\n";
    }
    assert rows[..|rows|] == rows;
  }

  lemma ValuesTextStep(values: seq<Value>, k: nat, fmt: FloatFormatter)
    requires k < |values|
    ensures ValuesText(values[..k + 1], fmt) == ValuesText(values[..k], fmt) + (ValueText(values[k], fmt) + ",")
  {
    assert values[..k + 1][..k] == values[..k];
  }

  lemma Append3(a: string, b: string, c: string)
    ensures (a + b) + c == a + (b + c)
  {
  }

  // ---------------------------------------------------------------------
  // The CSV text as lines

  function Names(columns: seq<(string, DataType)>): (ns: seq<string>)
    ensures |ns| == |columns|
    ensures forall i :: 0 <= i < |columns| ==> ns[i] == columns[i].0
  {
    seq(|columns|, i requires 0 <= i < |columns| => columns[i].0)
  }

  function Texts(values: seq<Value>, fmt: FloatFormatter): (ts: seq<string>)
    ensures |ts| == |values|
    ensures forall i :: 0 <= i < |values| ==> ts[i] == ValueText(values[i], fmt)
  {
    seq(|values|, i requires 0 <= i < |values| => ValueText(values[i], fmt))
  }

  /** The line a non-empty row is written as. */
  function RowLine(row: Row, fmt: FloatFormatter): string
    requires row.values != []
  {
    Join(Texts(row.values, fmt), ',')
  }

  /** Names each followed by a comma are the names joined by commas, plus a
      last comma. */
  lemma {:induction false} ColumnsTextJoin(columns: seq<(string, DataType)>)
    requires columns != []
    ensures ColumnsText(columns) == Join(Names(columns), ',') + ","
  {
    if |columns| > 1 {
      var init := columns[..|columns| - 1];
      ColumnsTextJoin(init);
      assert Names(columns)[..|columns| - 1] == Names(init);
    }
  }

  lemma {:induction false} ValuesTextJoin(values: seq<Value>, fmt: FloatFormatter)
    requires values != []
    ensures ValuesText(values, fmt) == Join(Texts(values, fmt), ',') + ","
  {
    if |values| > 1 {
      var init := values[..|values| - 1];
      ValuesTextJoin(init, fmt);
      assert Texts(values, fmt)[..|values| - 1] == Texts(init, fmt);
    }
  }

  /** The row lines, in row order. */
  function RowLines(rows: seq<Row>, fmt: FloatFormatter): (ls: seq<string>)
    requires forall i :: 0 <= i < |rows| ==> rows[i].values != []
    ensures |ls| == |rows|
    ensures forall i :: 0 <= i < |rows| ==> ls[i] == RowLine(rows[i], fmt)
  {
    if rows == [] then []
    else RowLines(rows[..|rows| - 1], fmt) + [RowLine(rows[|rows| - 1], fmt)]
  }

  /** The lines of a table whose schema and rows are all non-empty: the
      header line, then one line per row, in order. */
  function CsvLines(schema: Schema, rows: seq<Row>, fmt: FloatFormatter): (ls: seq<string>)
    requires schema.columns != []
    requires forall i :: 0 <= i < |rows| ==> rows[i].values != []
    ensures |ls| == |rows| + 1
  {
    [Join(Names(schema.columns), ',')] + RowLines(rows, fmt)
  }

  /** The text `to_csv` builds for a non-empty schema and non-empty rows is
      the header line and the row lines, each ended by '\n'. */
  lemma CsvTextLines(schema: Schema, rows: seq<Row>, fmt: FloatFormatter)
    requires schema.columns != []
    requires forall i :: 0 <= i < |rows| ==> rows[i].values != []
    ensures CsvText(schema, rows, fmt) == Terminated(CsvLines(schema, rows, fmt))
  {
    ColumnsTextJoin(schema.columns);
    RowsTextLines(HeaderText(schema), rows, fmt, Join(Names(schema.columns), ','));
  }

  lemma {:induction false} RowsTextLines(header: string, rows: seq<Row>, fmt: FloatFormatter, first: string)
    requires header == first + "\n"
    requires forall i :: 0 <= i < |rows| ==> rows[i].values != []
    ensures RowsText(header, rows, fmt) == Terminated([first] + RowLines(rows, fmt))
  {
    if rows == [] {
      assert [first] + RowLines(rows, fmt) == [first];
    } else {
      var init := rows[..|rows| - 1];
      var last := rows[|rows| - 1];
      RowsTextLines(header, init, fmt, first);
      var ls0 := [first] + RowLines(init, fmt);
      assert [first] + RowLines(rows, fmt) == ls0 + [RowLine(last, fmt)];
      AppendRowLine(RowsText(header, init, fmt), last, fmt);
      TerminatedSnoc(ls0, RowLine(last, fmt));
    }
  }

  /** A non-empty row adds its line and a '\n'. */
  lemma AppendRowLine(csv: string, row: Row, fmt: FloatFormatter)
    requires row.values != []
    ensures AppendRow(csv, row, fmt) == csv + RowLine(row, fmt) + "\n"
  {
    ValuesTextJoin(row.values, fmt);
    var line := RowLine(row, fmt);
    assert csv + ValuesText(row.values, fmt) == (csv + line) + ",";
  }

  lemma TerminatedSnoc(ls: seq<string>, l: string)
    requires ls != []
    ensures Terminated(ls + [l]) == Terminated(ls) + l + "\n"
  {
    assert (ls + [l])[..|ls|] == ls;
  }

  /** Where a row or the schema is empty, the pop takes the previous '\n'
      instead of a comma: an empty row leaves no line of its own. */
  lemma EmptyRowWritesNoLine(csv: string, fmt: FloatFormatter)
    requires csv != [] && csv[|csv| - 1] == '\n'
    ensures AppendRow(csv, Row([]), fmt) == csv
  {
  }

  lemma EmptySchemaHeader()
    ensures HeaderText(Schema([])) == "\n"
  {
  }

  // ---------------------------------------------------------------------
  // Reading back what was written

  /** A value whose text reads back as itself: no comma or line break in it,
      nothing for `trim` to take, and `detect_value_type` recovers it. */
  predicate ReadsBack(v: Value, fmt: FloatFormatter, parseFloat: FloatParser) {
    var t := ValueText(v, fmt);
    ',' !in t && '\n' !in t && Trimmed(t) && DetectValueType(t, parseFloat) == v
  }

  /** A text that is already trimmed and free of commas and line breaks
      reads back as the value it detects as. */
  lemma ReadsBackOf(v: Value, fmt: FloatFormatter, parseFloat: FloatParser, t: string)
    requires ValueText(v, fmt) == t && ',' !in t && '\n' !in t && Trimmed(t)
    requires DetectValueType(t, parseFloat) == v
    ensures ReadsBack(v, fmt, parseFloat)
  {
  }

  /** A schema of known column names, each with the type `from_csv` gives it. */
  predicate KnownSchema(schema: Schema) {
    schema.columns != [] &&
    forall i :: 0 <= i < |schema.columns| ==> KnownColumn(schema.columns[i].0) == Some(schema.columns[i].1)
  }

  predicate ReadableRows(rows: seq<Row>, fmt: FloatFormatter, parseFloat: FloatParser) {
    forall i :: 0 <= i < |rows| ==>
      (rows[i].values != [] && forall k :: 0 <= k < |rows[i].values| ==> ReadsBack(rows[i].values[k], fmt, parseFloat))
  }

  /** A joined line ends in '\r' only if its last piece does. */
  lemma JoinNoCr(xs: seq<string>, sep: char)
    requires xs != [] && sep != '\r'
    requires var l := xs[|xs| - 1]; l == [] || l[|l| - 1] != '\r'
    ensures StripCr(Join(xs, sep)) == Join(xs, sep)
  {
  }

  /** A known column name has no comma, line break or trailing '\r'. */
  lemma KnownNamePlain(name: string)
    requires KnownColumn(name).Some?
    ensures ',' !in name && '\n' !in name && name != [] && name[|name| - 1] != '\r'
  {
  }

  /** A row written by `to_csv` is read back by `from_csv` as the same row. */
  lemma RowReadsBack(row: Row, fmt: FloatFormatter, parseFloat: FloatParser)
    requires row.values != []
    requires forall k :: 0 <= k < |row.values| ==> ReadsBack(row.values[k], fmt, parseFloat)
    ensures RowOf(RowLine(row, fmt), parseFloat) == row
    ensures '\n' !in RowLine(row, fmt) && StripCr(RowLine(row, fmt)) == RowLine(row, fmt)
  {
    var ts := Texts(row.values, fmt);
    forall k | 0 <= k < |ts|
      ensures ',' !in ts[k] && '\n' !in ts[k]
      ensures DetectValueType(Trim(ts[k]), parseFloat) == row.values[k]
    {
      ReadsBackTrimmed(row.values[k], fmt, parseFloat);
    }
    LastNotCr(row.values[|ts| - 1], fmt, parseFloat);
    TextsRead(ts, row.values, parseFloat);
    JoinedLinePlain(ts);
  }

  /** Texts without commas, each detected as the given value, are read
      back from their joined line as a row of those values. */
  lemma TextsRead(ts: seq<string>, values: seq<Value>, parseFloat: FloatParser)
    requires ts != [] && |ts| == |values|
    requires forall k :: 0 <= k < |ts| ==> ',' !in ts[k]
    requires forall k :: 0 <= k < |ts| ==> DetectValueType(Trim(ts[k]), parseFloat) == values[k]
    ensures RowOf(Join(ts, ','), parseFloat) == Row(values)
  {
    SplitJoin(ts, ',');
    FieldsDetected(ts, values, parseFloat);
  }

  lemma FieldsDetected(ts: seq<string>, values: seq<Value>, parseFloat: FloatParser)
    requires |ts| == |values|
    requires forall k :: 0 <= k < |ts| ==> DetectValueType(Trim(ts[k]), parseFloat) == values[k]
    ensures DetectFields(ts, parseFloat) == values
  {
  }

  /** A line joined from texts without line breaks, the last not ending in
      '\r', is one line for `lines`. */
  lemma JoinedLinePlain(ts: seq<string>)
    requires ts != []
    requires forall k :: 0 <= k < |ts| ==> '\n' !in ts[k]
    requires var l := ts[|ts| - 1]; l == [] || l[|l| - 1] != '\r'
    ensures '\n' !in Join(ts, ',') && StripCr(Join(ts, ',')) == Join(ts, ',')
  {
    JoinChars(ts, ',', '\n');
    JoinNoCr(ts, ',');
  }

  /** `from_csv` trims the text of a value that reads back to no effect. */
  lemma ReadsBackTrimmed(v: Value, fmt: FloatFormatter, parseFloat: FloatParser)
    requires ReadsBack(v, fmt, parseFloat)
    ensures ',' !in ValueText(v, fmt) && '\n' !in ValueText(v, fmt)
    ensures DetectValueType(Trim(ValueText(v, fmt)), parseFloat) == v
  {
    TrimIdentity(ValueText(v, fmt));
  }

  /** A text that reads back does not end in '\r', which `trim` would take. */
  lemma LastNotCr(v: Value, fmt: FloatFormatter, parseFloat: FloatParser)
    requires ReadsBack(v, fmt, parseFloat)
    ensures var l := ValueText(v, fmt); l == [] || l[|l| - 1] != '\r'
  {
    var l := ValueText(v, fmt);
    assert Trimmed(l);
  }

  /** The header line `to_csv` writes for a known schema gives the schema
      back. */
  lemma HeaderReadsBack(schema: Schema)
    requires KnownSchema(schema)
    ensures HeaderColumns(Split(Join(Names(schema.columns), ','), ',')) == Success(schema.columns)
  {
    var ns := Names(schema.columns);
    NamesPlain(schema);
    SplitJoin(ns, ',');
    assert HeaderColumns(ns).value == schema.columns;
  }

  lemma NamesPlain(schema: Schema)
    requires KnownSchema(schema)
    ensures forall i :: 0 <= i < |schema.columns| ==> ',' !in Names(schema.columns)[i] && '\n' !in Names(schema.columns)[i]
  {
    var ns := Names(schema.columns);
    forall i | 0 <= i < |ns|
      ensures ',' !in ns[i] && '\n' !in ns[i]
    {
      KnownNamePlain(ns[i]);
    }
  }

  /** The header line holds no '\n' and does not end in '\r'. */
  lemma HeaderLinePlain(schema: Schema)
    requires KnownSchema(schema)
    ensures '\n' !in Join(Names(schema.columns), ',')
    ensures StripCr(Join(Names(schema.columns), ',')) == Join(Names(schema.columns), ',')
  {
    var ns := Names(schema.columns);
    NamesPlain(schema);
    KnownNamePlain(ns[|ns| - 1]);
    JoinChars(ns, ',', '\n');
    JoinNoCr(ns, ',');
  }

  /** `from_csv(to_csv(db))` gives back the schema and the rows, whenever the
      columns are known names, no row is empty and every value reads back. */
  lemma CsvRoundTrip(schema: Schema, rows: seq<Row>, fmt: FloatFormatter, parseFloat: FloatParser)
    requires KnownSchema(schema)
    requires ReadableRows(rows, fmt, parseFloat)
    ensures ParsedCsv(CsvText(schema, rows, fmt), parseFloat) == Success((schema, rows))
  {
    CsvTextLines(schema, rows, fmt);
    var ls := CsvLines(schema, rows, fmt);
    CsvLinesRead(schema, rows, fmt, parseFloat);
    LinesTerminated(ls);
    HeaderReadsBack(schema);
    ParsedCsvOf(CsvText(schema, rows, fmt), parseFloat, schema.columns, rows);
  }

  /** The lines of a readable table: none holds '\n' or ends in '\r', and
      each row line reads back as its row. */
  lemma CsvLinesRead(schema: Schema, rows: seq<Row>, fmt: FloatFormatter, parseFloat: FloatParser)
    requires KnownSchema(schema)
    requires ReadableRows(rows, fmt, parseFloat)
    ensures var ls := CsvLines(schema, rows, fmt);
      (forall i :: 0 <= i < |ls| ==> '\n' !in ls[i] && StripCr(ls[i]) == ls[i]) &&
      (forall i :: 0 <= i < |rows| ==> RowOf(ls[i + 1], parseFloat) == rows[i])
  {
    RowLinesRead(rows, fmt, parseFloat);
    HeaderLinePlain(schema);
    LinesRead(Join(Names(schema.columns), ','), RowLines(rows, fmt), rows, parseFloat);
  }

  lemma LinesRead(first: string, rls: seq<string>, rows: seq<Row>, parseFloat: FloatParser)
    requires '\n' !in first && StripCr(first) == first && |rls| == |rows|
    requires forall i :: 0 <= i < |rls| ==> '\n' !in rls[i] && StripCr(rls[i]) == rls[i] && RowOf(rls[i], parseFloat) == rows[i]
    ensures var ls := [first] + rls;
      (forall i :: 0 <= i < |ls| ==> '\n' !in ls[i] && StripCr(ls[i]) == ls[i]) &&
      (forall i :: 0 <= i < |rows| ==> RowOf(ls[i + 1], parseFloat) == rows[i])
  {
    var ls := [first] + rls;
    forall i | 0 <= i < |ls|
      ensures '\n' !in ls[i] && StripCr(ls[i]) == ls[i]
    {
      if i > 0 {
        assert ls[i] == rls[i - 1];
      }
    }
    forall i | 0 <= i < |rows|
      ensures RowOf(ls[i + 1], parseFloat) == rows[i]
    {
      assert ls[i + 1] == rls[i];
    }
  }

  lemma RowLinesRead(rows: seq<Row>, fmt: FloatFormatter, parseFloat: FloatParser)
    requires ReadableRows(rows, fmt, parseFloat)
    ensures var rls := RowLines(rows, fmt);
      forall i :: 0 <= i < |rows| ==> '\n' !in rls[i] && StripCr(rls[i]) == rls[i] && RowOf(rls[i], parseFloat) == rows[i]
  {
    forall i | 0 <= i < |rows|
      ensures RowOf(RowLine(rows[i], fmt), parseFloat) == rows[i]
      ensures '\n' !in RowLine(rows[i], fmt) && StripCr(RowLine(rows[i], fmt)) == RowLine(rows[i], fmt)
    {
      RowReadsBack(rows[i], fmt, parseFloat);
    }
  }
}
