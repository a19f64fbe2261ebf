/** `rust-modules/src/tinycsv_db/database.rs`: the table itself, and reading
    one back from CSV text with the type of every field guessed. */
module TinycsvDatabase {
  import opened Wrappers
  import opened Decimal
  import opened Text
  import opened TinycsvTypes

  class Database {
    var schema: Schema
    var rows: seq<Row>

    /** `Database::new`: the given schema and no rows. */
    constructor (schema: Schema)
      ensures this.schema == schema && rows == []
    {
      this.schema := schema;
      rows := [];
    }

    function GetSchema(): Schema
      reads this
    {
      schema
    }

    function GetRows(): seq<Row>
      reads this
    {
      rows
    }
  }

  /** Why `from_csv` panics: no first line, or a header it does not know. */
  datatype CsvError = NoHeaderLine | UnknownField(header: string)

  /** `str::parse::<f64>()`, which the model does not define: it is a
      parameter of every operation that needs it. */
  type FloatParser = string -> Option<F64>

  /** `str::parse::<bool>()`: exactly "true" or "false". */
  function ParseBool(s: string): (r: Option<bool>)
    ensures r == Some(true) <==> s == "true"
    ensures r == Some(false) <==> s == "false"
  {
    if s == "true" then Some(true) else if s == "false" then Some(false) else None
  }

  /** `detect_value_type`: a boolean if the text is one, else an `i64` if it
      is one, else a float if it parses as one, else the text itself. */
  function DetectValueType(value: string, parseFloat: FloatParser): (r: Value)
    ensures ParseBool(value).Some? ==> r == Boolean(ParseBool(value).value)
    ensures ParseBool(value).None? && ParseI64(value).Some? ==> r == Integer(ParseI64(value).value)
    ensures ParseBool(value).None? && ParseI64(value).None? && parseFloat(value).Some? ==> r == Float(parseFloat(value).value)
    ensures ParseBool(value).None? && ParseI64(value).None? && parseFloat(value).None? ==> r == Text(value)
  {
    match ParseBool(value)
    case Some(b) => Boolean(b)
    case None =>
      match ParseI64(value)
      case Some(i) => Integer(i)
      case None =>
        match parseFloat(value)
        case Some(f) => Float(f)
        case None => Text(value)
  }

  /** What is written for a boolean or an integer is read back as the same
      value. */
  lemma DetectBoolean(b: bool, parseFloat: FloatParser)
    ensures DetectValueType(if b then "true" else "false", parseFloat) == Boolean(b)
  {
  }

  lemma DetectInteger(i: I64, parseFloat: FloatParser)
    ensures DetectValueType(IntToString(i), parseFloat) == Integer(i)
  {
    IntToStringParse(i);
    var s := IntToString(i);
    assert s != "true" && s != "false" by {
      if i < 0 {
        assert s[0] == '-';
      } else {
        assert AllDigits(s);
      }
    }
  }

  /** The types `from_csv` gives its four known column names. */
  function KnownColumn(header: string): (t: Option<DataType>)
    ensures t.Some? <==> header in {"id", "name", "score", "active"}
  {
    match header
    case "id" => Some(IntegerType)
    case "name" => Some(TextType)
    case "score" => Some(FloatType)
    case "active" => Some(BooleanType)
    case _ => None
  }

  /** The schema the header line describes; the first unknown header fails. */
  function HeaderColumns(headers: seq<string>): (r: Result<seq<(string, DataType)>, CsvError>)
    ensures r.Success? <==> forall i :: 0 <= i < |headers| ==> KnownColumn(headers[i]).Some?
    ensures r.Success? ==> |r.value| == |headers|
    ensures r.Success? ==> forall i :: 0 <= i < |headers| ==> r.value[i] == (headers[i], KnownColumn(headers[i]).value)
    ensures r.Failure? ==> r.error.UnknownField? && r.error.header in headers && KnownColumn(r.error.header).None?
  {
    if headers == [] then Success([])
    else
      var init := headers[..|headers| - 1];
      var last := headers[|headers| - 1];
      match HeaderColumns(init)
      case Failure(e) => Failure(e)
      case Success(columns) =>
        match KnownColumn(last)
        case None => Failure(UnknownField(last))
        case Some(t) => Success(columns + [(last, t)])
  }

  /** Once a prefix of the headers fails, the whole header line fails with
      the same error. */
  lemma {:induction false} HeaderColumnsFailure(headers: seq<string>, k: nat)
    requires k <= |headers| && HeaderColumns(headers[..k]).Failure?
    ensures HeaderColumns(headers) == HeaderColumns(headers[..k])
    decreases |headers| - k
  {
    if k < |headers| {
      assert headers[..k + 1][..k] == headers[..k];
      HeaderColumnsFailure(headers, k + 1);
    } else {
      assert headers[..k] == headers;
    }
  }

  /** One line of data: its comma-separated fields, each trimmed and
      typed. */
  function RowOf(line: string, parseFloat: FloatParser): (r: Row)
    ensures |r.values| == |Split(line, ',')|
    ensures forall i :: 0 <= i < |r.values| ==> r.values[i] == DetectValueType(Trim(Split(line, ',')[i]), parseFloat)
  {
    Row(DetectFields(Split(line, ','), parseFloat))
  }

  /** The typed value of every trimmed field, in order. */
  function DetectFields(fields: seq<string>, parseFloat: FloatParser): (r: seq<Value>)
    ensures |r| == |fields|
    ensures forall i :: 0 <= i < |fields| ==> r[i] == DetectValueType(Trim(fields[i]), parseFloat)
  {
    seq(|fields|, i requires 0 <= i < |fields| => DetectValueType(Trim(fields[i]), parseFloat))
  }

  /** The table `from_csv` builds: the schema from the first line, one row
      per further line. */
  function ParsedCsv(input: string, parseFloat: FloatParser): (r: Result<(Schema, seq<Row>), CsvError>)
    ensures Lines(input) == [] ==> r == Failure(NoHeaderLine)
    ensures r.Success? ==> |r.value.1| == |Lines(input)| - 1
  {
    var ls := Lines(input);
    if ls == [] then Failure(NoHeaderLine)
    else
      var columns :- HeaderColumns(Split(ls[0], ','));
      Success((Schema(columns), DataRows(ls, parseFloat)))
  }

  /** The row of every line after the first. */
  function DataRows(ls: seq<string>, parseFloat: FloatParser): (r: seq<Row>)
    requires ls != []
    ensures |r| == |ls| - 1
    ensures forall i :: 0 <= i < |r| ==> r[i] == RowOf(ls[i + 1], parseFloat)
  {
    seq(|ls| - 1, i requires 0 <= i < |ls| - 1 => RowOf(ls[i + 1], parseFloat))
  }

  /** Rows that are the lines' rows one by one are their `DataRows`. */
  lemma DataRowsOf(ls: seq<string>, rows: seq<Row>, parseFloat: FloatParser)
    requires |ls| == |rows| + 1
    requires forall i :: 0 <= i < |rows| ==> RowOf(ls[i + 1], parseFloat) == rows[i]
    ensures DataRows(ls, parseFloat) == rows
  {
  }

  /** Any lines whose header and rows read as given parse to that table. */
  lemma ParsedCsvOf(input: string, parseFloat: FloatParser, columns: seq<(string, DataType)>, rows: seq<Row>)
    requires Lines(input) != [] && HeaderColumns(Split(Lines(input)[0], ',')) == Success(columns)
    requires |Lines(input)| == |rows| + 1
    requires forall i :: 0 <= i < |rows| ==> RowOf(Lines(input)[i + 1], parseFloat) == rows[i]
    ensures ParsedCsv(input, parseFloat) == Success((Schema(columns), rows))
  {
    DataRowsOf(Lines(input), rows, parseFloat);
  }

  /** One more header: known, it adds its column; unknown, it fails. */
  lemma HeaderStep(headers: seq<string>, i: nat)
    requires i < |headers| && HeaderColumns(headers[..i]).Success?
    ensures KnownColumn(headers[i]).Some? ==>
      HeaderColumns(headers[..i + 1]) == Success(HeaderColumns(headers[..i]).value + [(headers[i], KnownColumn(headers[i]).value)])
    ensures KnownColumn(headers[i]).None? ==> HeaderColumns(headers[..i + 1]) == Failure(UnknownField(headers[i]))
  {
    assert headers[..i + 1][..i] == headers[..i];
  }

  /** A header line that fails fails the whole parse, with its error. */
  lemma ParsedCsvHeaderFails(input: string, parseFloat: FloatParser)
    requires Lines(input) != [] && HeaderColumns(Split(Lines(input)[0], ',')).Failure?
    ensures ParsedCsv(input, parseFloat) == Failure(HeaderColumns(Split(Lines(input)[0], ',')).error)
  {
  }

  /** The rows of one more line are those before and the row of that line. */
  lemma DataRowsStep(ls: seq<string>, j: nat, parseFloat: FloatParser)
    requires 1 <= j < |ls|
    ensures DataRows(ls[..j + 1], parseFloat) == DataRows(ls[..j], parseFloat) + [RowOf(ls[j], parseFloat)]
  {
    DataRowsOf(ls[..j + 1], DataRows(ls[..j], parseFloat) + [RowOf(ls[j], parseFloat)], parseFloat);
  }

  /** A header line that reads as `columns` gives their schema and the rows
      of the lines after it. */
  lemma ParsedCsvHeader(input: string, parseFloat: FloatParser, columns: seq<(string, DataType)>)
    requires Lines(input) != [] && HeaderColumns(Split(Lines(input)[0], ',')) == Success(columns)
    ensures ParsedCsv(input, parseFloat) == Success((Schema(columns), DataRows(Lines(input), parseFloat)))
  {
  }

  /** The second loop of `from_csv`: a row for every line after the
      header. */
  method ReadRows(lines: seq<string>, parseFloat: FloatParser) returns (rows: seq<Row>)
    requires lines != []
    ensures |rows| == |lines| - 1
    ensures forall k :: 0 <= k < |rows| ==> rows[k] == RowOf(lines[k + 1], parseFloat)
    ensures rows == DataRows(lines, parseFloat)
  {
    rows := [];
    for j := 1 to |lines|
      invariant rows == DataRows(lines[..j], parseFloat)
    {
      DataRowsStep(lines, j, parseFloat);
      rows := rows + [RowOf(lines[j], parseFloat)];
    }
    assert lines[..|lines|] == lines;
  }

  /** `Database::from_csv`. A panic of the source is a `Failure`. */
  method FromCsv(input: string, parseFloat: FloatParser) returns (r: Result<Database, CsvError>)
    ensures r.Failure? <==> ParsedCsv(input, parseFloat).Failure?
    ensures r.Failure? ==> r.error == ParsedCsv(input, parseFloat).error
    ensures r.Success? ==> fresh(r.value)
    ensures r.Success? ==> r.value.schema == ParsedCsv(input, parseFloat).value.0
    ensures r.Success? ==> r.value.rows == ParsedCsv(input, parseFloat).value.1
  {
    var columns: seq<(string, DataType)> := [];
    var rows: seq<Row>;
    var lines := Lines(input);
    if lines == [] {
      return Failure(NoHeaderLine);
    }
    var headers := Split(lines[0], ',');
    for i := 0 to |headers|
      invariant HeaderColumns(headers[..i]) == Success(columns)
    {
      var header := headers[i];
      HeaderStep(headers, i);
      match KnownColumn(header)
      case Some(t) =>
        columns := columns + [(header, t)];
      case None =>
        HeaderColumnsFailure(headers, i + 1);
        ParsedCsvHeaderFails(input, parseFloat);
        return Failure(UnknownField(header));
    }
    assert headers[..|headers|] == headers;
    rows := ReadRows(lines, parseFloat);
    ParsedCsvHeader(input, parseFloat, columns);
    var db := new Database(Schema(columns));
    db.rows := rows;
    return Success(db);
  }
}
