/** The value types of the CSV table (`rust-modules/src/tinycsv_db/types.rs`,
    `schema.rs` and `row.rs`). */
module TinycsvTypes {
  import opened Wrappers
  import opened Decimal

  type I64 = i: int | I64Min <= i <= I64Max

  /** An `f64`, kept as its bit pattern: the model does no floating-point
      arithmetic, formatting or parsing of its own. */
  datatype F64 = F64(bits: bv64)

  /** The exponent field is all ones and the fraction is not zero. */
  predicate IsNaN(x: F64) {
    x.bits & 0x7FF0_0000_0000_0000 == 0x7FF0_0000_0000_0000 && x.bits & 0x000F_FFFF_FFFF_FFFF != 0
  }

  /** `0.0` or `-0.0`: every bit but the sign is zero. */
  predicate IsZero(x: F64) {
    x.bits & 0x7FFF_FFFF_FFFF_FFFF == 0
  }

  /** `f64`'s `==`, the equality of IEEE 754 (section 5.11): a NaN equals
      nothing, not even itself; the two zeros are equal; any other two values
      are equal exactly when their encodings are. */
  predicate FloatEq(x: F64, y: F64) {
    !IsNaN(x) && !IsNaN(y) && (x == y || (IsZero(x) && IsZero(y)))
  }

  const PositiveZero: F64 := F64(0)
  const NegativeZero: F64 := F64(0x8000_0000_0000_0000)
  /** The NaN `"NaN".parse::<f64>()` gives. */
  const QuietNaN: F64 := F64(0x7FF8_0000_0000_0000)

  /** Where `==` on `f64` is not the identity of encodings: a NaN is not
      equal to itself, and `0.0 == -0.0` although the two differ in their
      sign bit. Everywhere else the two agree. */
  lemma FloatEqCases(x: F64, y: F64)
    ensures IsNaN(x) ==> !FloatEq(x, y) && !FloatEq(y, x)
    ensures !IsNaN(x) ==> FloatEq(x, x)
    ensures FloatEq(x, y) <==> FloatEq(y, x)
    ensures !IsZero(x) ==> (FloatEq(x, y) <==> x == y && !IsNaN(x))
  {
  }

  lemma FloatEqExamples()
    ensures IsNaN(QuietNaN) && !FloatEq(QuietNaN, QuietNaN)
    ensures PositiveZero != NegativeZero && FloatEq(PositiveZero, NegativeZero)
  {
  }

  datatype DataType = IntegerType | TextType | FloatType | BooleanType

  datatype Value = Integer(i: I64) | Text(s: string) | Float(f: F64) | Boolean(b: bool)

  /** The derived `PartialEq` of `Value`: the same variant with equal
      contents, floats compared with `f64`'s `==`. */
  predicate ValueEq(a: Value, b: Value) {
    match (a, b)
    case (Integer(i), Integer(j)) => i == j
    case (Text(s), Text(t)) => s == t
    case (Float(x), Float(y)) => FloatEq(x, y)
    case (Boolean(p), Boolean(q)) => p == q
    case _ => false
  }

  /** `==` on values is the identity of values except on floats, where it is
      `f64`'s `==`. */
  lemma ValueEqCases(a: Value, b: Value)
    ensures !a.Float? ==> (ValueEq(a, b) <==> a == b)
    ensures a.Float? ==> (ValueEq(a, b) <==> b.Float? && FloatEq(a.f, b.f))
    ensures ValueEq(a, b) <==> ValueEq(b, a)
  {
  }

  /** The columns of a table, in order: a name and a type each. */
  datatype Schema = Schema(columns: seq<(string, DataType)>)

  /** A row of values, in column order. */
  datatype Row = Row(values: seq<Value>) {
    /** `Row::new`. */
    static function New(values: seq<Value>): (r: Row)
      ensures r.values == values
    {
      Row(values)
    }

    /** `get_values`. */
    function GetValues(): (vs: seq<Value>)
      ensures vs == values
    {
      values
    }

    /** `get_value(index)`: the value in that column, or `None` past the end. */
    function GetValue(index: nat): (r: Option<Value>)
      ensures index < |values| ==> r == Some(values[index])
      ensures index >= |values| ==> r == None
    {
      if index < |values| then Some(values[index]) else None
    }
  }
}
