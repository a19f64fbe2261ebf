/** The layout half of `wasm-intro/data-structures.js`: the data types a
    binary record is built from, their byte lengths and alignments, and the
    scheme a `Struct` constructor computes (named fields at aligned offsets,
    with padding entries inserted in front of fields that need them). */
module BinaryLayout {
  import opened Decimal

  /** A data type of the layout engine. A `Struct` is what its constructor
      leaves behind: the scheme, in order, and the total byte length. A
      `TypedArray` is its element type and the number of elements. */
  datatype Layout =
    | U8
    | U16
    | FixedAscii(maxLength: nat)
    | StructOf(scheme: seq<Entry>, byteLength: nat)
    | ArrayOf(elem: Layout, length: nat)

  /** An entry of a scheme: the padding the constructor inserts (keyed by a
      symbol in the source, with a `set` that does nothing) or a named
      field. */
  datatype Entry = Pad(size: nat) | Field(key: string, layout: Layout)

  /** The `byteLength` getter of each data type. */
  function ByteLength(t: Layout): nat {
    match t
    case U8 => 1
    case U16 => 2
    case FixedAscii(n) => n
    case StructOf(_, b) => b
    case ArrayOf(elem, length) => ByteLength(elem) * length
  }

  /** `dataType.alignment ?? 1`: `U16` declares 2, `U8` and the string
      declare 1, and `Struct` and `TypedArray` declare nothing. */
  function Alignment(t: Layout): (a: nat)
    ensures a == 1 || a == 2
    ensures a == 2 <==> t.U16?
  {
    match t
    case U16 => 2
    case _ => 1
  }

  /** `x` is a multiple of `size`. */
  predicate IsMultiple(x: nat, size: nat)
    requires size > 0
  {
    x % size == 0
  }

  /** `#getAlignment(offset, size)`: the padding that moves `offset` to the
      next multiple of `size`, the least such. */
  function GetAlignment(offset: nat, size: nat): (r: nat)
    requires size > 0
    ensures r < size
    ensures r == 0 <==> IsMultiple(offset, size)
    ensures IsMultiple(offset + r, size)
    ensures forall x :: offset <= x < offset + r ==> !IsMultiple(x, size)
  {
    var remainder := offset % size;
    PaddingLeast(offset, size);
    if remainder == 0 then 0 else size - remainder
  }

  lemma PaddingLeast(offset: nat, size: nat)
    requires size > 0
    ensures offset % size != 0 ==> IsMultiple(offset + (size - offset % size), size)
    ensures offset % size != 0 ==> forall x :: offset <= x < offset + (size - offset % size) ==> !IsMultiple(x, size)
  {
    var q, rem := offset / size, offset % size;
    if rem != 0 {
      Quotient(offset, size);
      MultipleAfter(offset, size, q, rem);
      forall x | offset <= x < offset + (size - rem)
        ensures !IsMultiple(x, size)
      {
        ModUnique(x, size, q, rem + (x - offset));
      }
    }
  }

  lemma Quotient(offset: nat, size: nat)
    requires size > 0
    ensures offset == (offset / size) * size + offset % size
  {
  }

  lemma MultipleAfter(offset: nat, size: nat, q: int, rem: int)
    requires size > 0 && offset == q * size + rem && 0 < rem < size
    ensures IsMultiple(offset + (size - rem), size)
  {
    assert offset + (size - rem) == (q + 1) * size + 0;
    ModUnique(offset + (size - rem), size, q + 1, 0);
  }

  /** Euclidean division has one remainder. */
  lemma ModUnique(a: int, b: int, q: int, r: int)
    requires b > 0 && 0 <= r < b && a == q * b + r
    ensures a % b == r
  {
    var q0, r0 := a / b, a % b;
    assert a == q0 * b + r0;
    var k := q - q0;
    assert k * b == r0 - r by {
      assert q * b - q0 * b == (q - q0) * b;
    }
    if k >= 1 {
      MulAtLeast(k, b);
    } else if k <= -1 {
      MulAtLeast(-k, b);
    }
  }

  lemma MulAtLeast(k: int, b: int)
    requires k >= 1 && b > 0
    ensures k * b >= b
  {
  }

  // ---------------------------------------------------------------------
  // the Struct constructor

  /** The entry the constructor pushes in front of a field of type `t` when
      `total` bytes come before it: a padding entry when one is needed. */
  function PadBefore(total: nat, t: Layout): seq<Entry> {
    var padding := GetAlignment(total, Alignment(t));
    if padding != 0 then [Pad(padding)] else []
  }

  /** The scheme of a `Struct` whose fields are `fields`, in the order
      `Object.entries` gives them. */
  function SchemeOf(fields: seq<(string, Layout)>): seq<Entry> {
    if fields == [] then []
    else
      var init := fields[..|fields| - 1];
      var last := fields[|fields| - 1];
      SchemeOf(init) + PadBefore(TotalLength(init), last.1) + [Field(last.0, last.1)]
  }

  /** The `totalLength` the constructor reaches after `fields`. */
  function TotalLength(fields: seq<(string, Layout)>): nat {
    if fields == [] then 0
    else
      var total := TotalLength(fields[..|fields| - 1]);
      var t := fields[|fields| - 1].1;
      total + GetAlignment(total, Alignment(t)) + ByteLength(t)
  }

  /** Where field `i` starts: after the fields before it and the padding in
      front of it. */
  function FieldOffset(fields: seq<(string, Layout)>, i: nat): (r: nat)
    requires i < |fields|
    ensures IsMultiple(r, Alignment(fields[i].1))
    ensures TotalLength(fields[..i]) <= r < TotalLength(fields[..i]) + Alignment(fields[i].1)
  {
    var total := TotalLength(fields[..i]);
    total + GetAlignment(total, Alignment(fields[i].1))
  }

  /** The size an entry takes in the buffer. */
  function EntrySize(e: Entry): nat {
    match e
    case Pad(size) => size
    case Field(_, t) => ByteLength(t)
  }

  /** The bytes a (part of a) scheme covers. */
  function SchemeSize(s: seq<Entry>): nat {
    if s == [] then 0 else SchemeSize(s[..|s| - 1]) + EntrySize(s[|s| - 1])
  }

  /** The bytes the padding entries of a scheme cover. */
  function PaddingSize(s: seq<Entry>): nat {
    if s == [] then 0 else PaddingSize(s[..|s| - 1]) + (if s[|s| - 1].Pad? then s[|s| - 1].size else 0)
  }

  /** The bytes the fields themselves cover. */
  function FieldsSize(fields: seq<(string, Layout)>): nat {
    if fields == [] then 0 else FieldsSize(fields[..|fields| - 1]) + ByteLength(fields[|fields| - 1].1)
  }

  /** The named fields of a scheme, in order: what is left once the padding
      is skipped. */
  function FieldEntries(s: seq<Entry>): seq<(string, Layout)> {
    if s == [] then []
    else
      var init := FieldEntries(s[..|s| - 1]);
      match s[|s| - 1]
      case Pad(_) => init
      case Field(key, t) => init + [(key, t)]
  }

  predicate DistinctKeys(fields: seq<(string, Layout)>) {
    forall i, j :: 0 <= i < j < |fields| ==> fields[i].0 != fields[j].0
  }

  /** What every `Struct` satisfies: its length is what its scheme covers,
      and its field types are well formed in turn. */
  predicate WellFormed(t: Layout) {
    match t
    case StructOf(s, b) =>
      && b == SchemeSize(s)
      && forall j :: 0 <= j < |s| && s[j].Field? ==> WellFormed(s[j].layout)
    case ArrayOf(elem, _) => WellFormed(elem)
    case _ => true
  }

  /** `new Struct(scheme)`: walks the fields with a running `totalLength`,
      pushing a padding entry in front of a field whenever its offset is
      not a multiple of its alignment. */
  method NewStruct(fields: seq<(string, Layout)>) returns (t: Layout)
    ensures t == StructOf(SchemeOf(fields), TotalLength(fields))
    ensures (forall i :: 0 <= i < |fields| ==> WellFormed(fields[i].1)) ==> WellFormed(t)
  {
    var totalLength := 0;
    var scheme: seq<Entry> := [];
    for i := 0 to |fields|
      invariant scheme == SchemeOf(fields[..i])
      invariant totalLength == TotalLength(fields[..i])
    {
      var (key, dataType) := fields[i];
      assert fields[..i + 1][..i] == fields[..i];
      var alignment := GetAlignment(totalLength, Alignment(dataType));
      if alignment != 0 {
        scheme := scheme + [Pad(alignment)];
        totalLength := totalLength + alignment;
      }
      scheme := scheme + [Field(key, dataType)];
      totalLength := totalLength + ByteLength(dataType);
    }
    assert fields[..|fields|] == fields;
    t := StructOf(scheme, totalLength);
    if forall i :: 0 <= i < |fields| ==> WellFormed(fields[i].1) {
      SchemeWellFormed(fields);
    }
  }

  // ---------------------------------------------------------------------
  // what the constructor guarantees

  lemma SchemeSizeAppend(s: seq<Entry>, u: seq<Entry>)
    ensures SchemeSize(s + u) == SchemeSize(s) + SchemeSize(u)
    decreases |u|
  {
    if u != [] {
      assert (s + u)[..|s + u| - 1] == s + u[..|u| - 1];
      SchemeSizeAppend(s, u[..|u| - 1]);
    } else {
      assert s + u == s;
    }
  }

  lemma PaddingSizeAppend(s: seq<Entry>, u: seq<Entry>)
    ensures PaddingSize(s + u) == PaddingSize(s) + PaddingSize(u)
    decreases |u|
  {
    if u != [] {
      assert (s + u)[..|s + u| - 1] == s + u[..|u| - 1];
      PaddingSizeAppend(s, u[..|u| - 1]);
    } else {
      assert s + u == s;
    }
  }

  lemma FieldEntriesAppend(s: seq<Entry>, u: seq<Entry>)
    ensures FieldEntries(s + u) == FieldEntries(s) + FieldEntries(u)
    decreases |u|
  {
    if u != [] {
      assert (s + u)[..|s + u| - 1] == s + u[..|u| - 1];
      FieldEntriesAppend(s, u[..|u| - 1]);
    } else {
      assert s + u == s;
    }
  }

  /** What the padding in front of a field adds: its bytes to both sizes,
      and no field. */
  lemma PadBeforeSizes(total: nat, t: Layout)
    ensures SchemeSize(PadBefore(total, t)) == GetAlignment(total, Alignment(t))
    ensures PaddingSize(PadBefore(total, t)) == GetAlignment(total, Alignment(t))
    ensures FieldEntries(PadBefore(total, t)) == []
  {
    var pad := PadBefore(total, t);
    if pad != [] {
      assert pad[..0] == [];
    }
  }

  lemma FieldSizes(key: string, t: Layout)
    ensures SchemeSize([Field(key, t)]) == ByteLength(t)
    ensures PaddingSize([Field(key, t)]) == 0
    ensures FieldEntries([Field(key, t)]) == [(key, t)]
  {
    assert [Field(key, t)][..0] == [];
  }

  /** The scheme covers exactly `totalLength` bytes: the sizes of the fields
      plus the padding inserted between them. */
  lemma {:induction false} SchemeCovers(fields: seq<(string, Layout)>)
    ensures SchemeSize(SchemeOf(fields)) == TotalLength(fields)
    ensures TotalLength(fields) == FieldsSize(fields) + PaddingSize(SchemeOf(fields))
  {
    if fields != [] {
      var init := fields[..|fields| - 1];
      var last := fields[|fields| - 1];
      SchemeCovers(init);
      var pad := PadBefore(TotalLength(init), last.1);
      SchemeSizeAppend(SchemeOf(init) + pad, [Field(last.0, last.1)]);
      SchemeSizeAppend(SchemeOf(init), pad);
      PaddingSizeAppend(SchemeOf(init) + pad, [Field(last.0, last.1)]);
      PaddingSizeAppend(SchemeOf(init), pad);
      FieldSizes(last.0, last.1);
      PadBeforeSizes(TotalLength(init), last.1);
    }
  }

  lemma FieldEntriesSnoc(s: seq<Entry>, pad: seq<Entry>, key: string, t: Layout)
    requires FieldEntries(pad) == []
    ensures FieldEntries(s + pad + [Field(key, t)]) == FieldEntries(s) + [(key, t)]
  {
    FieldEntriesAppend(s + pad, [Field(key, t)]);
    FieldEntriesAppend(s, pad);
    FieldSizes(key, t);
  }

  /** The scheme keeps every field, in order, and nothing else but
      padding. */
  lemma {:induction false} SchemeFields(fields: seq<(string, Layout)>)
    ensures FieldEntries(SchemeOf(fields)) == fields
  {
    if fields != [] {
      var init := fields[..|fields| - 1];
      var last := fields[|fields| - 1];
      SchemeFields(init);
      PadBeforeSizes(TotalLength(init), last.1);
      FieldEntriesSnoc(SchemeOf(init), PadBefore(TotalLength(init), last.1), last.0, last.1);
      assert init + [last] == fields;
    }
  }

  /** Every padding entry is a single byte in front of a `U16`: nothing else
      is aligned to more than one byte. */
  predicate PadsBeforeU16(s: seq<Entry>) {
    forall j :: 0 <= j < |s| && s[j].Pad? ==> s[j].size == 1 && j + 1 < |s| && s[j + 1].Field? && s[j + 1].layout.U16?
  }

  lemma {:induction false} PaddingBeforeU16(fields: seq<(string, Layout)>)
    ensures PadsBeforeU16(SchemeOf(fields))
  {
    if fields != [] {
      var init := fields[..|fields| - 1];
      var last := fields[|fields| - 1];
      var pad := PadBefore(TotalLength(init), last.1);
      PaddingBeforeU16(init);
      var s0 := SchemeOf(init);
      var s := SchemeOf(fields);
      var p := GetAlignment(TotalLength(init), Alignment(last.1));
      assert s == s0 + pad + [Field(last.0, last.1)];
      assert |s| == |s0| + |pad| + 1;
      assert s[|s| - 1] == Field(last.0, last.1);
      assert pad != [] ==> pad == [Pad(p)] && s[|s0|] == Pad(p) && last.1.U16? && p == 1;
      forall j | 0 <= j < |s| && s[j].Pad?
        ensures s[j].size == 1 && j + 1 < |s| && s[j + 1].Field? && s[j + 1].layout.U16?
      {
        if j < |s0| {
          assert PadsBeforeU16(s0);
          assert s[j] == s0[j] && s[j + 1] == s0[j + 1];
        } else {
          assert j != |s| - 1;
          assert pad != [] && j == |s0|;
          assert s[j + 1] == s[|s| - 1];
        }
      }
    }
  }

  lemma {:induction false} SchemeWellFormed(fields: seq<(string, Layout)>)
    requires forall i :: 0 <= i < |fields| ==> WellFormed(fields[i].1)
    ensures WellFormed(StructOf(SchemeOf(fields), TotalLength(fields)))
  {
    var s := SchemeOf(fields);
    SchemeCovers(fields);
    forall j | 0 <= j < |s| && s[j].Field?
      ensures WellFormed(s[j].layout)
    {
      SchemeFieldFrom(fields, j);
      var i :| 0 <= i < |fields| && fields[i].1 == s[j].layout;
    }
  }

  /** Each field entry of the scheme is one of the fields. */
  lemma {:induction false} SchemeFieldFrom(fields: seq<(string, Layout)>, j: nat)
    requires j < |SchemeOf(fields)| && SchemeOf(fields)[j].Field?
    ensures exists i :: 0 <= i < |fields| && fields[i].1 == SchemeOf(fields)[j].layout
  {
    var init := fields[..|fields| - 1];
    var last := fields[|fields| - 1];
    var pad := PadBefore(TotalLength(init), last.1);
    var s := SchemeOf(fields);
    if j < |SchemeOf(init)| {
      assert s[j] == SchemeOf(init)[j];
      SchemeFieldFrom(init, j);
      var i :| 0 <= i < |init| && init[i].1 == s[j].layout;
      assert fields[i] == init[i];
    } else if j < |SchemeOf(init)| + |pad| {
      assert false;
    } else {
      assert s[j] == Field(last.0, last.1);
    }
  }

  lemma TotalLengthPrefix(fields: seq<(string, Layout)>, i: nat)
    requires i < |fields|
    ensures TotalLength(fields[..i + 1]) == FieldOffset(fields, i) + ByteLength(fields[i].1)
  {
    assert fields[..i + 1][..i] == fields[..i];
  }

  /** Each field has its own entry in the scheme, and the entries before it
      cover exactly `FieldOffset` bytes: the offset `new Struct` records for
      the field is where the scheme places it. */
  lemma {:induction false} FieldPlacement(fields: seq<(string, Layout)>, i: nat)
    requires i < |fields|
    ensures exists j :: 0 <= j < |SchemeOf(fields)| && SchemeOf(fields)[j] == Field(fields[i].0, fields[i].1) &&
                        SchemeSize(SchemeOf(fields)[..j]) == FieldOffset(fields, i)
  {
    var init := fields[..|fields| - 1];
    var last := fields[|fields| - 1];
    var pad := PadBefore(TotalLength(init), last.1);
    var s0 := SchemeOf(init);
    var s := SchemeOf(fields);
    assert s == s0 + pad + [Field(last.0, last.1)];
    if i < |init| {
      FieldPlacement(init, i);
      var j :| 0 <= j < |s0| && s0[j] == Field(init[i].0, init[i].1) && SchemeSize(s0[..j]) == FieldOffset(init, i);
      assert init[..i] == fields[..i] && init[i] == fields[i];
      assert s[..j] == s0[..j] && s[j] == s0[j];
    } else {
      LastFieldPlacement(fields);
    }
  }

  /** The last field comes after the scheme of the others and its padding. */
  lemma LastFieldPlacement(fields: seq<(string, Layout)>)
    requires fields != []
    ensures var s0 := SchemeOf(fields[..|fields| - 1]);
            var j := |s0| + |PadBefore(TotalLength(fields[..|fields| - 1]), fields[|fields| - 1].1)|;
            j < |SchemeOf(fields)| && SchemeOf(fields)[j] == Field(fields[|fields| - 1].0, fields[|fields| - 1].1) &&
            SchemeSize(SchemeOf(fields)[..j]) == FieldOffset(fields, |fields| - 1)
  {
    var init := fields[..|fields| - 1];
    var last := fields[|fields| - 1];
    var pad := PadBefore(TotalLength(init), last.1);
    var s0 := SchemeOf(init);
    var s := SchemeOf(fields);
    var j := |s0| + |pad|;
    assert s[..j] == s0 + pad && s[j] == Field(last.0, last.1);
    SchemeSizeAppend(s0, pad);
    SchemeCovers(init);
    PadBeforeSizes(TotalLength(init), last.1);
  }

  /** Fields follow one another without overlapping: each ends no later than
      the next begins. */
  lemma {:induction false} FieldsInOrder(fields: seq<(string, Layout)>, i: nat, j: nat)
    requires i < j < |fields|
    ensures FieldOffset(fields, i) + ByteLength(fields[i].1) <= FieldOffset(fields, j)
    decreases j - i
  {
    TotalLengthPrefix(fields, i);
    if i + 1 < j {
      FieldsInOrder(fields, i + 1, j);
      TotalLengthPrefix(fields, i + 1);
    }
  }

  /** No padding after the last field: the struct ends where it does. */
  lemma NoTrailingPadding(fields: seq<(string, Layout)>)
    requires fields != []
    ensures TotalLength(fields) == FieldOffset(fields, |fields| - 1) + ByteLength(fields[|fields| - 1].1)
  {
    TotalLengthPrefix(fields, |fields| - 1);
    assert fields[..|fields|] == fields;
  }

  // ---------------------------------------------------------------------
  // Tuple and TypedArray

  /** The object `Tuple` reduces its data types into: keys "0", "1", … in
      order. */
  function TupleFields(types: seq<Layout>): (fields: seq<(string, Layout)>)
    ensures |fields| == |types|
    ensures forall i :: 0 <= i < |types| ==> fields[i] == (NatToString(i), types[i])
    ensures DistinctKeys(fields)
  {
    var fields := seq(|types|, i requires 0 <= i < |types| => (NatToString(i), types[i]));
    assert DistinctKeys(fields) by {
      forall i, j | 0 <= i < j < |fields|
        ensures fields[i].0 != fields[j].0
      {
        if fields[i].0 == fields[j].0 {
          NatToStringInjective(i, j);
        }
      }
    }
    fields
  }

  /** `Tuple(...dataTypes)`: a `Struct` whose field `i` is the `i`-th data
      type. */
  method Tuple(types: seq<Layout>) returns (t: Layout)
    ensures t == StructOf(SchemeOf(TupleFields(types)), TotalLength(TupleFields(types)))
    ensures FieldEntries(t.scheme) == TupleFields(types)
  {
    t := NewStruct(TupleFields(types));
    SchemeFields(TupleFields(types));
  }

  /** Where element `i` of a typed array starts: one element length after
      element `i - 1`. `ElementOffsetFormula` gives the closed form `#init`
      computes. */
  function ElementOffset(elem: Layout, offset: nat, i: nat): nat {
    if i == 0 then offset else ElementOffset(elem, offset, i - 1) + ByteLength(elem)
  }

  /** `#init(index)` of a typed-array view: element `i` starts `i` element
      lengths after the view's offset. */
  lemma {:induction false} ElementOffsetFormula(elem: Layout, offset: nat, i: nat)
    ensures ElementOffset(elem, offset, i) == offset + i * ByteLength(elem)
  {
    if i > 0 {
      ElementOffsetFormula(elem, offset, i - 1);
      assert i * ByteLength(elem) == (i - 1) * ByteLength(elem) + ByteLength(elem);
    }
  }

  /** The elements of a typed array lie one after another inside its byte
      length. */
  lemma ElementsInside(elem: Layout, length: nat, offset: nat, i: nat)
    requires i < length
    ensures offset <= ElementOffset(elem, offset, i)
    ensures ElementOffset(elem, offset, i) + ByteLength(elem) == ElementOffset(elem, offset, i + 1)
    ensures ElementOffset(elem, offset, i + 1) <= offset + ByteLength(ArrayOf(elem, length))
  {
    ElementOffsetFormula(elem, offset, i + 1);
    MulMonotone(i + 1, length, ByteLength(elem));
  }

  lemma MulMonotone(a: nat, b: nat, c: nat)
    requires a <= b
    ensures a * c <= b * c
  {
  }
}
