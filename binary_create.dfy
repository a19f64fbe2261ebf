/** `Struct.create`, `TypedArray.create` and the views they return in
    `wasm-intro/data-structures.js`: a value is written into a buffer field
    by field, through the accessors `init` hands out, and read back through
    the same accessors.

    `Write` and `Read` are the specification: the buffer after a `create`,
    and the value every getter of the returned view gives. The methods
    `Create`, `CreateStruct` and `CreateArray` follow the source's loops
    over an `array<byte>` and are proved to leave exactly `Write`'s bytes. */
module BinaryCreate {
  import opened BinaryLayout
  import opened BinaryAccess

  /** The JavaScript values `create` is given: numbers, strings (as their
      UTF-16 code units), objects keyed by field name and arrays. */
  datatype Data =
    | Num(n: int)
    | Str(s: seq<CodeUnit>)
    | Record(fields: map<string, Data>)
    | Items(items: seq<Data>)

  function Min(a: nat, b: nat): nat {
    if a <= b then a else b
  }

  /** The value has the shape the layout asks for: a number for `U8` and
      `U16`, a string for a `FixedASCIIString`, an object with every field
      key for a `Struct`, an array for a `TypedArray` whose elements (as many
      as `create` copies) fit in turn. */
  predicate Fits(t: Layout, d: Data) {
    match t
    case U8 => d.Num?
    case U16 => d.Num?
    case FixedAscii(_) => d.Str?
    case StructOf(s, _) =>
      && d.Record?
      && forall j :: 0 <= j < |s| && s[j].Field? ==> s[j].key in d.fields && Fits(s[j].layout, d.fields[s[j].key])
    case ArrayOf(elem, length) =>
      && d.Items?
      && forall i :: 0 <= i < |d.items| && i < length ==> Fits(elem, d.items[i])
  }

  /** The value is one the layout holds without loss: numbers in range,
      strings of non-zero bytes no longer than the field, objects with
      exactly the field keys and arrays of exactly the declared length. */
  predicate Stores(t: Layout, d: Data) {
    match t
    case U8 => d.Num? && 0 <= d.n < 256
    case U16 => d.Num? && 0 <= d.n < 0x1_0000
    case FixedAscii(n) => d.Str? && |d.s| <= n && forall i :: 0 <= i < |d.s| ==> 0 < d.s[i] < 256
    case StructOf(s, _) =>
      && d.Record?
      && d.fields.Keys == KeysOf(s)
      && forall j :: 0 <= j < |s| && s[j].Field? && s[j].key in d.fields ==> Stores(s[j].layout, d.fields[s[j].key])
    case ArrayOf(elem, length) =>
      && d.Items?
      && |d.items| == length
      && forall i :: 0 <= i < length ==> Stores(elem, d.items[i])
  }

  /** The keys of the fields of a scheme. */
  function KeysOf(s: seq<Entry>): set<string> {
    if s == [] then {}
    else KeysOf(s[..|s| - 1]) + (if s[|s| - 1].Field? then {s[|s| - 1].key} else {})
  }

  function Restrict(m: map<string, Data>, keys: set<string>): map<string, Data> {
    map k | k in keys && k in m :: m[k]
  }

  // ---------------------------------------------------------------------
  // Offsets

  /** Where `create` puts entry `j` of a scheme: after the bytes of the
      entries before it. */
  function EntryOffset(s: seq<Entry>, offset: nat, j: nat): nat
    requires j <= |s|
  {
    offset + SchemeSize(s[..j])
  }

  lemma EntryOffsetStep(s: seq<Entry>, offset: nat, k: nat)
    requires 0 < k <= |s|
    ensures EntryOffset(s, offset, k) == EntryOffset(s, offset, k - 1) + EntrySize(s[k - 1])
  {
    assert s[..k] == s[..k - 1] + [s[k - 1]];
    SchemeSizeAppend(s[..k - 1], [s[k - 1]]);
  }

  lemma EntryOffsetInside(s: seq<Entry>, offset: nat, k: nat)
    requires k <= |s|
    ensures offset <= EntryOffset(s, offset, k) <= offset + SchemeSize(s)
  {
    assert s == s[..k] + s[k..];
    SchemeSizeAppend(s[..k], s[k..]);
  }

  lemma EntryOffsetEnd(s: seq<Entry>, offset: nat)
    ensures EntryOffset(s, offset, |s|) == offset + SchemeSize(s)
  {
    assert s[..|s|] == s;
  }

  lemma EntryOffsetMonotone(s: seq<Entry>, offset: nat, a: nat, b: nat)
    requires a <= b <= |s|
    ensures EntryOffset(s, offset, a) <= EntryOffset(s, offset, b)
  {
    assert s[..b] == s[..a] + s[a..b];
    SchemeSizeAppend(s[..a], s[a..b]);
  }

  /** `create` writes field `i` of a `Struct` at `offset + FieldOffset`: the
      entry of the field in the scheme sits exactly there. */
  lemma FieldEntryOffset(fields: seq<(string, Layout)>, offset: nat, i: nat)
    requires i < |fields|
    ensures exists j :: 0 <= j < |SchemeOf(fields)| && SchemeOf(fields)[j] == Field(fields[i].0, fields[i].1) &&
                        EntryOffset(SchemeOf(fields), offset, j) == offset + FieldOffset(fields, i)
  {
    FieldPlacement(fields, i);
    var j :| 0 <= j < |SchemeOf(fields)| && SchemeOf(fields)[j] == Field(fields[i].0, fields[i].1) &&
             SchemeSize(SchemeOf(fields)[..j]) == FieldOffset(fields, i);
    assert EntryOffset(SchemeOf(fields), offset, j) == offset + FieldOffset(fields, i);
  }

  /** The lowest byte a write at `offset` touches: a `U16` rounds its offset
      down to an even one, and a struct or an array starts with its first
      field or element. */
  function Lo(t: Layout, offset: nat): (lo: nat)
    ensures lo <= offset <= lo + 1
  {
    match t
    case U16 => U16Offset(offset)
    case StructOf(s, _) => if s != [] && s[0].Field? then Lo(s[0].layout, offset) else offset
    case ArrayOf(elem, length) => if length > 0 then Lo(elem, offset) else offset
    case _ => offset
  }

  /** The end of the last field among the first `k` entries, or `lo` when
      there is none: how far the bytes of those fields reach. */
  function FieldsEnd(s: seq<Entry>, lo: nat, offset: nat, k: nat): (r: nat)
    requires k <= |s| && lo <= offset
    ensures lo <= r <= EntryOffset(s, offset, k)
  {
    if k == 0 then lo
    else
      EntryOffsetStep(s, offset, k);
      if s[k - 1].Field? then EntryOffset(s, offset, k) else FieldsEnd(s, lo, offset, k - 1)
  }

  /** No field writes into the bytes of another: every field of a struct
      starts writing at or after the end of the fields before it, and every
      element of an array but the first one within its own bytes. This only
      fails where a `U16` at an odd offset reaches back one byte into an
      earlier field. */
  predicate Separated(t: Layout, offset: nat) {
    match t
    case StructOf(s, _) =>
      forall j :: 0 <= j < |s| && s[j].Field? ==>
        && Separated(s[j].layout, EntryOffset(s, offset, j))
        && FieldsEnd(s, Lo(t, offset), offset, j) <= Lo(s[j].layout, EntryOffset(s, offset, j))
    case ArrayOf(elem, length) =>
      forall i :: 0 <= i < length ==>
        && Separated(elem, ElementOffset(elem, offset, i))
        && (i > 0 ==> ElementOffset(elem, offset, i) <= Lo(elem, ElementOffset(elem, offset, i)))
    case _ => true
  }

  // ---------------------------------------------------------------------
  // Writing and reading

  /** The buffer after `t.init(buffer, offset).set(d)`, which for a struct
      or an array is `create(d, buffer, offset)`. */
  function Write(t: Layout, d: Data, mem: seq<byte>, offset: nat): (r: seq<byte>)
    requires WellFormed(t) && Fits(t, d) && offset + ByteLength(t) <= |mem|
    ensures |r| == |mem|
    decreases t, 1, 0
  {
    match t
    case U8 => WriteU8(mem, offset, d.n)
    case U16 => WriteU16(mem, offset, d.n)
    case FixedAscii(n) => WriteAscii(mem, offset, n, d.s)
    case StructOf(s, _) => WriteEntries(t, |s|, d, mem, offset)
    case ArrayOf(elem, length) => WriteItems(t, Min(length, |d.items|), d, mem, offset)
  }

  /** `Struct.create` after its first `k` entries: each field is set from
      the value's member of that name at the entry's offset; padding is
      skipped. */
  function WriteEntries(t: Layout, k: nat, d: Data, mem: seq<byte>, offset: nat): (r: seq<byte>)
    requires t.StructOf? && WellFormed(t) && Fits(t, d) && k <= |t.scheme|
    requires offset + ByteLength(t) <= |mem|
    ensures |r| == |mem|
    decreases t, 0, k
  {
    if k == 0 then mem
    else
      var m := WriteEntries(t, k - 1, d, mem, offset);
      var e := t.scheme[k - 1];
      if e.Pad? then m
      else
        EntryOffsetStep(t.scheme, offset, k);
        EntryOffsetInside(t.scheme, offset, k);
        Write(e.layout, d.fields[e.key], m, EntryOffset(t.scheme, offset, k - 1))
  }

  /** `TypedArray.create` after its first `k` elements: element `i` is set
      at `offset + i * BYTES_PER_ELEMENT`. */
  function WriteItems(t: Layout, k: nat, d: Data, mem: seq<byte>, offset: nat): (r: seq<byte>)
    requires t.ArrayOf? && WellFormed(t) && Fits(t, d) && k <= t.length && k <= |d.items|
    requires offset + ByteLength(t) <= |mem|
    ensures |r| == |mem|
    decreases t, 0, k
  {
    if k == 0 then mem
    else
      var m := WriteItems(t, k - 1, d, mem, offset);
      ElementsInside(t.elem, t.length, offset, k - 1);
      Write(t.elem, d.items[k - 1], m, ElementOffset(t.elem, offset, k - 1))
  }

  /** What the getters of a view at `offset` give: the number or text of a
      field, an object of the struct's fields, or every element of an
      array. */
  function Read(t: Layout, mem: seq<byte>, offset: nat): Data
    requires WellFormed(t) && offset + ByteLength(t) <= |mem|
    decreases t, 1, 0
  {
    match t
    case U8 => Num(ReadU8(mem, offset))
    case U16 => Num(ReadU16(mem, offset))
    case FixedAscii(n) => Str(AsciiText(mem[offset..offset + n]))
    case StructOf(s, _) => Record(ReadEntries(t, |s|, mem, offset))
    case ArrayOf(elem, length) => Items(ReadItems(t, length, mem, offset))
  }

  /** The fields of the first `k` entries of a struct view, by key. */
  function ReadEntries(t: Layout, k: nat, mem: seq<byte>, offset: nat): map<string, Data>
    requires t.StructOf? && WellFormed(t) && k <= |t.scheme| && offset + ByteLength(t) <= |mem|
    decreases t, 0, k
  {
    if k == 0 then map[]
    else
      var m := ReadEntries(t, k - 1, mem, offset);
      var e := t.scheme[k - 1];
      if e.Pad? then m
      else
        EntryOffsetStep(t.scheme, offset, k);
        EntryOffsetInside(t.scheme, offset, k);
        m[e.key := Read(e.layout, mem, EntryOffset(t.scheme, offset, k - 1))]
  }

  /** `get(i)` of a typed-array view for the first `k` indices. */
  function ReadItems(t: Layout, k: nat, mem: seq<byte>, offset: nat): (r: seq<Data>)
    requires t.ArrayOf? && WellFormed(t) && k <= t.length && offset + ByteLength(t) <= |mem|
    ensures |r| == k
    decreases t, 0, k
  {
    if k == 0 then []
    else
      ElementsInside(t.elem, t.length, offset, k - 1);
      ReadItems(t, k - 1, mem, offset) + [Read(t.elem, mem, ElementOffset(t.elem, offset, k - 1))]
  }

  // ---------------------------------------------------------------------
  // Byte ranges

  /** The two buffers differ at most in `[lo, hi)`. */
  predicate SameOutside(a: seq<byte>, b: seq<byte>, lo: nat, hi: nat) {
    |a| == |b| && forall i :: 0 <= i < |a| && (i < lo || hi <= i) ==> a[i] == b[i]
  }

  /** The two buffers agree on `[lo, hi)`. */
  predicate SameWithin(a: seq<byte>, b: seq<byte>, lo: nat, hi: nat) {
    lo <= hi <= |a| && hi <= |b| && forall i :: lo <= i < hi ==> a[i] == b[i]
  }

  lemma OutsideJoin(a: seq<byte>, b: seq<byte>, c: seq<byte>, lo: nat, hi: nat, lo1: nat, hi1: nat, lo2: nat, hi2: nat)
    requires SameOutside(a, b, lo1, hi1) && SameOutside(b, c, lo2, hi2)
    requires lo <= lo1 && lo <= lo2 && hi1 <= hi && hi2 <= hi
    ensures SameOutside(a, c, lo, hi)
  {
  }

  lemma WithinShrink(a: seq<byte>, b: seq<byte>, lo: nat, hi: nat, lo1: nat, hi1: nat)
    requires SameWithin(a, b, lo, hi) && lo <= lo1 <= hi1 <= hi
    ensures SameWithin(a, b, lo1, hi1)
  {
  }

  /** Agreement on a range carries over a write that stays clear of it. */
  lemma WithinPastWrite(a: seq<byte>, b: seq<byte>, c: seq<byte>, lo: nat, hi: nat, wlo: nat, whi: nat)
    requires SameWithin(a, b, lo, hi) && SameOutside(c, b, wlo, whi) && hi <= wlo
    ensures SameWithin(a, c, lo, hi)
  {
  }

  // ---------------------------------------------------------------------
  // What a write changes

  /** `set` changes no byte outside the value's own: from the lowest byte
      its first field writes up to the end of the layout. */
  lemma WriteFrame(t: Layout, d: Data, mem: seq<byte>, offset: nat)
    requires WellFormed(t) && Fits(t, d) && offset + ByteLength(t) <= |mem|
    requires Separated(t, offset)
    ensures SameOutside(Write(t, d, mem, offset), mem, Lo(t, offset), offset + ByteLength(t))
    decreases t, 1, 0
  {
    match t
    case U8 =>
    case U16 =>
    case FixedAscii(n) =>
    case StructOf(s, _) =>
      WriteEntriesFrame(t, |s|, d, mem, offset);
      EntryOffsetEnd(s, offset);
    case ArrayOf(elem, length) =>
      var k := Min(length, |d.items|);
      WriteItemsFrame(t, k, d, mem, offset);
      if k > 0 {
        ElementsInside(elem, length, offset, k - 1);
      }
  }

  lemma WriteEntriesFrame(t: Layout, k: nat, d: Data, mem: seq<byte>, offset: nat)
    requires t.StructOf? && WellFormed(t) && Fits(t, d) && k <= |t.scheme|
    requires offset + ByteLength(t) <= |mem| && Separated(t, offset)
    ensures SameOutside(WriteEntries(t, k, d, mem, offset), mem, Lo(t, offset), EntryOffset(t.scheme, offset, k))
    decreases t, 0, k
  {
    if k > 0 {
      var s := t.scheme;
      var m := WriteEntries(t, k - 1, d, mem, offset);
      WriteEntriesFrame(t, k - 1, d, mem, offset);
      EntryOffsetStep(s, offset, k);
      EntryOffsetInside(s, offset, k);
      var e := s[k - 1];
      if e.Field? {
        var o := EntryOffset(s, offset, k - 1);
        WriteFrame(e.layout, d.fields[e.key], m, o);
        var _ := FieldsEnd(s, Lo(t, offset), offset, k - 1);
        OutsideJoin(WriteEntries(t, k, d, mem, offset), m, mem, Lo(t, offset), EntryOffset(s, offset, k),
                    Lo(e.layout, o), o + ByteLength(e.layout), Lo(t, offset), o);
      }
    }
  }

  lemma WriteItemsFrame(t: Layout, k: nat, d: Data, mem: seq<byte>, offset: nat)
    requires t.ArrayOf? && WellFormed(t) && Fits(t, d) && k <= t.length && k <= |d.items|
    requires offset + ByteLength(t) <= |mem| && Separated(t, offset)
    ensures SameOutside(WriteItems(t, k, d, mem, offset), mem, Lo(t, offset), ElementOffset(t.elem, offset, k))
    decreases t, 0, k
  {
    if k > 0 {
      var m := WriteItems(t, k - 1, d, mem, offset);
      WriteItemsFrame(t, k - 1, d, mem, offset);
      ElementsInside(t.elem, t.length, offset, k - 1);
      var o := ElementOffset(t.elem, offset, k - 1);
      WriteFrame(t.elem, d.items[k - 1], m, o);
      OutsideJoin(WriteItems(t, k, d, mem, offset), m, mem, Lo(t, offset), ElementOffset(t.elem, offset, k),
                  Lo(t.elem, o), o + ByteLength(t.elem), Lo(t, offset), o);
    }
  }

  // ---------------------------------------------------------------------
  // What a read depends on

  /** A view reads no byte outside the value's own. */
  lemma ReadWindow(t: Layout, m1: seq<byte>, m2: seq<byte>, offset: nat)
    requires WellFormed(t) && offset + ByteLength(t) <= |m1| && offset + ByteLength(t) <= |m2|
    requires Separated(t, offset) && SameWithin(m1, m2, Lo(t, offset), offset + ByteLength(t))
    ensures Read(t, m1, offset) == Read(t, m2, offset)
    decreases t, 1, 0
  {
    match t
    case U8 =>
    case U16 =>
    case FixedAscii(n) =>
      assert m1[offset..offset + n] == m2[offset..offset + n];
    case StructOf(s, _) =>
      EntryOffsetEnd(s, offset);
      var _ := FieldsEnd(s, Lo(t, offset), offset, |s|);
      WithinShrink(m1, m2, Lo(t, offset), offset + ByteLength(t), Lo(t, offset), FieldsEnd(s, Lo(t, offset), offset, |s|));
      ReadEntriesWindow(t, |s|, m1, m2, offset);
    case ArrayOf(elem, length) =>
      if length > 0 {
        ElementsInside(elem, length, offset, length - 1);
      }
      WithinShrink(m1, m2, Lo(t, offset), offset + ByteLength(t), Lo(t, offset), ElementOffset(elem, offset, length));
      ReadItemsWindow(t, length, m1, m2, offset);
  }

  lemma ReadEntriesWindow(t: Layout, k: nat, m1: seq<byte>, m2: seq<byte>, offset: nat)
    requires t.StructOf? && WellFormed(t) && k <= |t.scheme|
    requires offset + ByteLength(t) <= |m1| && offset + ByteLength(t) <= |m2| && Separated(t, offset)
    requires SameWithin(m1, m2, Lo(t, offset), FieldsEnd(t.scheme, Lo(t, offset), offset, k))
    ensures ReadEntries(t, k, m1, offset) == ReadEntries(t, k, m2, offset)
    decreases t, 0, k
  {
    if k > 0 {
      var s := t.scheme;
      var lo := Lo(t, offset);
      EntryOffsetStep(s, offset, k);
      EntryOffsetInside(s, offset, k);
      var _ := FieldsEnd(s, lo, offset, k - 1);
      WithinShrink(m1, m2, lo, FieldsEnd(s, lo, offset, k), lo, FieldsEnd(s, lo, offset, k - 1));
      ReadEntriesWindow(t, k - 1, m1, m2, offset);
      var e := s[k - 1];
      if e.Field? {
        var o := EntryOffset(s, offset, k - 1);
        WithinShrink(m1, m2, lo, FieldsEnd(s, lo, offset, k), Lo(e.layout, o), o + ByteLength(e.layout));
        ReadWindow(e.layout, m1, m2, o);
      }
    }
  }

  lemma ReadItemsWindow(t: Layout, k: nat, m1: seq<byte>, m2: seq<byte>, offset: nat)
    requires t.ArrayOf? && WellFormed(t) && k <= t.length
    requires offset + ByteLength(t) <= |m1| && offset + ByteLength(t) <= |m2| && Separated(t, offset)
    requires SameWithin(m1, m2, Lo(t, offset), ElementOffset(t.elem, offset, k))
    ensures ReadItems(t, k, m1, offset) == ReadItems(t, k, m2, offset)
    decreases t, 0, k
  {
    if k > 0 {
      ElementsInside(t.elem, t.length, offset, k - 1);
      var o := ElementOffset(t.elem, offset, k - 1);
      WithinShrink(m1, m2, Lo(t, offset), ElementOffset(t.elem, offset, k), Lo(t, offset), o);
      ReadItemsWindow(t, k - 1, m1, m2, offset);
      WithinShrink(m1, m2, Lo(t, offset), ElementOffset(t.elem, offset, k), Lo(t.elem, o), o + ByteLength(t.elem));
      ReadWindow(t.elem, m1, m2, o);
    }
  }

  // ---------------------------------------------------------------------
  // Round trip

  /** The view `create` returns gives back the value it was given, whenever
      the value is one the layout holds and no field writes into another. */
  lemma RoundTrip(t: Layout, d: Data, mem: seq<byte>, offset: nat)
    requires WellFormed(t) && Fits(t, d) && Stores(t, d) && offset + ByteLength(t) <= |mem|
    requires Separated(t, offset)
    ensures Read(t, Write(t, d, mem, offset), offset) == d
    decreases t, 1, 0
  {
    match t
    case U8 =>
    case U16 =>
      U16RoundTrip(mem, offset, d.n);
    case FixedAscii(n) =>
      assert Write(t, d, mem, offset)[offset..offset + n] == AsciiBytes(d.s, n);
      AsciiRoundTrip(d.s, n);
    case StructOf(s, _) =>
      RoundTripStruct(t, d, mem, offset);
    case ArrayOf(elem, length) =>
      RoundTripArray(t, d, mem, offset);
  }

  lemma RoundTripStruct(t: Layout, d: Data, mem: seq<byte>, offset: nat)
    requires t.StructOf? && WellFormed(t) && Fits(t, d) && Stores(t, d) && offset + ByteLength(t) <= |mem|
    requires Separated(t, offset)
    ensures Read(t, Write(t, d, mem, offset), offset) == d
    decreases t, 0, |t.scheme| + 1
  {
    var s := t.scheme;
    var w := Write(t, d, mem, offset);
    var _ := FieldsEnd(s, Lo(t, offset), offset, |s|);
    EntryOffsetEnd(s, offset);
    assert w == WriteEntries(t, |s|, d, mem, offset);
    RoundTripEntries(t, |s|, d, mem, offset, w);
    assert s[..|s|] == s;
    assert Restrict(d.fields, KeysOf(s)) == d.fields;
  }

  lemma RoundTripArray(t: Layout, d: Data, mem: seq<byte>, offset: nat)
    requires t.ArrayOf? && WellFormed(t) && Fits(t, d) && Stores(t, d) && offset + ByteLength(t) <= |mem|
    requires Separated(t, offset)
    ensures Read(t, Write(t, d, mem, offset), offset) == d
    decreases t, 0, t.length + 1
  {
    var w := Write(t, d, mem, offset);
    if t.length > 0 {
      ElementsInside(t.elem, t.length, offset, t.length - 1);
    }
    RoundTripItems(t, t.length, d, mem, offset, w);
    assert d.items[..t.length] == d.items;
  }

  lemma RoundTripEntries(t: Layout, k: nat, d: Data, mem: seq<byte>, offset: nat, mem2: seq<byte>)
    requires t.StructOf? && WellFormed(t) && Fits(t, d) && Stores(t, d) && k <= |t.scheme|
    requires offset + ByteLength(t) <= |mem| && |mem2| == |mem| && Separated(t, offset)
    requires SameWithin(mem2, WriteEntries(t, k, d, mem, offset), Lo(t, offset), FieldsEnd(t.scheme, Lo(t, offset), offset, k))
    ensures ReadEntries(t, k, mem2, offset) == Restrict(d.fields, KeysOf(t.scheme[..k]))
    decreases t, 0, k
  {
    var s := t.scheme;
    if k == 0 {
      assert s[..0] == [];
    } else {
      var e := s[k - 1];
      assert s[..k][..k - 1] == s[..k - 1];
      EntriesBefore(t, k, d, mem, offset, mem2);
      RoundTripEntries(t, k - 1, d, mem, offset, mem2);
      if e.Field? {
        EntryRoundTrip(t, k, d, mem, offset, mem2);
        RestrictStep(d.fields, KeysOf(s[..k - 1]), e.key);
      }
    }
  }

  /** What the struct's own predicates say about its field `j`. */
  lemma EntryFacts(t: Layout, d: Data, offset: nat, j: nat)
    requires t.StructOf? && WellFormed(t) && Fits(t, d) && Separated(t, offset)
    requires j < |t.scheme| && t.scheme[j].Field?
    ensures WellFormed(t.scheme[j].layout) && t.scheme[j].key in d.fields
    ensures Fits(t.scheme[j].layout, d.fields[t.scheme[j].key])
    ensures Separated(t.scheme[j].layout, EntryOffset(t.scheme, offset, j))
    ensures FieldsEnd(t.scheme, Lo(t, offset), offset, j) <= Lo(t.scheme[j].layout, EntryOffset(t.scheme, offset, j))
  {
  }

  /** Writing field `k - 1` leaves the bytes of the fields before it as
      they were. */
  lemma EntriesBefore(t: Layout, k: nat, d: Data, mem: seq<byte>, offset: nat, mem2: seq<byte>)
    requires t.StructOf? && WellFormed(t) && Fits(t, d) && 0 < k <= |t.scheme|
    requires offset + ByteLength(t) <= |mem| && |mem2| == |mem| && Separated(t, offset)
    requires SameWithin(mem2, WriteEntries(t, k, d, mem, offset), Lo(t, offset), FieldsEnd(t.scheme, Lo(t, offset), offset, k))
    ensures SameWithin(mem2, WriteEntries(t, k - 1, d, mem, offset), Lo(t, offset), FieldsEnd(t.scheme, Lo(t, offset), offset, k - 1))
  {
    var s := t.scheme;
    var lo := Lo(t, offset);
    var m := WriteEntries(t, k - 1, d, mem, offset);
    var w := WriteEntries(t, k, d, mem, offset);
    EntryOffsetStep(s, offset, k);
    EntryOffsetInside(s, offset, k);
    var _ := FieldsEnd(s, lo, offset, k - 1);
    var e := s[k - 1];
    if e.Field? {
      var o := EntryOffset(s, offset, k - 1);
      EntryFacts(t, d, offset, k - 1);
      WriteFrame(e.layout, d.fields[e.key], m, o);
      WithinShrink(mem2, w, lo, FieldsEnd(s, lo, offset, k), lo, FieldsEnd(s, lo, offset, k - 1));
      WithinPastWrite(mem2, w, m, lo, FieldsEnd(s, lo, offset, k - 1), Lo(e.layout, o), o + ByteLength(e.layout));
    }
  }

  /** Field `k - 1` of the view reads back the member it was set from. */
  lemma EntryRoundTrip(t: Layout, k: nat, d: Data, mem: seq<byte>, offset: nat, mem2: seq<byte>)
    requires t.StructOf? && WellFormed(t) && Fits(t, d) && Stores(t, d) && 0 < k <= |t.scheme|
    requires t.scheme[k - 1].Field?
    requires offset + ByteLength(t) <= |mem| && |mem2| == |mem| && Separated(t, offset)
    requires SameWithin(mem2, WriteEntries(t, k, d, mem, offset), Lo(t, offset), FieldsEnd(t.scheme, Lo(t, offset), offset, k))
    ensures EntryOffset(t.scheme, offset, k - 1) + ByteLength(t.scheme[k - 1].layout) <= |mem2|
    ensures t.scheme[k - 1].key in d.fields
    ensures Read(t.scheme[k - 1].layout, mem2, EntryOffset(t.scheme, offset, k - 1)) == d.fields[t.scheme[k - 1].key]
    decreases t, 0, k - 1
  {
    var s := t.scheme;
    var lo := Lo(t, offset);
    var e := s[k - 1];
    var o := EntryOffset(s, offset, k - 1);
    var v := d.fields[e.key];
    var m := WriteEntries(t, k - 1, d, mem, offset);
    var w := WriteEntries(t, k, d, mem, offset);
    EntryOffsetStep(s, offset, k);
    EntryOffsetInside(s, offset, k);
    EntryFacts(t, d, offset, k - 1);
    assert Stores(e.layout, v);
    var _ := FieldsEnd(s, lo, offset, k - 1);
    WithinShrink(mem2, w, lo, FieldsEnd(s, lo, offset, k), Lo(e.layout, o), o + ByteLength(e.layout));
    ReadWindow(e.layout, mem2, w, o);
    RoundTrip(e.layout, v, m, o);
  }

  lemma RestrictStep(m: map<string, Data>, keys: set<string>, key: string)
    requires key in m
    ensures Restrict(m, keys + {key}) == Restrict(m, keys)[key := m[key]]
  {
  }

  lemma RoundTripItems(t: Layout, k: nat, d: Data, mem: seq<byte>, offset: nat, mem2: seq<byte>)
    requires t.ArrayOf? && WellFormed(t) && Fits(t, d) && k <= t.length && k <= |d.items|
    requires forall i :: 0 <= i < k ==> Stores(t.elem, d.items[i])
    requires offset + ByteLength(t) <= |mem| && |mem2| == |mem| && Separated(t, offset)
    requires SameWithin(mem2, WriteItems(t, k, d, mem, offset), Lo(t, offset), ElementOffset(t.elem, offset, k))
    ensures ReadItems(t, k, mem2, offset) == d.items[..k]
    decreases t, 0, k
  {
    if k > 0 {
      ItemRoundTrip(t, k, d, mem, offset, mem2);
      if k > 1 {
        ItemsBefore(t, k, d, mem, offset, mem2);
        RoundTripItems(t, k - 1, d, mem, offset, mem2);
      } else {
        assert d.items[..0] == [];
      }
      ItemsStep(t, k, mem2, offset, d.items);
    }
  }

  lemma ItemsStep(t: Layout, k: nat, mem: seq<byte>, offset: nat, items: seq<Data>)
    requires t.ArrayOf? && WellFormed(t) && 0 < k <= t.length && k <= |items| && offset + ByteLength(t) <= |mem|
    requires ReadItems(t, k - 1, mem, offset) == items[..k - 1]
    requires ElementOffset(t.elem, offset, k - 1) + ByteLength(t.elem) <= |mem|
    requires Read(t.elem, mem, ElementOffset(t.elem, offset, k - 1)) == items[k - 1]
    ensures ReadItems(t, k, mem, offset) == items[..k]
  {
    assert items[..k] == items[..k - 1] + [items[k - 1]];
  }

  /** What the array's own predicates say about its element `i`. */
  lemma ItemFacts(t: Layout, d: Data, offset: nat, i: nat)
    requires t.ArrayOf? && WellFormed(t) && Fits(t, d) && Separated(t, offset)
    requires i < t.length && i < |d.items|
    ensures WellFormed(t.elem) && Fits(t.elem, d.items[i])
    ensures Separated(t.elem, ElementOffset(t.elem, offset, i))
    ensures Lo(t, offset) <= Lo(t.elem, ElementOffset(t.elem, offset, i))
    ensures i > 0 ==> ElementOffset(t.elem, offset, i) <= Lo(t.elem, ElementOffset(t.elem, offset, i))
  {
    ElementsInside(t.elem, t.length, offset, i);
  }

  /** Writing element `k - 1` leaves the elements before it as they were. */
  lemma ItemsBefore(t: Layout, k: nat, d: Data, mem: seq<byte>, offset: nat, mem2: seq<byte>)
    requires t.ArrayOf? && WellFormed(t) && Fits(t, d) && 1 < k <= t.length && k <= |d.items|
    requires offset + ByteLength(t) <= |mem| && |mem2| == |mem| && Separated(t, offset)
    requires SameWithin(mem2, WriteItems(t, k, d, mem, offset), Lo(t, offset), ElementOffset(t.elem, offset, k))
    ensures SameWithin(mem2, WriteItems(t, k - 1, d, mem, offset), Lo(t, offset), ElementOffset(t.elem, offset, k - 1))
  {
    var lo := Lo(t, offset);
    var m := WriteItems(t, k - 1, d, mem, offset);
    var w := WriteItems(t, k, d, mem, offset);
    ElementsInside(t.elem, t.length, offset, k - 1);
    var o := ElementOffset(t.elem, offset, k - 1);
    ItemFacts(t, d, offset, k - 1);
    WriteFrame(t.elem, d.items[k - 1], m, o);
    WithinShrink(mem2, w, lo, ElementOffset(t.elem, offset, k), lo, o);
    WithinPastWrite(mem2, w, m, lo, o, Lo(t.elem, o), o + ByteLength(t.elem));
  }

  /** Element `k - 1` of the view reads back the element it was set from. */
  lemma ItemRoundTrip(t: Layout, k: nat, d: Data, mem: seq<byte>, offset: nat, mem2: seq<byte>)
    requires t.ArrayOf? && WellFormed(t) && Fits(t, d) && 0 < k <= t.length && k <= |d.items|
    requires Stores(t.elem, d.items[k - 1])
    requires offset + ByteLength(t) <= |mem| && |mem2| == |mem| && Separated(t, offset)
    requires SameWithin(mem2, WriteItems(t, k, d, mem, offset), Lo(t, offset), ElementOffset(t.elem, offset, k))
    ensures ElementOffset(t.elem, offset, k - 1) + ByteLength(t.elem) <= |mem2|
    ensures Read(t.elem, mem2, ElementOffset(t.elem, offset, k - 1)) == d.items[k - 1]
    decreases t, 0, k - 1
  {
    var lo := Lo(t, offset);
    var m := WriteItems(t, k - 1, d, mem, offset);
    var w := WriteItems(t, k, d, mem, offset);
    ElementsInside(t.elem, t.length, offset, k - 1);
    var o := ElementOffset(t.elem, offset, k - 1);
    var v := d.items[k - 1];
    ItemFacts(t, d, offset, k - 1);
    WithinShrink(mem2, w, lo, ElementOffset(t.elem, offset, k), Lo(t.elem, o), o + ByteLength(t.elem));
    ReadWindow(t.elem, mem2, w, o);
    RoundTrip(t.elem, v, m, o);
  }

  // ---------------------------------------------------------------------
  // Typed-array views

  /** `get(i)` of a typed-array view is the value at element `i`'s offset. */
  lemma {:induction false} ReadItemsAt(t: Layout, k: nat, mem: seq<byte>, offset: nat, i: nat)
    requires t.ArrayOf? && WellFormed(t) && k <= t.length && offset + ByteLength(t) <= |mem| && i < k
    ensures ElementOffset(t.elem, offset, i) + ByteLength(t.elem) <= |mem|
    ensures ReadItems(t, k, mem, offset)[i] == Read(t.elem, mem, ElementOffset(t.elem, offset, i))
  {
    ElementsInside(t.elem, t.length, offset, i);
    if i < k - 1 {
      ReadItemsAt(t, k - 1, mem, offset, i);
    }
  }

  /** `TypedArray.create` copies no more elements than `min(length,
      data.length)`: the bytes of the elements past the end of a shorter
      array keep what they held. */
  lemma ArrayCreateStops(t: Layout, d: Data, mem: seq<byte>, offset: nat)
    requires t.ArrayOf? && WellFormed(t) && Fits(t, d) && offset + ByteLength(t) <= |mem|
    requires Separated(t, offset)
    ensures forall i :: ElementOffset(t.elem, offset, Min(t.length, |d.items|)) <= i < |mem| ==> Write(t, d, mem, offset)[i] == mem[i]
  {
    WriteItemsFrame(t, Min(t.length, |d.items|), d, mem, offset);
  }

  /** `get(i)` of the view `TypedArray.create` returns gives back
      `data[i]` for every index it copied, whatever the array's declared
      length, as long as those elements are ones the element layout holds. */
  lemma GetAfterCreate(t: Layout, d: Data, mem: seq<byte>, offset: nat, i: nat)
    requires t.ArrayOf? && WellFormed(t) && Fits(t, d) && offset + ByteLength(t) <= |mem|
    requires Separated(t, offset)
    requires forall j :: 0 <= j < Min(t.length, |d.items|) ==> Stores(t.elem, d.items[j])
    requires i < t.length && i < |d.items|
    ensures ElementOffset(t.elem, offset, i) + ByteLength(t.elem) <= |mem|
    ensures Read(t.elem, Write(t, d, mem, offset), ElementOffset(t.elem, offset, i)) == d.items[i]
  {
    var k := Min(t.length, |d.items|);
    var w := Write(t, d, mem, offset);
    ElementsInside(t.elem, t.length, offset, k - 1);
    RoundTripItems(t, k, d, mem, offset, w);
    ReadItemsAt(t, k, w, offset, i);
  }

  // ---------------------------------------------------------------------
  // Where the rounding of `U16` does no harm

  /** Every `U16` inside the layout sits at an even address. */
  predicate EvenU16(t: Layout, offset: nat) {
    match t
    case U16 => offset % 2 == 0
    case StructOf(s, _) =>
      forall j :: 0 <= j < |s| && s[j].Field? ==> EvenU16(s[j].layout, EntryOffset(s, offset, j))
    case ArrayOf(elem, length) =>
      forall i :: 0 <= i < length ==> EvenU16(elem, ElementOffset(elem, offset, i))
    case _ => true
  }

  /** With every `U16` at an even address, no write reaches below its own
      offset and the fields are separated. */
  lemma EvenSeparated(t: Layout, offset: nat)
    requires EvenU16(t, offset)
    ensures Lo(t, offset) == offset && Separated(t, offset)
  {
    match t
    case U8 =>
    case U16 =>
    case FixedAscii(_) =>
    case StructOf(s, _) =>
      forall j | 0 <= j < |s| && s[j].Field?
        ensures Separated(s[j].layout, EntryOffset(s, offset, j))
        ensures FieldsEnd(s, Lo(t, offset), offset, j) <= Lo(s[j].layout, EntryOffset(s, offset, j))
      {
        EvenSeparated(s[j].layout, EntryOffset(s, offset, j));
        if s != [] && s[0].Field? {
          EvenSeparated(s[0].layout, offset);
          assert EntryOffset(s, offset, 0) == offset;
        }
      }
      if s != [] && s[0].Field? {
        assert s[..0] == [];
        EvenSeparated(s[0].layout, offset);
      }
    case ArrayOf(elem, length) =>
      forall i | 0 <= i < length
        ensures Separated(elem, ElementOffset(elem, offset, i))
        ensures Lo(elem, ElementOffset(elem, offset, i)) == ElementOffset(elem, offset, i)
      {
        EvenSeparated(elem, ElementOffset(elem, offset, i));
      }
      if length > 0 {
        assert ElementOffset(elem, offset, 0) == offset;
      }
  }

  /** With every `U16` at an even address, `Struct.create` leaves the bytes
      of each padding entry as they were: padding is skipped, and no field
      reaches into it. */
  lemma PaddingUntouched(t: Layout, d: Data, mem: seq<byte>, offset: nat, j: nat)
    requires t.StructOf? && WellFormed(t) && Fits(t, d) && offset + ByteLength(t) <= |mem|
    requires EvenU16(t, offset)
    requires j < |t.scheme| && t.scheme[j].Pad?
    ensures EntryOffset(t.scheme, offset, j) + t.scheme[j].size <= |mem|
    ensures SameWithin(Write(t, d, mem, offset), mem, EntryOffset(t.scheme, offset, j), EntryOffset(t.scheme, offset, j) + t.scheme[j].size)
  {
    EntryOffsetStep(t.scheme, offset, j + 1);
    EntryOffsetInside(t.scheme, offset, j + 1);
    PaddingUntouchedEntries(t, |t.scheme|, d, mem, offset, j);
  }

  lemma {:induction false} PaddingUntouchedEntries(t: Layout, k: nat, d: Data, mem: seq<byte>, offset: nat, j: nat)
    requires t.StructOf? && WellFormed(t) && Fits(t, d) && k <= |t.scheme| && offset + ByteLength(t) <= |mem|
    requires EvenU16(t, offset)
    requires j < |t.scheme| && t.scheme[j].Pad?
    ensures EntryOffset(t.scheme, offset, j + 1) <= |mem|
    ensures SameWithin(WriteEntries(t, k, d, mem, offset), mem, EntryOffset(t.scheme, offset, j), EntryOffset(t.scheme, offset, j + 1))
  {
    EntryOffsetMonotone(t.scheme, offset, j, j + 1);
    EntryOffsetInside(t.scheme, offset, j + 1);
    if k > 0 {
      PaddingUntouchedEntries(t, k - 1, d, mem, offset, j);
      PaddingPastEntry(t, k, d, mem, offset, j);
    }
  }

  /** One more entry of `create` keeps the padding entry `j` as the entries
      before it left it. */
  lemma PaddingPastEntry(t: Layout, k: nat, d: Data, mem: seq<byte>, offset: nat, j: nat)
    requires t.StructOf? && WellFormed(t) && Fits(t, d) && 0 < k <= |t.scheme| && offset + ByteLength(t) <= |mem|
    requires EvenU16(t, offset)
    requires j < |t.scheme| && t.scheme[j].Pad?
    requires EntryOffset(t.scheme, offset, j) <= EntryOffset(t.scheme, offset, j + 1) <= |mem|
    requires SameWithin(WriteEntries(t, k - 1, d, mem, offset), mem, EntryOffset(t.scheme, offset, j), EntryOffset(t.scheme, offset, j + 1))
    ensures SameWithin(WriteEntries(t, k, d, mem, offset), mem, EntryOffset(t.scheme, offset, j), EntryOffset(t.scheme, offset, j + 1))
  {
    var s := t.scheme;
    var e := s[k - 1];
    if e.Field? {
      var o := EntryOffset(s, offset, k - 1);
      EntryOffsetStep(s, offset, k);
      EntryOffsetInside(s, offset, k);
      if k - 1 < j {
        EntryOffsetMonotone(s, offset, k, j);
      } else {
        EntryOffsetMonotone(s, offset, j + 1, k - 1);
      }
      WriteKeepsClearRange(e.layout, d.fields[e.key], WriteEntries(t, k - 1, d, mem, offset), mem, o,
                           EntryOffset(s, offset, j), EntryOffset(s, offset, j + 1));
    }
  }

  /** A write with every `U16` at an even address keeps a range it does not
      overlap. */
  lemma WriteKeepsClearRange(t: Layout, d: Data, m: seq<byte>, mem: seq<byte>, offset: nat, lo: nat, hi: nat)
    requires WellFormed(t) && Fits(t, d) && offset + ByteLength(t) <= |m| && EvenU16(t, offset)
    requires SameWithin(m, mem, lo, hi)
    requires hi <= offset || offset + ByteLength(t) <= lo
    ensures SameWithin(Write(t, d, m, offset), mem, lo, hi)
  {
    EvenSeparated(t, offset);
    WriteFrame(t, d, m, offset);
  }

  // ---------------------------------------------------------------------
  // The loops of `create`

  /** `dataType.init(buffer, offset).set(value)` for any layout. */
  method Create(t: Layout, d: Data, buf: array<byte>, offset: nat)
    requires WellFormed(t) && Fits(t, d) && offset + ByteLength(t) <= buf.Length
    modifies buf
    ensures buf[..] == Write(t, d, old(buf[..]), offset)
    decreases t, 1
  {
    match t
    case U8 =>
      buf[offset] := d.n % 256;
    case U16 =>
      var o := U16Offset(offset);
      var value := d.n % 0x1_0000;
      buf[o] := value % 256;
      buf[o + 1] := value / 256;
    case FixedAscii(n) =>
      SetAscii(buf, offset, n, d.s);
    case StructOf(_, _) =>
      CreateStruct(t, d, buf, offset);
    case ArrayOf(_, _) =>
      CreateArray(t, d, buf, offset);
  }

  /** `Struct.create`: walks the scheme, sets each field that is not
      padding, and moves the offset past every entry. */
  method CreateStruct(t: Layout, d: Data, buf: array<byte>, offset: nat)
    requires t.StructOf? && WellFormed(t) && Fits(t, d) && offset + ByteLength(t) <= buf.Length
    modifies buf
    ensures buf[..] == Write(t, d, old(buf[..]), offset)
    decreases t, 0
  {
    var s := t.scheme;
    var current := offset;
    for k := 0 to |s|
      invariant current == EntryOffset(s, offset, k)
      invariant buf[..] == WriteEntries(t, k, d, old(buf[..]), offset)
    {
      EntryOffsetStep(s, offset, k + 1);
      EntryOffsetInside(s, offset, k + 1);
      if s[k].Field? {
        Create(s[k].layout, d.fields[s[k].key], buf, current);
      }
      current := current + EntrySize(s[k]);
    }
  }

  /** `TypedArray.create`: sets element `i` for every `i` below both the
      array's length and the data's. */
  method CreateArray(t: Layout, d: Data, buf: array<byte>, offset: nat)
    requires t.ArrayOf? && WellFormed(t) && Fits(t, d) && offset + ByteLength(t) <= buf.Length
    modifies buf
    ensures buf[..] == Write(t, d, old(buf[..]), offset)
    decreases t, 0
  {
    var i := 0;
    while i < t.length && i < |d.items|
      invariant i <= t.length && i <= |d.items|
      invariant buf[..] == WriteItems(t, i, d, old(buf[..]), offset)
    {
      ElementsInside(t.elem, t.length, offset, i);
      SetElement(t.elem, offset, i, d.items[i], buf);
      i := i + 1;
    }
  }

  /** `set(index, value)` of a typed-array view: the element layout's `set`
      at the index's offset. Like the source, it does not compare the index
      with the array's length; the buffer must hold the element. */
  method SetElement(elem: Layout, offset: nat, i: nat, v: Data, buf: array<byte>)
    requires WellFormed(elem) && Fits(elem, v) && ElementOffset(elem, offset, i) + ByteLength(elem) <= buf.Length
    modifies buf
    ensures buf[..] == Write(elem, v, old(buf[..]), ElementOffset(elem, offset, i))
    decreases elem, 2
  {
    Create(elem, v, buf, ElementOffset(elem, offset, i));
  }

  /** `create(data)` with the default buffer: a fresh zeroed `ArrayBuffer`
      of the layout's byte length, written from offset 0. */
  method CreateNew(t: Layout, d: Data) returns (buf: array<byte>)
    requires WellFormed(t) && Fits(t, d)
    ensures fresh(buf) && buf.Length == ByteLength(t)
    ensures buf[..] == Write(t, d, seq(ByteLength(t), _ => 0), 0)
  {
    buf := new byte[ByteLength(t)](_ => 0);
    assert buf[..] == seq(ByteLength(t), _ => 0);
    Create(t, d, buf, 0);
  }
}
