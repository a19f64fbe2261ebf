/** The layouts of `wasm-intro/data-structures.js`: `Color`, `Person` and
    the `PersonArray` it fills with three people, and a struct where the
    rounding of `U16` overwrites a neighbouring field. */
module BinaryExamples {
  import opened Decimal
  import opened BinaryLayout
  import opened BinaryAccess
  import opened BinaryCreate

  /** The scheme and length of a struct grown by one field. */
  lemma Snoc(fs: seq<(string, Layout)>, f: (string, Layout), s0: seq<Entry>, n0: nat)
    requires SchemeOf(fs) == s0 && TotalLength(fs) == n0
    ensures SchemeOf(fs + [f]) == s0 + PadBefore(n0, f.1) + [Field(f.0, f.1)]
    ensures TotalLength(fs + [f]) == n0 + GetAlignment(n0, Alignment(f.1)) + ByteLength(f.1)
  {
    assert (fs + [f])[..|fs|] == fs;
  }

  lemma KeysSnoc(s: seq<Entry>, e: Entry)
    ensures KeysOf(s + [e]) == KeysOf(s) + (if e.Field? then {e.key} else {})
  {
    assert (s + [e])[..|s|] == s;
  }

  // ---------------------------------------------------------------------
  // Color = Tuple(U8, U8, U8)

  const ColorFields: seq<(string, Layout)> := TupleFields([U8, U8, U8])

  const Color: Layout := StructOf(SchemeOf(ColorFields), TotalLength(ColorFields))

  const ColorScheme: seq<Entry> := [Field("0", U8), Field("1", U8), Field("2", U8)]

  /** `Color` is three bytes under the keys "0", "1" and "2", with no
      padding. */
  lemma ColorLayout()
    ensures Color == StructOf(ColorScheme, 3)
  {
    assert NatToString(0) == "0" && NatToString(1) == "1" && NatToString(2) == "2";
    var f0, f1, f2 := ("0", U8), ("1", U8), ("2", U8);
    assert ColorFields == [f0, f1, f2];
    Snoc([], f0, [], 0);
    assert [] + [f0] == [f0];
    Snoc([f0], f1, [Field("0", U8)], 1);
    assert [f0] + [f1] == [f0, f1];
    Snoc([f0, f1], f2, [Field("0", U8), Field("1", U8)], 2);
    assert [f0, f1] + [f2] == [f0, f1, f2];
  }

  // ---------------------------------------------------------------------
  // Person

  const PersonFields: seq<(string, Layout)> :=
    [("age", U8), ("id", U16), ("firstName", FixedAscii(8)), ("lastName", FixedAscii(8)), ("color", Color)]

  const Person: Layout := StructOf(SchemeOf(PersonFields), TotalLength(PersonFields))

  const PersonScheme: seq<Entry> :=
    [Field("age", U8), Pad(1), Field("id", U16), Field("firstName", FixedAscii(8)),
     Field("lastName", FixedAscii(8)), Field("color", Color)]

  /** `Person`: one padding byte after `age` puts `id` at offset 2; the
      names follow at 4 and 12 and the colour at 20, 23 bytes in all. */
  lemma PersonLayout()
    ensures Person == StructOf(PersonScheme, 23)
  {
    var f0, f1, f2, f3, f4 := ("age", U8), ("id", U16), ("firstName", FixedAscii(8)), ("lastName", FixedAscii(8)), ("color", Color);
    ColorLayout();
    PersonNames();
    Snoc([f0, f1, f2, f3], f4, PersonScheme[..5], 20);
    assert [f0, f1, f2, f3] + [f4] == PersonFields;
    assert PersonScheme[..5] + [Field("color", Color)] == PersonScheme;
  }

  /** The two names follow `id` without padding, at 4 and 12. */
  lemma PersonNames()
    ensures SchemeOf([("age", U8), ("id", U16), ("firstName", FixedAscii(8)), ("lastName", FixedAscii(8))]) == PersonScheme[..5]
    ensures TotalLength([("age", U8), ("id", U16), ("firstName", FixedAscii(8)), ("lastName", FixedAscii(8))]) == 20
  {
    var f0, f1, f2, f3 := ("age", U8), ("id", U16), ("firstName", FixedAscii(8)), ("lastName", FixedAscii(8));
    PersonFirstName();
    Snoc([f0, f1, f2], f3, PersonScheme[..4], 12);
    assert [f0, f1, f2] + [f3] == [f0, f1, f2, f3];
    assert PersonScheme[..4] + [Field("lastName", FixedAscii(8))] == PersonScheme[..5];
  }

  lemma PersonFirstName()
    ensures SchemeOf([("age", U8), ("id", U16), ("firstName", FixedAscii(8))]) == PersonScheme[..4]
    ensures TotalLength([("age", U8), ("id", U16), ("firstName", FixedAscii(8))]) == 12
  {
    var f0, f1, f2 := ("age", U8), ("id", U16), ("firstName", FixedAscii(8));
    PersonPrefix();
    Snoc([f0, f1], f2, PersonScheme[..3], 4);
    assert [f0, f1] + [f2] == [f0, f1, f2];
    assert PersonScheme[..3] + [Field("firstName", FixedAscii(8))] == PersonScheme[..4];
  }

  /** `age` and then `id`: `id` needs one padding byte, and the two end at
      byte 4. */
  lemma PersonPrefix()
    ensures SchemeOf([("age", U8), ("id", U16)]) == PersonScheme[..3]
    ensures TotalLength([("age", U8), ("id", U16)]) == 4
  {
    var f0, f1 := ("age", U8), ("id", U16);
    Snoc([], f0, [], 0);
    assert [] + [f0] == [f0];
    Snoc([f0], f1, [Field("age", U8)], 1);
    assert [f0] + [f1] == [f0, f1];
  }

  /** Where each field of a `Person` at `offset` starts. */
  lemma PersonOffsets(offset: nat)
    ensures EntryOffset(PersonScheme, offset, 0) == offset
    ensures EntryOffset(PersonScheme, offset, 1) == offset + 1
    ensures EntryOffset(PersonScheme, offset, 2) == offset + 2
    ensures EntryOffset(PersonScheme, offset, 3) == offset + 4
    ensures EntryOffset(PersonScheme, offset, 4) == offset + 12
    ensures EntryOffset(PersonScheme, offset, 5) == offset + 20
  {
    ColorLayout();
    var s := PersonScheme;
    assert s[..0] == [];
    EntryOffsetStep(s, offset, 1);
    EntryOffsetStep(s, offset, 2);
    EntryOffsetStep(s, offset, 3);
    EntryOffsetStep(s, offset, 4);
    EntryOffsetStep(s, offset, 5);
  }

  lemma ColorSeparated(offset: nat)
    ensures Lo(Color, offset) == offset && Separated(Color, offset)
  {
    ColorLayout();
    var s := ColorScheme;
    assert s[..0] == [];
    EntryOffsetStep(s, offset, 1);
    EntryOffsetStep(s, offset, 2);
  }

  /** Wherever a `Person` starts, its fields are separated: at an odd
      offset `id` rounds down into the padding byte, which belongs to no
      field. */
  lemma PersonSeparated(offset: nat)
    ensures Lo(Person, offset) == offset && Separated(Person, offset)
  {
    PersonLayout();
    PersonOffsets(offset);
    ColorSeparated(offset + 20);
    var s := PersonScheme;
    assert Person.scheme[0] == Field("age", U8);
    assert Lo(Person, offset) == Lo(U8, offset);
    var lo := Lo(Person, offset);
    assert lo == offset;
    assert FieldsEnd(s, lo, offset, 2) == offset + 1;
    assert FieldsEnd(s, lo, offset, 3) == offset + 4;
    assert FieldsEnd(s, lo, offset, 4) == offset + 12;
    assert FieldsEnd(s, lo, offset, 5) == offset + 20;
  }

  /** `new TypedArray(Person, 1e5)`. */
  const PersonArray: Layout := ArrayOf(Person, 100000)

  lemma PersonArraySeparated()
    ensures Separated(PersonArray, 0)
  {
    forall i | 0 <= i < 100000
      ensures Separated(Person, ElementOffset(Person, 0, i))
      ensures Lo(Person, ElementOffset(Person, 0, i)) == ElementOffset(Person, 0, i)
    {
      PersonSeparated(ElementOffset(Person, 0, i));
    }
  }

  // ---------------------------------------------------------------------
  // The three people

  /** The UTF-16 code units of a string of basic characters. */
  function Units(s: string): (r: seq<CodeUnit>)
    requires forall i :: 0 <= i < |s| ==> s[i] as int < 0x1_0000
    ensures |r| == |s| && forall i :: 0 <= i < |s| ==> r[i] == s[i] as int
  {
    seq(|s|, i requires 0 <= i < |s| => s[i] as int)
  }

  function RGB(r: int, g: int, b: int): Data {
    Record(map["0" := Num(r), "1" := Num(g), "2" := Num(b)])
  }

  function PersonData(age: int, id: int, firstName: string, lastName: string, color: Data): Data
    requires forall i :: 0 <= i < |firstName| ==> firstName[i] as int < 0x1_0000
    requires forall i :: 0 <= i < |lastName| ==> lastName[i] as int < 0x1_0000
  {
    Record(map["age" := Num(age), "id" := Num(id), "firstName" := Str(Units(firstName)),
               "lastName" := Str(Units(lastName)), "color" := color])
  }

  const People: Data := Items([
    PersonData(25, 1, "John", "Doe", RGB(0xff, 0x00, 0x00)),
    PersonData(30, 2, "Jane", "Doe", RGB(0x00, 0xff, 0x00)),
    PersonData(35, 3, "Jim", "Beam", RGB(0x00, 0x00, 0xff))])

  lemma ColorStores(r: int, g: int, b: int)
    requires 0 <= r < 256 && 0 <= g < 256 && 0 <= b < 256
    ensures Fits(Color, RGB(r, g, b)) && Stores(Color, RGB(r, g, b))
  {
    ColorLayout();
    ColorKeys();
  }

  lemma ColorKeys()
    ensures KeysOf(ColorScheme) == {"0", "1", "2"}
  {
    var e0, e1, e2 := Field("0", U8), Field("1", U8), Field("2", U8);
    KeysSnoc([], e0);
    assert [] + [e0] == [e0];
    KeysSnoc([e0], e1);
    assert [e0] + [e1] == [e0, e1];
    KeysSnoc([e0, e1], e2);
    assert [e0, e1] + [e2] == ColorScheme;
  }

  lemma PersonKeys()
    ensures KeysOf(PersonScheme) == {"age", "id", "firstName", "lastName", "color"}
  {
    var e0, e1, e2, e3, e4, e5 := Field("age", U8), Pad(1), Field("id", U16), Field("firstName", FixedAscii(8)),
                                  Field("lastName", FixedAscii(8)), Field("color", Color);
    KeysSnoc([], e0);
    assert [] + [e0] == [e0];
    KeysSnoc([e0], e1);
    assert [e0] + [e1] == [e0, e1];
    KeysSnoc([e0, e1], e2);
    assert [e0, e1] + [e2] == [e0, e1, e2];
    KeysSnoc([e0, e1, e2], e3);
    assert [e0, e1, e2] + [e3] == [e0, e1, e2, e3];
    KeysSnoc([e0, e1, e2, e3], e4);
    assert [e0, e1, e2, e3] + [e4] == [e0, e1, e2, e3, e4];
    KeysSnoc([e0, e1, e2, e3, e4], e5);
    assert [e0, e1, e2, e3, e4] + [e5] == PersonScheme;
  }

  lemma PersonWellFormed()
    ensures WellFormed(Color) && WellFormed(Person) && WellFormed(PersonArray)
  {
    SchemeWellFormed(ColorFields);
    assert forall i :: 0 <= i < |PersonFields| ==> WellFormed(PersonFields[i].1);
    SchemeWellFormed(PersonFields);
  }

  lemma NameStores(s: string)
    requires |s| <= 8 && forall i :: 0 <= i < |s| ==> 0 < s[i] as int < 128
    ensures Stores(FixedAscii(8), Str(Units(s)))
  {
  }

  lemma PersonStores(age: int, id: int, firstName: string, lastName: string, r: int, g: int, b: int)
    requires 0 <= age < 256 && 0 <= id < 0x1_0000 && 0 <= r < 256 && 0 <= g < 256 && 0 <= b < 256
    requires |firstName| <= 8 && forall i :: 0 <= i < |firstName| ==> 0 < firstName[i] as int < 128
    requires |lastName| <= 8 && forall i :: 0 <= i < |lastName| ==> 0 < lastName[i] as int < 128
    ensures Fits(Person, PersonData(age, id, firstName, lastName, RGB(r, g, b)))
    ensures Stores(Person, PersonData(age, id, firstName, lastName, RGB(r, g, b)))
  {
    PersonLayout();
    ColorStores(r, g, b);
    NameStores(firstName);
    NameStores(lastName);
    PersonKeys();
  }

  lemma PeopleFit()
    ensures Fits(PersonArray, People)
    ensures forall j :: 0 <= j < 3 ==> Stores(Person, People.items[j])
  {
    PersonStores(25, 1, "John", "Doe", 0xff, 0x00, 0x00);
    PersonStores(30, 2, "Jane", "Doe", 0x00, 0xff, 0x00);
    PersonStores(35, 3, "Jim", "Beam", 0x00, 0x00, 0xff);
  }

  /** `PersonArray.create(...)` into a fresh buffer, then `data.get(2)`:
      the third person comes back with first name "Jim", last name "Beam",
      age 35 and id 3. */
  lemma ThirdPerson()
    ensures ByteLength(PersonArray) == 2300000
    ensures WellFormed(PersonArray) && Fits(PersonArray, People)
    ensures ElementOffset(Person, 0, 2) + ByteLength(Person) <= ByteLength(PersonArray)
    ensures
      var mem := Write(PersonArray, People, seq(ByteLength(PersonArray), _ => 0), 0);
      Read(Person, mem, ElementOffset(Person, 0, 2)) == PersonData(35, 3, "Jim", "Beam", RGB(0x00, 0x00, 0xff))
  {
    PersonLayout();
    PersonWellFormed();
    PersonArraySeparated();
    PeopleFit();
    var zeros := seq(ByteLength(PersonArray), _ => 0);
    GetAfterCreate(PersonArray, People, zeros, 0, 2);
  }

  // ---------------------------------------------------------------------
  // A U16 inside a struct that starts at an odd offset

  const InnerFields: seq<(string, Layout)> := TupleFields([U16])

  /** `Tuple(U16)`. */
  const Inner: Layout := StructOf(SchemeOf(InnerFields), TotalLength(InnerFields))

  const OuterFields: seq<(string, Layout)> := [("a", U8), ("b", Inner)]

  /** `new Struct({ a: U8, b: Tuple(U16) })`. */
  const Outer: Layout := StructOf(SchemeOf(OuterFields), TotalLength(OuterFields))

  lemma OuterLayout()
    ensures Inner == StructOf([Field("0", U16)], 2)
    ensures Outer == StructOf([Field("a", U8), Field("b", Inner)], 3)
  {
    assert NatToString(0) == "0";
    assert InnerFields == [("0", U16)];
    Snoc([], ("0", U16), [], 0);
    assert [] + [("0", U16)] == [("0", U16)];
    Snoc([], ("a", U8), [], 0);
    assert [] + [("a", U8)] == [("a", U8)];
    Snoc([("a", U8)], ("b", Inner), [Field("a", U8)], 1);
    assert [("a", U8)] + [("b", Inner)] == OuterFields;
  }

  /** `{ a: 7, b: [0x0102] }`, with the array given to the tuple as the
      object of its indices. */
  const OuterData: Data := Record(map["a" := Num(7), "b" := Record(map["0" := Num(0x0102)])])

  lemma OuterStores()
    ensures WellFormed(Outer) && Fits(Outer, OuterData) && Stores(Outer, OuterData)
  {
    OuterLayout();
    var s := [Field("a", U8), Field("b", Inner)];
    assert s[..1] == [Field("a", U8)] && [Field("a", U8)][..0] == [];
    assert KeysOf(s) == {"a", "b"};
    var u := [Field("0", U16)];
    assert u[..0] == [];
    assert KeysOf(u) == {"0"};
  }

  lemma OuterFacts()
    ensures Outer.scheme == [Field("a", U8), Field("b", Inner)] && Outer.byteLength == 3
    ensures Outer.scheme[..0] == [] && Outer.scheme[..1] == [Field("a", U8)]
    ensures EntryOffset(Outer.scheme, 0, 0) == 0 && EntryOffset(Outer.scheme, 0, 1) == 1
    ensures Inner.scheme == [Field("0", U16)] && Inner.scheme[..0] == [] && Inner.byteLength == 2
    ensures EntryOffset(Inner.scheme, 1, 0) == 1
  {
    OuterLayout();
  }

  lemma OuterWrite()
    ensures WellFormed(Outer) && Fits(Outer, OuterData)
    ensures Write(Outer, OuterData, [0, 0, 0], 0) == [2, 1, 0]
  {
    OuterStores();
    OuterFacts();
    var m1 := WriteEntries(Outer, 1, OuterData, [0, 0, 0], 0);
    assert OuterData.fields["a"] == Num(7);
    assert WriteEntries(Outer, 0, OuterData, [0, 0, 0], 0) == [0, 0, 0];
    assert m1 == Write(U8, Num(7), [0, 0, 0], 0);
    assert m1 == WriteU8([0, 0, 0], 0, 7);
    assert m1 == [7, 0, 0];
    var inner := Record(map["0" := Num(0x0102)]);
    assert OuterData.fields["b"] == inner;
    assert Write(Outer, OuterData, [0, 0, 0], 0) == Write(Inner, inner, m1, 1);
    assert Write(Inner, inner, m1, 1) == WriteEntries(Inner, 1, inner, m1, 1);
    assert WriteEntries(Inner, 0, inner, m1, 1) == m1;
    assert WriteEntries(Inner, 1, inner, m1, 1) == WriteU16(m1, 1, 0x0102);
    assert WriteU16(m1, 1, 0x0102) == [2, 1, 0];
  }

  lemma OuterRead()
    ensures WellFormed(Outer)
    ensures Read(Outer, [2, 1, 0], 0) == Record(map["a" := Num(2), "b" := Record(map["0" := Num(0x0102)])])
  {
    OuterStores();
    OuterFacts();
    var w: seq<byte> := [2, 1, 0];
    assert ReadEntries(Outer, 1, w, 0) == map["a" := Num(2)];
    assert ReadU16(w, 1) == 0x0102;
    assert ReadEntries(Inner, 1, w, 1) == map["0" := Num(0x0102)];
    assert Read(Inner, w, 1) == Record(map["0" := Num(0x0102)]);
  }

  lemma OuterNotSeparated()
    ensures !Separated(Outer, 0)
  {
    OuterFacts();
    assert Lo(Inner, 1) == 0;
    assert Lo(Outer, 0) == 0;
    assert FieldsEnd(Outer.scheme, 0, 0, 1) == 1;
  }

  /** As written: `b`'s `U16` is at offset 1, `U16.init` rounds it to 0,
      and the low byte of `b` lands on `a`. Reading the struct back gives
      `a` as 2, not 7: the round trip fails for a value the layout holds,
      and the struct is not separated. */
  lemma OuterClobbered()
    ensures WellFormed(Outer) && Fits(Outer, OuterData) && Stores(Outer, OuterData)
    ensures Read(Outer, Write(Outer, OuterData, [0, 0, 0], 0), 0).fields == map["a" := Num(2), "b" := Record(map["0" := Num(0x0102)])]
    ensures Read(Outer, Write(Outer, OuterData, [0, 0, 0], 0), 0) != OuterData
    ensures !Separated(Outer, 0)
  {
    OuterStores();
    OuterWrite();
    OuterRead();
    OuterNotSeparated();
    assert OuterData.fields["a"] == Num(7);
  }

  // ---------------------------------------------------------------------
  // A padding byte written through

  const PaddedFields: seq<(string, Layout)> := [("a", U8), ("b", U16)]

  const PaddedScheme: seq<Entry> := [Field("a", U8), Pad(1), Field("b", U16)]

  /** `new Struct({ a: U8, b: U16 })`, as `PaddedLayout` shows: one padding
      byte in front of `b`. */
  const Padded: Layout := StructOf(PaddedScheme, 4)

  /** `{ a: 7, b: 0x0102 }`. */
  const PaddedData: Data := Record(map["a" := Num(7), "b" := Num(0x0102)])

  lemma PaddedLayout()
    ensures Padded == StructOf(SchemeOf(PaddedFields), TotalLength(PaddedFields))
  {
    PaddedFirst();
    Snoc([("a", U8)], ("b", U16), [Field("a", U8)], 1);
    assert [("a", U8)] + [("b", U16)] == PaddedFields;
  }

  lemma PaddedFirst()
    ensures SchemeOf([("a", U8)]) == [Field("a", U8)] && TotalLength([("a", U8)]) == 1
  {
    Snoc([], ("a", U8), [], 0);
    assert [] + [("a", U8)] == [("a", U8)];
  }

  lemma PaddedFacts()
    ensures WellFormed(Padded) && Fits(Padded, PaddedData)
    ensures EntryOffset(PaddedScheme, 1, 1) == 2 && EntryOffset(PaddedScheme, 1, 2) == 3
  {
    var s := PaddedScheme;
    assert s[..0] == [];
    EntryOffsetStep(s, 1, 1);
    EntryOffsetStep(s, 1, 2);
    EntryOffsetStep(s, 1, 3);
    assert s[..3] == s;
  }

  /** Written at the odd offset 1, `b` belongs at 3 and `U16.init` rounds
      that down to 2: whatever the buffer held, the padding byte at 2 ends
      up as the low byte of `b` (in a zeroed buffer it was 0), which
      `PaddingUntouched` rules out once every `U16` is at an even
      address. */
  lemma PaddingWrittenAtOddOffset(mem: seq<byte>)
    requires |mem| >= 5
    ensures WellFormed(Padded) && Fits(Padded, PaddedData) && Padded.scheme[1] == Pad(1)
    ensures !EvenU16(Padded, 1)
    ensures EntryOffset(Padded.scheme, 1, 1) == 2
    ensures Write(Padded, PaddedData, mem, 1)[1] == 7
    ensures Write(Padded, PaddedData, mem, 1)[2] == 2
    ensures Write(Padded, PaddedData, mem, 1)[3] == 1
  {
    PaddedFacts();
    PaddedWrite(mem);
    StoresAtOne(mem);
  }

  /** `create` at offset 1 is the `U8` store of `a` at 1 and then the `U16`
      store of `b` at 3. */
  lemma PaddedWrite(mem: seq<byte>)
    requires |mem| >= 5
    ensures WellFormed(Padded) && Fits(Padded, PaddedData)
    ensures Write(Padded, PaddedData, mem, 1) == WriteU16(WriteU8(mem, 1, 7), 3, 0x0102)
  {
    PaddedFacts();
    PaddedFirstEntries(mem);
    assert PaddedData.fields["b"] == Num(0x0102);
    var m1 := WriteU8(mem, 1, 7);
    assert WriteEntries(Padded, 3, PaddedData, mem, 1) == Write(U16, Num(0x0102), m1, 3);
  }

  /** The first two entries: `a` is set at 1 and the padding is skipped. */
  lemma PaddedFirstEntries(mem: seq<byte>)
    requires |mem| >= 5
    ensures WellFormed(Padded) && Fits(Padded, PaddedData)
    ensures WriteEntries(Padded, 2, PaddedData, mem, 1) == WriteU8(mem, 1, 7)
  {
    PaddedFacts();
    assert PaddedScheme[..0] == [];
    assert PaddedData.fields["a"] == Num(7);
    assert WriteEntries(Padded, 1, PaddedData, mem, 1) == WriteU8(mem, 1, 7);
  }

  lemma StoresAtOne(mem: seq<byte>)
    requires |mem| >= 5
    ensures WriteU16(WriteU8(mem, 1, 7), 3, 0x0102)[1] == 7
    ensures WriteU16(WriteU8(mem, 1, 7), 3, 0x0102)[2] == 2
    ensures WriteU16(WriteU8(mem, 1, 7), 3, 0x0102)[3] == 1
  {
    var m1 := WriteU8(mem, 1, 7);
    assert U16Offset(3) == 2;
    assert m1[1] == 7;
  }

  /** Corrected: the exact-offset `U16` store puts `b` at 3 and 4 and the
      padding byte stays 0. */
  lemma PaddedWithExactU16()
    ensures WriteU16Exact(WriteU8([0, 0, 0, 0, 0], 1, 7), 3, 0x0102) == [0, 7, 0, 2, 1]
  {
    assert WriteU8([0, 0, 0, 0, 0], 1, 7) == [0, 7, 0, 0, 0];
  }

  /** Corrected: the exact-offset `U16` store writes `b` into bytes 1 and 2
      and leaves `a` as it was. */
  lemma OuterWithExactU16()
    ensures WriteU16Exact(WriteU8([0, 0, 0], 0, 7), 1, 0x0102) == [7, 2, 1]
    ensures ReadU8(WriteU16Exact(WriteU8([0, 0, 0], 0, 7), 1, 0x0102), 0) == 7
    ensures ReadU16Exact(WriteU16Exact(WriteU8([0, 0, 0], 0, 7), 1, 0x0102), 1) == 0x0102
  {
    assert WriteU8([0, 0, 0], 0, 7) == [7, 0, 0];
  }
}
