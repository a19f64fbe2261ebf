/** The accessors `init` hands out in `wasm-intro/data-structures.js`, over a
    byte buffer: `U8` (one byte), `U16` (two bytes, little-endian, at an even
    offset) and `FixedASCIIString(maxLength)` (a zero-padded window of
    `maxLength` bytes). */
module BinaryAccess {
  /** A byte of an `ArrayBuffer`. */
  type byte = x: int | 0 <= x < 256

  /** A UTF-16 code unit, what `charCodeAt` returns and `fromCharCode`
      takes. */
  type CodeUnit = c: int | 0 <= c < 0x1_0000

  // ---------------------------------------------------------------------
  // U8

  /** `U8.init(buffer, offset).set(value)`: a `Uint8Array` store keeps the
      value modulo 256. */
  function WriteU8(mem: seq<byte>, offset: nat, value: int): (r: seq<byte>)
    requires offset < |mem|
    ensures |r| == |mem| && r[offset] == value % 256
    ensures forall i :: 0 <= i < |mem| && i != offset ==> r[i] == mem[i]
  {
    mem[offset := value % 256]
  }

  /** `U8.init(buffer, offset).get()`. */
  function ReadU8(mem: seq<byte>, offset: nat): byte
    requires offset < |mem|
  {
    mem[offset]
  }

  // ---------------------------------------------------------------------
  // U16

  /** The offset `U16.init` uses: rounded down to a multiple of its
      alignment, so one byte earlier when it is odd. */
  function U16Offset(offset: nat): (r: nat)
    ensures r % 2 == 0 && r <= offset && offset <= r + 1
    ensures r == offset <==> offset % 2 == 0
  {
    var remainder := offset % 2;
    if remainder == 0 then offset else offset - remainder
  }

  /** `U16.init(buffer, offset).set(value)`: the value modulo 2^16, low byte
      first, at the rounded offset. */
  function WriteU16(mem: seq<byte>, offset: nat, value: int): (r: seq<byte>)
    requires offset + 2 <= |mem|
    ensures |r| == |mem|
    ensures var o := U16Offset(offset); r[o] == value % 0x1_0000 % 256 && r[o + 1] == value % 0x1_0000 / 256
    ensures forall i :: 0 <= i < |mem| && i != U16Offset(offset) && i != U16Offset(offset) + 1 ==> r[i] == mem[i]
  {
    var o := U16Offset(offset);
    var v := value % 0x1_0000;
    mem[o := v % 256][o + 1 := v / 256]
  }

  /** `U16.init(buffer, offset).get()`. */
  function ReadU16(mem: seq<byte>, offset: nat): (v: nat)
    requires offset + 2 <= |mem|
    ensures v < 0x1_0000
  {
    var o := U16Offset(offset);
    mem[o] as int + 256 * mem[o + 1] as int
  }

  /** What a `U16` field stores it gives back, modulo 2^16. */
  lemma U16RoundTrip(mem: seq<byte>, offset: nat, value: int)
    requires offset + 2 <= |mem|
    ensures ReadU16(WriteU16(mem, offset, value), offset) == value % 0x1_0000
  {
    var v := value % 0x1_0000;
    assert v == v % 256 + 256 * (v / 256);
  }

  /** As written, a `U16` at an odd offset stores its low byte in the byte
      before its own two and leaves its second byte as it was. */
  lemma U16OddReachesBack(mem: seq<byte>, offset: nat, value: int)
    requires offset + 2 <= |mem| && offset % 2 == 1
    ensures WriteU16(mem, offset, value)[offset - 1] == value % 0x1_0000 % 256
    ensures WriteU16(mem, offset, value)[offset + 1] == mem[offset + 1]
  {
  }

  /** The store a `U16` field evidently intends: its two bytes, low byte
      first, at exactly its offset, whatever that offset is. */
  function WriteU16Exact(mem: seq<byte>, offset: nat, value: int): (r: seq<byte>)
    requires offset + 2 <= |mem|
    ensures |r| == |mem|
    ensures r[offset] == value % 0x1_0000 % 256 && r[offset + 1] == value % 0x1_0000 / 256
    ensures forall i :: 0 <= i < |mem| && i != offset && i != offset + 1 ==> r[i] == mem[i]
  {
    var v := value % 0x1_0000;
    mem[offset := v % 256][offset + 1 := v / 256]
  }

  function ReadU16Exact(mem: seq<byte>, offset: nat): (v: nat)
    requires offset + 2 <= |mem|
    ensures v < 0x1_0000
  {
    mem[offset] as int + 256 * mem[offset + 1] as int
  }

  /** The exact store reads back at every offset. */
  lemma U16ExactRoundTrip(mem: seq<byte>, offset: nat, value: int)
    requires offset + 2 <= |mem|
    ensures ReadU16Exact(WriteU16Exact(mem, offset, value), offset) == value % 0x1_0000
  {
    var v := value % 0x1_0000;
    assert v == v % 256 + 256 * (v / 256);
  }

  /** At an even offset the source's accessor is the exact one. */
  lemma U16ExactAgrees(mem: seq<byte>, offset: nat, value: int)
    requires offset + 2 <= |mem| && offset % 2 == 0
    ensures WriteU16Exact(mem, offset, value) == WriteU16(mem, offset, value)
    ensures ReadU16Exact(mem, offset) == ReadU16(mem, offset)
  {
  }

  // ---------------------------------------------------------------------
  // FixedASCIIString

  /** The `maxLength` bytes `set(value)` leaves in its window: the code
      units of `value` modulo 256 as far as they go, then zeros. */
  function AsciiBytes(s: seq<CodeUnit>, n: nat): (r: seq<byte>)
    ensures |r| == n
    ensures forall i :: 0 <= i < n && i < |s| ==> r[i] == s[i] % 256
    ensures forall i :: |s| <= i < n ==> r[i] == 0
  {
    seq(n, i requires 0 <= i < n => if i < |s| then s[i] % 256 else 0)
  }

  /** `set(value)` of a string of `n` bytes at `offset`. */
  function WriteAscii(mem: seq<byte>, offset: nat, n: nat, s: seq<CodeUnit>): (r: seq<byte>)
    requires offset + n <= |mem|
    ensures |r| == |mem|
    ensures forall i :: 0 <= i < n ==> r[offset + i] == AsciiBytes(s, n)[i]
    ensures forall i :: 0 <= i < |mem| && !(offset <= i < offset + n) ==> r[i] == mem[i]
  {
    mem[..offset] + AsciiBytes(s, n) + mem[offset + n..]
  }

  /** `set(value)`: a loop over the `maxLength` bytes of the window, each a
      code unit of `value` or 0 past its end. */
  method SetAscii(buf: array<byte>, offset: nat, n: nat, s: seq<CodeUnit>)
    requires offset + n <= buf.Length
    modifies buf
    ensures buf[..] == WriteAscii(old(buf[..]), offset, n, s)
  {
    for i := 0 to n
      invariant forall k :: 0 <= k < buf.Length && !(offset <= k < offset + i) ==> buf[k] == old(buf[k])
      invariant forall k :: 0 <= k < i ==> buf[offset + k] == AsciiBytes(s, n)[k]
    {
      if i < |s| {
        buf[offset + i] := s[i] % 256;
      } else {
        buf[offset + i] := 0;
      }
    }
    assert buf[..] == WriteAscii(old(buf[..]), offset, n, s) by {
      var w := WriteAscii(old(buf[..]), offset, n, s);
      forall k | 0 <= k < buf.Length
        ensures buf[k] == w[k]
      {
        if offset <= k < offset + n {
          assert w[offset + (k - offset)] == AsciiBytes(s, n)[k - offset];
        }
      }
    }
  }

  /** What `get()` returns: the code units of the bytes before the first 0
      byte of the window, or of all of them. */
  function AsciiText(bytes: seq<byte>): (r: seq<CodeUnit>)
    ensures |r| <= |bytes|
    ensures forall i :: 0 <= i < |r| ==> r[i] == bytes[i] && bytes[i] != 0
    ensures |r| < |bytes| ==> bytes[|r|] == 0
  {
    if bytes == [] || bytes[0] == 0 then [] else [bytes[0] as CodeUnit] + AsciiText(bytes[1..])
  }

  /** The text before the first 0 byte is the only one with these
      properties. */
  lemma {:induction false} AsciiTextUnique(bytes: seq<byte>, r: seq<CodeUnit>)
    requires |r| <= |bytes|
    requires forall i :: 0 <= i < |r| ==> r[i] == bytes[i] && bytes[i] != 0
    requires |r| < |bytes| ==> bytes[|r|] == 0
    ensures r == AsciiText(bytes)
  {
    if r != [] {
      AsciiTextUnique(bytes[1..], r[1..]);
      assert r == [r[0]] + r[1..];
    }
  }

  /** `get()`: the bytes of the window in order, stopping at the first 0. */
  method GetAscii(buf: array<byte>, offset: nat, n: nat) returns (str: seq<CodeUnit>)
    requires offset + n <= buf.Length
    ensures str == AsciiText(buf[offset..offset + n])
  {
    str := [];
    var i := 0;
    while i < n
      invariant 0 <= i <= n && |str| == i
      invariant forall k :: 0 <= k < i ==> str[k] == buf[offset + k] && buf[offset + k] != 0
    {
      var charCode := buf[offset + i];
      if charCode == 0 {
        break;
      }
      str := str + [charCode as CodeUnit];
      i := i + 1;
    }
    var window := buf[offset..offset + n];
    assert forall k :: 0 <= k < n ==> window[k] == buf[offset + k];
    AsciiTextUnique(window, str);
  }

  /** `get()` after `set(s)` gives `s` back, cut to `maxLength`, whenever
      every code unit of `s` is a non-zero byte. */
  lemma AsciiRoundTrip(s: seq<CodeUnit>, n: nat)
    requires forall i :: 0 <= i < |s| ==> 0 < s[i] < 256
    ensures AsciiText(AsciiBytes(s, n)) == if |s| <= n then s else s[..n]
  {
    var bytes := AsciiBytes(s, n);
    var m := if |s| <= n then |s| else n;
    AsciiTextUnique(bytes, s[..m]);
    assert s[..|s|] == s;
  }

  /** A code unit that is 0 modulo 256 ends the text early: `get()` stops at
      the first one. */
  lemma AsciiStopsAtZero(s: seq<CodeUnit>, n: nat, k: nat)
    requires k < |s| && k < n && s[k] % 256 == 0
    requires forall i :: 0 <= i < k ==> 0 < s[i] < 256
    ensures AsciiText(AsciiBytes(s, n)) == s[..k]
  {
    AsciiTextUnique(AsciiBytes(s, n), s[..k]);
  }
}
