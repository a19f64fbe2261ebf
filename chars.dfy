/** Character classes used by Rust's `char` methods, and UTF-8 byte lengths.
    Strings are modelled as sequences of Unicode scalar values (`string`);
    Rust measures a `String` in UTF-8 bytes, so the few operations that index
    by byte go through `ByteLen`. */
module Chars {

  import opened Wrappers

  /** `char::is_ascii_digit`. */
  predicate IsAsciiDigit(c: char) {
    '0' <= c <= '9'
  }

  /** `char::is_alphabetic`, restricted to the ASCII letters. */
  predicate IsAsciiAlpha(c: char) {
    ('a' <= c <= 'z') || ('A' <= c <= 'Z')
  }

  /** `char::is_whitespace`: the Unicode White_Space property, all 25 code points. */
  predicate IsWhitespace(c: char) {
    ('\U{9}' <= c <= '\U{D}') || c == ' ' || c == '\U{85}' || c == '\U{A0}' || c == '\U{1680}'
    || ('\U{2000}' <= c <= '\U{200A}') || c == '\U{2028}' || c == '\U{2029}' || c == '\U{202F}'
    || c == '\U{205F}' || c == '\U{3000}'
  }

  /** True when every character of `s` is whitespace. */
  predicate AllWhitespace(s: string) {
    forall i :: 0 <= i < |s| ==> IsWhitespace(s[i])
  }

  /** Number of bytes the UTF-8 encoding of `c` takes. */
  function Utf8Width(c: char): (w: nat)
    ensures 1 <= w <= 4
    ensures w == 1 <==> c as int < 0x80
  {
    if c as int < 0x80 then 1
    else if c as int < 0x800 then 2
    else if c as int < 0x1_0000 then 3
    else 4
  }

  /** Rust's `str::len`: the length of `s` in UTF-8 bytes. */
  function ByteLen(s: string): (n: nat)
    ensures |s| <= n <= 4 * |s|
  {
    if s == [] then 0 else ByteLen(s[..|s| - 1]) + Utf8Width(s[|s| - 1])
  }

  lemma {:induction false} ByteLenAppend(s: string, t: string)
    ensures ByteLen(s + t) == ByteLen(s) + ByteLen(t)
    decreases |t|
  {
    if t == [] {
      assert s + t == s;
    } else {
      var t' := t[..|t| - 1];
      assert (s + t)[..|s + t| - 1] == s + t';
      ByteLenAppend(s, t');
    }
  }

  predicate IsAscii(s: string) {
    forall c :: c in s ==> c as int < 0x80
  }

  /** A string of ASCII characters takes one byte per character. */
  lemma {:induction false} ByteLenAscii(s: string)
    requires IsAscii(s)
    ensures ByteLen(s) == |s|
  {
    if s != [] {
      var p := s[..|s| - 1];
      assert forall c :: c in p ==> c in s;
      assert s[|s| - 1] in s;
      ByteLenAscii(p);
    }
  }

  /** The character index at which byte offset `n` of `s` falls, when `n` is a
      character boundary (Rust's `str::is_char_boundary`), and `None` when it is
      not (`BoundaryIndexNone`). */
  function BoundaryIndex(s: string, n: nat): (k: Option<nat>)
    ensures k.Some? ==> k.value <= |s| && ByteLen(s[..k.value]) == n
  {
    BoundaryFrom(s, n, 0)
  }

  function BoundaryFrom(s: string, n: nat, j: nat): (k: Option<nat>)
    requires j <= |s|
    ensures k.Some? ==> j <= k.value <= |s| && ByteLen(s[..k.value]) == n
    decreases |s| - j
  {
    if ByteLen(s[..j]) == n then Some(j)
    else if j == |s| then None
    else BoundaryFrom(s, n, j + 1)
  }

  /** `None` means that no prefix of `s` is `n` bytes long. */
  lemma BoundaryIndexNone(s: string, n: nat)
    requires BoundaryIndex(s, n).None?
    ensures forall j :: 0 <= j <= |s| ==> ByteLen(s[..j]) != n
  {
    BoundaryFromNone(s, n, 0);
  }

  lemma {:induction false} BoundaryFromNone(s: string, n: nat, j: nat)
    requires j <= |s| && BoundaryFrom(s, n, j).None?
    ensures forall i :: j <= i <= |s| ==> ByteLen(s[..i]) != n
    decreases |s| - j
  {
    if j < |s| {
      BoundaryFromNone(s, n, j + 1);
    }
  }

  /** In an ASCII string every byte offset up to its length is a character
      boundary, at the same character index. */
  lemma BoundaryIndexAscii(s: string, n: nat)
    requires IsAscii(s) && n <= |s|
    ensures BoundaryIndex(s, n) == Some(n)
  {
    BoundaryFromAscii(s, n, 0);
  }

  lemma {:induction false} BoundaryFromAscii(s: string, n: nat, j: nat)
    requires IsAscii(s) && j <= n <= |s|
    ensures BoundaryFrom(s, n, j) == Some(n)
    decreases n - j
  {
    assert forall c :: c in s[..j] ==> c in s;
    ByteLenAscii(s[..j]);
    if j < n {
      BoundaryFromAscii(s, n, j + 1);
    }
  }
}
