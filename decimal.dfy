/** Decimal notation of integers: Rust's `to_string` / `format!` of an integer
    and `str::parse` of an integer type, shared by the tokenizer, the message
    formatter, the CSV writer and reader, and tuple keys in the layout engine. */
module Decimal {

  import opened Wrappers
  import opened Chars

  const I32Min: int := -0x8000_0000
  const I32Max: int := 0x7FFF_FFFF
  const I64Min: int := -0x8000_0000_0000_0000
  const I64Max: int := 0x7FFF_FFFF_FFFF_FFFF

  function DigitValue(c: char): (d: nat)
    requires IsAsciiDigit(c)
    ensures d < 10
  {
    c as int - '0' as int
  }

  function DigitChar(d: nat): (c: char)
    requires d < 10
    ensures IsAsciiDigit(c) && DigitValue(c) == d
  {
    ('0' as int + d) as char
  }

  predicate AllDigits(s: string) {
    forall i :: 0 <= i < |s| ==> IsAsciiDigit(s[i])
  }

  /** The value of a string of decimal digits, most significant digit first. */
  function ValueOf(s: string): nat
    requires AllDigits(s)
  {
    if s == [] then 0 else ValueOf(s[..|s| - 1]) * 10 + DigitValue(s[|s| - 1])
  }

  /** The shortest decimal notation of `n` (no sign, no leading zero). */
  function NatToString(n: nat): (s: string)
    ensures |s| >= 1 && AllDigits(s)
  {
    if n < 10 then [DigitChar(n)] else NatToString(n / 10) + [DigitChar(n % 10)]
  }

  /** Rust's `to_string` of a signed integer: a `-` sign only for negatives. */
  function IntToString(i: int): (s: string)
    ensures |s| >= 1
  {
    if i < 0 then "-" + NatToString(-i) else NatToString(i)
  }

  /** Reading back the notation of `n` gives `n`. */
  lemma {:induction false} NatToStringValue(n: nat)
    ensures ValueOf(NatToString(n)) == n
  {
    if n >= 10 {
      var s := NatToString(n);
      assert s[..|s| - 1] == NatToString(n / 10);
      NatToStringValue(n / 10);
    }
  }

  /** The notation has no leading zero, so only zero is written "0...". */
  lemma {:induction false} NatToStringCanonical(n: nat)
    ensures NatToString(n)[0] == '0' <==> n == 0
  {
    if n >= 10 {
      NatToStringCanonical(n / 10);
    }
  }

  lemma NatToStringInjective(m: nat, n: nat)
    requires NatToString(m) == NatToString(n)
    ensures m == n
  {
    NatToStringValue(m);
    NatToStringValue(n);
  }

  /** Rust's `str::parse::<i64>()`: an optional `+` or `-`, then at least one
      ASCII digit, and the value must lie in the `i64` range. */
  function ParseI64(s: string): (r: Option<int>)
    ensures r.Some? ==> I64Min <= r.value <= I64Max
  {
    var negative := |s| > 0 && s[0] == '-';
    var digits := if |s| > 0 && (s[0] == '+' || s[0] == '-') then s[1..] else s;
    if digits == [] || !AllDigits(digits) then None
    else
      var v: int := if negative then -(ValueOf(digits) as int) else ValueOf(digits);
      if I64Min <= v <= I64Max then Some(v) else None
  }

  /** Writing an `i64` and parsing it back gives the same integer. */
  lemma IntToStringParse(i: int)
    requires I64Min <= i <= I64Max
    ensures ParseI64(IntToString(i)) == Some(i)
  {
    var s := IntToString(i);
    if i < 0 {
      NatToStringValue(-i);
      assert s[1..] == NatToString(-i);
    } else {
      NatToStringValue(i);
    }
  }
}
