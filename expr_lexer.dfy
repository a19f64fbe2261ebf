/** The tokenizer of the infix expression compiler (rust-enums/src/lib.rs,
    `tokenize`; rust-enums/src/main.rs holds a verbatim copy).
    `Lex` is the token grammar read left to right; `Tokenize` is the
    character loop of the source, proved to compute `Lex`. */
module ExprLexer {

  import opened Wrappers
  import opened Chars
  import opened Decimal

  datatype Token =
    | Number(n: int)
    | Variable(name: char)
    | Operator(op: char)
    | LeftBracket
    | RightBracket

  /** The two ways `tokenize` panics: an unknown symbol, and the `unwrap`
      of `parse::<i32>()` on a digit run too large for an `i32`. */
  datatype LexError = UnknownSymbol(symbol: char) | NumberTooLarge(digits: string)

  predicate IsOperatorChar(c: char) {
    c == '+' || c == '-' || c == '*' || c == '/'
  }

  /** A character none of the tokenizer's arms accepts. */
  predicate IsUnknownSymbol(c: char) {
    !IsAsciiDigit(c) && !IsAsciiAlpha(c) && !IsOperatorChar(c) && c != '(' && c != ')' && !IsWhitespace(c)
  }

  /** The index just past the maximal run of ASCII digits that starts at `i`. */
  function RunEnd(s: string, i: nat): (k: nat)
    requires i <= |s|
    ensures i <= k <= |s|
    ensures forall j :: i <= j < k ==> IsAsciiDigit(s[j])
    ensures k == |s| || !IsAsciiDigit(s[k])
    decreases |s| - i
  {
    if i < |s| && IsAsciiDigit(s[i]) then RunEnd(s, i + 1) else i
  }

  /** The run end is determined by where the first non-digit is. */
  lemma RunEndUnique(s: string, i: nat, k: nat)
    requires i <= k <= |s|
    requires forall j :: i <= j < k ==> IsAsciiDigit(s[j])
    requires k == |s| || !IsAsciiDigit(s[k])
    ensures RunEnd(s, i) == k
  {
  }

  /** The value of the digits `s[i..k]`, accumulated as `number.parse()` reads them. */
  function NumberValue(s: string, i: nat, k: nat): nat
    requires i <= k <= |s|
    requires forall j :: i <= j < k ==> IsAsciiDigit(s[j])
    decreases k - i
  {
    if k == i then 0 else NumberValue(s, i, k - 1) * 10 + DigitValue(s[k - 1])
  }

  lemma {:induction false} NumberValueIsValueOf(s: string, i: nat, k: nat)
    requires i <= k <= |s|
    requires forall j :: i <= j < k ==> IsAsciiDigit(s[j])
    ensures AllDigits(s[i..k]) && NumberValue(s, i, k) == ValueOf(s[i..k])
    decreases k - i
  {
    if k > i {
      NumberValueIsValueOf(s, i, k - 1);
      assert s[i..k][..k - i - 1] == s[i..k - 1];
    }
  }

  /** `tokens` put in front of the tokens of the rest, unless the rest failed. */
  function Prepend(tokens: seq<Token>, rest: Result<seq<Token>, LexError>): (r: Result<seq<Token>, LexError>)
    ensures rest.Success? ==> r == Success(tokens + rest.value)
    ensures rest.Failure? ==> r == rest
  {
    if rest.Success? then Success(tokens + rest.value) else rest
  }

  lemma PrependAssoc(a: seq<Token>, b: seq<Token>, rest: Result<seq<Token>, LexError>)
    ensures Prepend(a, Prepend(b, rest)) == Prepend(a + b, rest)
    ensures Prepend([], rest) == rest
  {
    if rest.Success? {
      assert a + (b + rest.value) == (a + b) + rest.value;
      assert [] + rest.value == rest.value;
    }
  }

  /** The tokens of `s`: a maximal digit run is one `Number`, each letter one
      `Variable`, each of `+ - * /` one `Operator`, brackets their own tokens,
      whitespace nothing; the first unknown symbol or overlong number fails. */
  function Lex(s: string): Result<seq<Token>, LexError> {
    LexFrom(s, 0)
  }

  /** The tokens of `s` from index `i` on. */
  function LexFrom(s: string, i: nat): Result<seq<Token>, LexError>
    requires i <= |s|
    decreases |s| - i
  {
    if i == |s| then Success([])
    else if IsAsciiDigit(s[i]) then
      var k := RunEnd(s, i);
      var v := NumberValue(s, i, k);
      if v > I32Max then Failure(NumberTooLarge(s[i..k]))
      else Prepend([Number(v)], LexFrom(s, k))
    else SingleChar(s[i], LexFrom(s, i + 1))
  }

  /** The arms of `tokenize` for a character that is not a digit, given the
      tokens of what follows it. */
  function SingleChar(c: char, rest: Result<seq<Token>, LexError>): Result<seq<Token>, LexError> {
    if IsAsciiAlpha(c) then Prepend([Variable(c)], rest)
    else if IsOperatorChar(c) then Prepend([Operator(c)], rest)
    else if c == '(' then Prepend([LeftBracket], rest)
    else if c == ')' then Prepend([RightBracket], rest)
    else if IsWhitespace(c) then rest
    else Failure(UnknownSymbol(c))
  }

  /** The character loop of `tokenize`: a `while let` over the characters
      with an inner loop that accumulates a digit run. */
  method Tokenize(input: string) returns (r: Result<seq<Token>, LexError>)
    ensures r == Lex(input)
  {
    var tokens: seq<Token> := [];
    var i := 0;
    PrependAssoc([], [], Lex(input));
    while i < |input|
      invariant 0 <= i <= |input|
      invariant Lex(input) == Prepend(tokens, LexFrom(input, i))
      decreases |input| - i
    {
      var c := input[i];
      ghost var start := i;
      i := i + 1;
      if IsAsciiDigit(c) {
        var number := [c];
        while i < |input| && IsAsciiDigit(input[i])
          invariant start < i <= |input|
          invariant number == input[start..i]
          invariant forall j :: start <= j < i ==> IsAsciiDigit(input[j])
          decreases |input| - i
        {
          number := number + [input[i]];
          i := i + 1;
        }
        RunEndUnique(input, start, i);
        NumberValueIsValueOf(input, start, i);
        if ValueOf(number) > I32Max {
          return Failure(NumberTooLarge(number));
        }
        PrependAssoc(tokens, [Number(ValueOf(number))], LexFrom(input, i));
        tokens := tokens + [Number(ValueOf(number))];
      } else if IsAsciiAlpha(c) {
        PrependAssoc(tokens, [Variable(c)], LexFrom(input, i));
        tokens := tokens + [Variable(c)];
      } else if IsOperatorChar(c) {
        PrependAssoc(tokens, [Operator(c)], LexFrom(input, i));
        tokens := tokens + [Operator(c)];
      } else if c == '(' {
        PrependAssoc(tokens, [LeftBracket], LexFrom(input, i));
        tokens := tokens + [LeftBracket];
      } else if c == ')' {
        PrependAssoc(tokens, [RightBracket], LexFrom(input, i));
        tokens := tokens + [RightBracket];
      } else if IsWhitespace(c) {
        continue;
      } else {
        return Failure(UnknownSymbol(c));
      }
    }
    assert tokens + [] == tokens;
    return Success(tokens);
  }

  /** The tokens of two texts lexed one after the other: the first failure wins. */
  function Concat(x: Result<seq<Token>, LexError>, y: Result<seq<Token>, LexError>): (r: Result<seq<Token>, LexError>)
    ensures x.Failure? ==> r == x
    ensures x.Success? && y.Success? ==> r == Success(x.value + y.value)
    ensures x.Success? && y.Failure? ==> r == y
  {
    if x.Failure? then x else Prepend(x.value, y)
  }

  lemma ConcatPrepend(t: seq<Token>, x: Result<seq<Token>, LexError>, y: Result<seq<Token>, LexError>)
    ensures Prepend(t, Concat(x, y)) == Concat(Prepend(t, x), y)
  {
    if x.Success? && y.Success? {
      assert t + (x.value + y.value) == (t + x.value) + y.value;
    }
  }

  lemma SingleCharConcat(c: char, x: Result<seq<Token>, LexError>, y: Result<seq<Token>, LexError>)
    ensures SingleChar(c, Concat(x, y)) == Concat(SingleChar(c, x), y)
  {
    if IsAsciiAlpha(c) || IsOperatorChar(c) || c == '(' || c == ')' {
      var t := if IsAsciiAlpha(c) then Variable(c) else if IsOperatorChar(c) then Operator(c)
               else if c == '(' then LeftBracket else RightBracket;
      ConcatPrepend([t], x, y);
    }
  }

  lemma {:induction false} NumberValueShift(p: string, s: string, i: nat, k: nat)
    requires i <= k <= |s|
    requires forall j :: i <= j < k ==> IsAsciiDigit(s[j])
    ensures NumberValue(p + s, |p| + i, |p| + k) == NumberValue(s, i, k)
    decreases k - i
  {
    if k > i {
      NumberValueShift(p, s, i, k - 1);
    }
  }

  lemma {:induction false} NumberValuePrefix(a: string, b: string, i: nat, k: nat)
    requires i <= k <= |a|
    requires forall j :: i <= j < k ==> IsAsciiDigit(a[j])
    ensures NumberValue(a + b, i, k) == NumberValue(a, i, k)
    decreases k - i
  {
    if k > i {
      NumberValuePrefix(a, b, i, k - 1);
    }
  }

  /** What precedes position `i` does not affect the tokens from `i` on. */
  lemma {:induction false} LexShift(p: string, s: string, i: nat)
    requires i <= |s|
    ensures LexFrom(p + s, |p| + i) == LexFrom(s, i)
    decreases |s| - i
  {
    var ps := p + s;
    if i < |s| {
      assert ps[|p| + i] == s[i];
      if IsAsciiDigit(s[i]) {
        var k := RunEnd(s, i);
        RunEndUnique(ps, |p| + i, |p| + k);
        NumberValueShift(p, s, i, k);
        assert ps[|p| + i..|p| + k] == s[i..k];
        LexShift(p, s, k);
      } else {
        LexShift(p, s, i + 1);
      }
    }
  }

  /** Two texts that do not glue two digits together lex independently. */
  predicate Separated(a: string, b: string) {
    !(a != [] && b != [] && IsAsciiDigit(a[|a| - 1]) && IsAsciiDigit(b[0]))
  }

  lemma LexAppend(a: string, b: string)
    requires Separated(a, b)
    ensures Lex(a + b) == Concat(Lex(a), Lex(b))
  {
    LexAppendFrom(a, b, 0);
  }

  /** `LexAppend` for two texts that both lex. */
  lemma LexJoin(x: string, y: string)
    requires Separated(x, y) && Lex(x).Success? && Lex(y).Success?
    ensures Lex(x + y).Success? && Lex(x + y).value == Lex(x).value + Lex(y).value
  {
    LexAppend(x, y);
  }

  lemma {:induction false} LexAppendFrom(a: string, b: string, i: nat)
    requires Separated(a, b) && i <= |a|
    ensures LexFrom(a + b, i) == Concat(LexFrom(a, i), Lex(b))
    decreases |a| - i
  {
    var ab := a + b;
    if i == |a| {
      LexShift(a, b, 0);
      PrependAssoc([], [], Lex(b));
    } else {
      assert ab[i] == a[i];
      if IsAsciiDigit(a[i]) {
        var k := RunEnd(a, i);
        RunEndUnique(ab, i, k);
        NumberValuePrefix(a, b, i, k);
        assert ab[i..k] == a[i..k];
        if NumberValue(a, i, k) <= I32Max {
          LexAppendFrom(a, b, k);
          ConcatPrepend([Number(NumberValue(a, i, k))], LexFrom(a, k), Lex(b));
        }
      } else {
        LexAppendFrom(a, b, i + 1);
        SingleCharConcat(a[i], LexFrom(a, i + 1), Lex(b));
      }
    }
  }

  /** Whitespace alone yields no token. */
  lemma LexWhitespace(w: string)
    requires AllWhitespace(w)
    ensures Lex(w) == Success([])
  {
    LexWhitespaceFrom(w, 0);
  }

  lemma {:induction false} LexWhitespaceFrom(w: string, i: nat)
    requires AllWhitespace(w) && i <= |w|
    ensures LexFrom(w, i) == Success([])
    decreases |w| - i
  {
    if i < |w| {
      LexWhitespaceFrom(w, i + 1);
    }
  }

  /** Any unknown symbol makes the whole input fail. */
  lemma LexUnknownFails(s: string, n: nat)
    requires n < |s| && IsUnknownSymbol(s[n])
    ensures Lex(s).Failure?
  {
    LexUnknownFailsFrom(s, 0, n);
  }

  lemma {:induction false} LexUnknownFailsFrom(s: string, i: nat, n: nat)
    requires i <= n < |s| && IsUnknownSymbol(s[n])
    ensures LexFrom(s, i).Failure?
    decreases |s| - i
  {
    if i < n {
      if IsAsciiDigit(s[i]) {
        var k := RunEnd(s, i);
        if NumberValue(s, i, k) <= I32Max {
          LexUnknownFailsFrom(s, k, n);
        }
      } else if !IsUnknownSymbol(s[i]) {
        LexUnknownFailsFrom(s, i + 1, n);
      }
    }
  }

  /** An "unknown symbol" failure names a character of the input that no arm accepts. */
  lemma LexFailureSymbol(s: string)
    requires Lex(s).Failure? && Lex(s).error.UnknownSymbol?
    ensures Lex(s).error.symbol in s && IsUnknownSymbol(Lex(s).error.symbol)
  {
    LexFailureSymbolFrom(s, 0);
  }

  lemma {:induction false} LexFailureSymbolFrom(s: string, i: nat)
    requires i <= |s| && LexFrom(s, i).Failure? && LexFrom(s, i).error.UnknownSymbol?
    ensures LexFrom(s, i).error.symbol in s[i..] && IsUnknownSymbol(LexFrom(s, i).error.symbol)
    decreases |s| - i
  {
    if IsAsciiDigit(s[i]) {
      var k := RunEnd(s, i);
      LexFailureSymbolFrom(s, k);
      assert forall x :: x in s[k..] ==> x in s[i..];
    } else if !IsUnknownSymbol(s[i]) {
      LexFailureSymbolFrom(s, i + 1);
      assert forall x :: x in s[i + 1..] ==> x in s[i..];
    }
  }

  /** A maximal run of digits becomes exactly one `Number` token holding its value. */
  lemma LexNumber(digits: string, rest: string)
    requires digits != [] && AllDigits(digits) && ValueOf(digits) <= I32Max
    requires rest == [] || !IsAsciiDigit(rest[0])
    ensures Lex(digits + rest) == Prepend([Number(ValueOf(digits))], Lex(rest))
  {
    var s := digits + rest;
    RunEndUnique(s, 0, |digits|);
    NumberValueIsValueOf(s, 0, |digits|);
    assert s[0..|digits|] == digits;
    LexShift(digits, rest, 0);
  }

  /** A character other than a digit is read on its own. */
  lemma LexSingleChar(c: char, rest: string)
    requires !IsAsciiDigit(c)
    ensures Lex([c] + rest) == SingleChar(c, Lex(rest))
  {
    LexShift([c], rest, 0);
  }

  /** Each letter is its own `Variable` token: there are no multi-letter names. */
  lemma LexLetter(c: char, rest: string)
    requires IsAsciiAlpha(c)
    ensures Lex([c] + rest) == Prepend([Variable(c)], Lex(rest))
  {
    LexSingleChar(c, rest);
  }
}
