/** The shunting-yard loop of `parse` never checks that operands and
    operators alternate, so it accepts inputs such as "+ a b" and "a b +" as
    the tree of "a + b". This module holds the corrected parser: the same
    stacks and reductions, plus one flag saying whether an operand (an atom
    or `(`) or an operator (an operator or `)`) must come next. It proves
    that the corrected parser agrees with the original wherever it
    succeeds, that every tree it returns lists exactly the input's
    non-bracket tokens in order, and that it parses every fully bracketed
    rendering of a tree back to that tree. */
module ExprStrict {
  import opened Wrappers
  import opened Chars
  import opened Decimal
  import opened ExprLexer
  import opened ExprParser

  datatype StrictError =
    | Parser(cause: ParseError)      // the original parser's own failure
    | OutOfTurn(token: Token)        // an operand where an operator belongs, or the reverse
    | IncompleteInput                // the input ends where an operand belongs

  datatype Strict = Strict(stacks: Stacks, expectOperand: bool)

  const StrictStart := Strict(Start, true)

  predicate IsBracket(t: Token) {
    t == LeftBracket || t == RightBracket
  }

  /** Atoms and `(` are accepted where an operand is expected; operators
      and `)` where one is not. */
  predicate InTurn(expectOperand: bool, t: Token) {
    (IsAtom(t) || t == LeftBracket) == expectOperand
  }

  function StrictStep(ss: Strict, t: Token): Result<Strict, StrictError> {
    if !InTurn(ss.expectOperand, t) then Failure(OutOfTurn(t))
    else
      match Step(ss.stacks, t)
      case Failure(e) => Failure(Parser(e))
      case Success(st) => Success(Strict(st, t.Operator? || t == LeftBracket))
  }

  function StrictRun(ss: Strict, ts: seq<Token>, i: nat): Result<Strict, StrictError>
    requires i <= |ts|
    decreases |ts| - i
  {
    if i == |ts| then Success(ss)
    else
      var ss' :- StrictStep(ss, ts[i]);
      StrictRun(ss', ts, i + 1)
  }

  function ShuntingYardStrict(ts: seq<Token>): Result<Expression, StrictError> {
    var ss :- StrictRun(StrictStart, ts, 0);
    if ss.expectOperand then Failure(IncompleteInput)
    else
      match Finish(ss.stacks)
      case Failure(e) => Failure(Parser(e))
      case Success(root) => Success(root)
  }

  function ParsedStrict(input: string): Result<Expression, StrictError> {
    match Lex(input)
    case Failure(e) => Failure(Parser(Lexical(e)))
    case Success(ts) => ShuntingYardStrict(ts)
  }

  // ---------------------------------------------------------------------
  // Agreement with the parser as written

  lemma {:induction false} StrictRunAgrees(ss: Strict, ts: seq<Token>, i: nat)
    requires i <= |ts| && StrictRun(ss, ts, i).Success?
    ensures Run(ss.stacks, ts, i) == Success(StrictRun(ss, ts, i).value.stacks)
    decreases |ts| - i
  {
    if i < |ts| {
      StrictRunAgrees(StrictStep(ss, ts[i]).value, ts, i + 1);
    }
  }

  /** Wherever the corrected parser succeeds, the original returns the same tree. */
  lemma StrictAgrees(input: string)
    requires ParsedStrict(input).Success?
    ensures Parsed(input) == Success(ParsedStrict(input).value)
  {
    StrictRunAgrees(StrictStart, Lex(input).value, 0);
  }

  /** The original accepts an operator before both of its operands ... */
  lemma PrefixOperatorAccepted()
    ensures Parsed("+ a b") == Success(Operation(Expression.Variable('a'), '+', Expression.Variable('b')))
    ensures ParsedStrict("+ a b") == Failure(OutOfTurn(Operator('+')))
  {
    assert Lex("+ a b").value == [Operator('+'), Token.Variable('a'), Token.Variable('b')];
  }

  /** ... and after both of them. */
  lemma PostfixOperatorAccepted()
    ensures Parsed("a b +") == Success(Operation(Expression.Variable('a'), '+', Expression.Variable('b')))
    ensures ParsedStrict("a b +") == Failure(OutOfTurn(Token.Variable('b')))
  {
    assert Lex("a b +").value == [Token.Variable('a'), Token.Variable('b'), Operator('+')];
  }

  // ---------------------------------------------------------------------
  // Soundness: the tree lists the input's non-bracket tokens in order

  /** The tokens of a tree read left to right, without brackets. */
  function Flatten(e: Expression): seq<Token> {
    match e
    case Number(n) => [Token.Number(n)]
    case Variable(c) => [Token.Variable(c)]
    case Operation(l, o, r) => Flatten(l) + [Operator(o)] + Flatten(r)
  }

  function Strip(ts: seq<Token>): (r: seq<Token>)
    ensures forall j :: 0 <= j < |r| ==> !IsBracket(r[j])
  {
    if ts == [] then []
    else Strip(ts[..|ts| - 1]) + (if IsBracket(ts[|ts| - 1]) then [] else [ts[|ts| - 1]])
  }

  /** The operators of an operator stack, without the bracket markers. */
  function PendingOps(s: Stack<StackEntry>): Stack<char> {
    match s
    case Nil => Nil
    case Push(below, Pending(p)) => Push(PendingOps(below), p)
    case Push(below, OpenBracket) => PendingOps(below)
  }

  /** The tokens that operands `s`, separated by operators `p`, stand for
      when the operand stack has one entry more than `p`. */
  function Closed(s: Stack<Expression>, p: Stack<char>): seq<Token>
    decreases s
  {
    match s
    case Nil => []
    case Push(below, e) =>
      match p
      case Nil => Flatten(e)
      case Push(p', o) => Closed(below, p') + [Operator(o)] + Flatten(e)
  }

  /** The same when an operand is still expected after the top operator. */
  function Open(s: Stack<Expression>, p: Stack<char>): seq<Token> {
    match p
    case Nil => []
    case Push(p', o) => Closed(s, p') + [Operator(o)]
  }

  /** What the stacks hold accounts for the non-bracket tokens read so far. */
  predicate Accounts(ss: Strict, done: seq<Token>) {
    var s, p := ss.stacks.operands, PendingOps(ss.stacks.operators);
    if ss.expectOperand then Size(s) == Size(p) && Open(s, p) == Strip(done)
    else Size(s) == Size(p) + 1 && Closed(s, p) == Strip(done)
  }

  /** One `build_operation` on a pending operator keeps what the stacks
      stand for. */
  lemma BuildKeepsClosed(st: Stacks)
    requires st.operators.Push? && st.operators.top.Pending?
    requires Size(st.operands) == Size(PendingOps(st.operators)) + 1
    ensures Build(st).Success?
    ensures Size(Build(st).value.operands) == Size(PendingOps(Build(st).value.operators)) + 1
    ensures Closed(Build(st).value.operands, PendingOps(Build(st).value.operators))
         == Closed(st.operands, PendingOps(st.operators))
  {
    var x, y := st.operands.below.top, st.operands.top;
    var rest := st.operands.below.below;
    var p := PendingOps(st.operators.below);
    if p.Push? {
      assert Closed(Push(rest, x), p) == Closed(rest, p.below) + [Operator(p.top)] + Flatten(x);
    }
  }

  lemma {:induction false} ReduceKeepsClosed(st: Stacks, prec: nat)
    requires Size(st.operands) == Size(PendingOps(st.operators)) + 1
    ensures Reduce(st, prec).Success?
    ensures var r := Reduce(st, prec).value;
      Size(r.operands) == Size(PendingOps(r.operators)) + 1 &&
      Closed(r.operands, PendingOps(r.operators)) == Closed(st.operands, PendingOps(st.operators))
    decreases st.operators
  {
    if !Settled(st.operators, prec) {
      BuildKeepsClosed(st);
      ReduceKeepsClosed(Build(st).value, prec);
    }
  }

  lemma StripSnoc(done: seq<Token>, t: Token)
    ensures Strip(done + [t]) == Strip(done) + (if IsBracket(t) then [] else [t])
  {
    assert (done + [t])[..|done|] == done;
  }

  lemma {:induction false} StepAccounts(ss: Strict, done: seq<Token>, t: Token)
    requires Accounts(ss, done) && StrictStep(ss, t).Success?
    ensures Accounts(StrictStep(ss, t).value, done + [t])
  {
    StripSnoc(done, t);
    var st := ss.stacks;
    var s, p := st.operands, PendingOps(st.operators);
    match t
    case Number(_) =>
      if p.Push? {
        assert Closed(Push(s, Leaf(t)), p) == Closed(s, p.below) + [Operator(p.top)] + Flatten(Leaf(t));
      }
    case Variable(_) =>
      if p.Push? {
        assert Closed(Push(s, Leaf(t)), p) == Closed(s, p.below) + [Operator(p.top)] + Flatten(Leaf(t));
      }
    case Operator(o) =>
      ReduceKeepsClosed(st, Precedence(o));
    case LeftBracket =>
    case RightBracket =>
      ReduceKeepsClosed(st, 0);
  }

  lemma {:induction false} StrictRunAccounts(ss: Strict, ts: seq<Token>, i: nat)
    requires i <= |ts| && Accounts(ss, ts[..i]) && StrictRun(ss, ts, i).Success?
    ensures Accounts(StrictRun(ss, ts, i).value, ts)
    decreases |ts| - i
  {
    if i == |ts| {
      assert ts[..i] == ts;
    } else {
      StepAccounts(ss, ts[..i], ts[i]);
      assert ts[..i] + [ts[i]] == ts[..i + 1];
      StrictRunAccounts(StrictStep(ss, ts[i]).value, ts, i + 1);
    }
  }

  lemma {:induction false} FinishKeepsClosed(st: Stacks)
    requires Size(st.operands) == Size(PendingOps(st.operators)) + 1
    requires Finish(st).Success?
    ensures Flatten(Finish(st).value) == Closed(st.operands, PendingOps(st.operators))
    decreases st.operators
  {
    if st.operators.Push? {
      BuildKeepsClosed(st);
      FinishKeepsClosed(Build(st).value);
    }
  }

  /** Every tree the corrected parser returns reads, left to right, as the
      input's tokens with the brackets left out. */
  lemma StrictSound(ts: seq<Token>)
    requires ShuntingYardStrict(ts).Success?
    ensures Flatten(ShuntingYardStrict(ts).value) == Strip(ts)
  {
    assert ts[..0] == [];
    StrictRunAccounts(StrictStart, ts, 0);
    FinishKeepsClosed(StrictRun(StrictStart, ts, 0).value.stacks);
  }

  /** The original parser has no such guarantee: the tree of "+ a b" reads "a + b". */
  lemma AsWrittenUnsound()
    ensures var ts := [Operator('+'), Token.Variable('a'), Token.Variable('b')];
      ShuntingYard(ts).Success? && Flatten(ShuntingYard(ts).value) != Strip(ts)
  {
    var ts := [Operator('+'), Token.Variable('a'), Token.Variable('b')];
    assert ts[..2][..1] == [Operator('+')] && ts[..1] == ts[..2][..1];
    assert Strip(ts[..1]) == [Operator('+')];
    assert Strip(ts)[0] == Operator('+');
    assert Flatten(ShuntingYard(ts).value)[0] == Token.Variable('a');
  }

  // ---------------------------------------------------------------------
  // Completeness: a fully bracketed rendering parses back to its tree

  /** Trees the tokenizer can produce: numbers in the `i32` range without a
      sign, single ASCII letters, the four operators. */
  predicate WellFormed(e: Expression) {
    match e
    case Number(n) => 0 <= n <= I32Max
    case Variable(c) => IsAsciiAlpha(c)
    case Operation(l, o, r) => IsOperatorChar(o) && WellFormed(l) && WellFormed(r)
  }

  /** The tree written with every operation in brackets. */
  function Render(e: Expression): string {
    match e
    case Number(n) => IntToString(n)
    case Variable(c) => [c]
    case Operation(l, o, r) => "(" + Render(l) + " " + [o] + " " + Render(r) + ")"
  }

  /** The tokens of `Render(e)`. */
  function Tokens(e: Expression): seq<Token> {
    match e
    case Number(n) => [Token.Number(n)]
    case Variable(c) => [Token.Variable(c)]
    case Operation(l, o, r) => [LeftBracket] + Tokens(l) + [Operator(o)] + Tokens(r) + [RightBracket]
  }

  /** The rendering of an operation lexes as the tokens of its parts
      between two bracket tokens. */
  lemma LexOperation(x: string, o: char, y: string)
    requires IsOperatorChar(o) && Lex(x).Success? && Lex(y).Success?
    ensures var s := "(" + x + " " + [o] + " " + y + ")";
      Lex(s).Success? && Lex(s).value == [LeftBracket] + Lex(x).value + [Operator(o)] + Lex(y).value + [RightBracket]
  {
    var a := y + ")";
    LexSingleChar(')', []);
    assert Lex([]) == Success([]);
    assert Lex(")").value == [RightBracket];
    LexJoin(y, ")");
    var b := " " + a;
    LexSingleChar(' ', a);
    var c := [o] + b;
    LexSingleChar(o, b);
    var d := " " + c;
    LexSingleChar(' ', c);
    var f := x + d;
    LexJoin(x, d);
    LexSingleChar('(', f);
    assert "(" + x + " " + [o] + " " + y + ")" == "(" + f;
    assert Lex("(" + f).value == [LeftBracket] + (Lex(x).value + ([Operator(o)] + (Lex(y).value + [RightBracket])));
  }

  lemma {:induction false} LexRender(e: Expression)
    requires WellFormed(e)
    ensures Lex(Render(e)).Success? && Lex(Render(e)).value == Tokens(e)
  {
    match e
    case Number(n) =>
      NatToStringValue(n);
      LexNumber(NatToString(n), []);
      assert NatToString(n) + [] == NatToString(n);
    case Variable(c) =>
      LexLetter(c, []);
      assert [c] + [] == [c];
    case Operation(l, o, r) =>
      LexRender(l);
      LexRender(r);
      LexOperation(Render(l), o, Render(r));
  }

  function StrictThen(r: Result<Strict, StrictError>, ts: seq<Token>): Result<Strict, StrictError> {
    if r.Failure? then r else StrictRun(r.value, ts, 0)
  }

  lemma {:induction false} StrictRunShift(ss: Strict, a: seq<Token>, b: seq<Token>, j: nat)
    requires j <= |b|
    ensures StrictRun(ss, a + b, |a| + j) == StrictRun(ss, b, j)
    decreases |b| - j
  {
    if j < |b| {
      assert (a + b)[|a| + j] == b[j];
      var r := StrictStep(ss, b[j]);
      if r.Success? {
        StrictRunShift(r.value, a, b, j + 1);
      }
    }
  }

  lemma {:induction false} StrictRunAppendFrom(ss: Strict, a: seq<Token>, b: seq<Token>, i: nat)
    requires i <= |a|
    ensures StrictRun(ss, a + b, i) == StrictThen(StrictRun(ss, a, i), b)
    decreases |a| - i
  {
    if i == |a| {
      StrictRunShift(ss, a, b, 0);
    } else {
      assert (a + b)[i] == a[i];
      var r := StrictStep(ss, a[i]);
      if r.Success? {
        StrictRunAppendFrom(r.value, a, b, i + 1);
      }
    }
  }

  lemma StrictRunAppend(ss: Strict, a: seq<Token>, b: seq<Token>)
    ensures StrictRun(ss, a + b, 0) == StrictThen(StrictRun(ss, a, 0), b)
  {
    StrictRunAppendFrom(ss, a, b, 0);
  }

  /** Reading the tokens of a tree where an operand is expected pushes
      exactly that tree, whatever the stacks held before. */
  lemma {:induction false} StrictRunTokens(operands: Stack<Expression>, operators: Stack<StackEntry>, e: Expression)
    ensures StrictRun(Strict(Stacks(operands, operators), true), Tokens(e), 0)
         == Success(Strict(Stacks(Push(operands, e), operators), false))
    decreases e
  {
    match e
    case Number(_) =>
    case Variable(_) =>
    case Operation(l, o, r) =>
      var ss0 := Strict(Stacks(operands, operators), true);
      var inner := Push(operators, OpenBracket);
      var ss1 := Strict(Stacks(operands, inner), true);
      var ss2 := Strict(Stacks(Push(operands, l), inner), false);
      var ss3 := Strict(Stacks(Push(operands, l), Push(inner, Pending(o))), true);
      var ss4 := Strict(Stacks(Push(Push(operands, l), r), Push(inner, Pending(o))), false);
      var ss5 := Strict(Stacks(Push(operands, e), operators), false);
      var t1 := [LeftBracket];
      var t2 := t1 + Tokens(l);
      var t3 := t2 + [Operator(o)];
      var t4 := t3 + Tokens(r);
      assert Tokens(e) == t4 + [RightBracket];
      assert StrictRun(ss0, t1, 0) == Success(ss1);
      StrictRunTokens(operands, inner, l);
      StrictRunAppend(ss0, t1, Tokens(l));
      assert StrictRun(ss2, [Operator(o)], 0) == Success(ss3);
      StrictRunAppend(ss0, t2, [Operator(o)]);
      StrictRunTokens(Push(operands, l), Push(inner, Pending(o)), r);
      StrictRunAppend(ss0, t3, Tokens(r));
      assert Reduce(ss4.stacks, 0) == Success(Stacks(Push(operands, e), inner));
      assert StrictRun(ss4, [RightBracket], 0) == Success(ss5);
      StrictRunAppend(ss0, t4, [RightBracket]);
  }

  /** The corrected parser reads a fully bracketed rendering back as the tree. */
  lemma StrictRoundTrip(e: Expression)
    requires WellFormed(e)
    ensures ParsedStrict(Render(e)) == Success(e)
  {
    LexRender(e);
    StrictRunTokens(Nil, Nil, e);
  }

  /** So does the parser as written. */
  lemma RoundTrip(e: Expression)
    requires WellFormed(e)
    ensures Parsed(Render(e)) == Success(e)
  {
    StrictRoundTrip(e);
    StrictAgrees(Render(e));
  }
}
