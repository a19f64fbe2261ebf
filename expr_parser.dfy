/** The shunting-yard parser of `rust-enums/src/lib.rs`, exactly as written:
    an operand stack of finished subtrees and an operator stack of pending
    operators and open-bracket markers. Every `panic!` and failing `unwrap`
    of the source is a `ParseError`. */
module ExprParser {
  import opened Wrappers
  import opened ExprLexer

  datatype Expression =
    | Number(n: int)
    | Variable(name: char)
    | Operation(left: Expression, operator: char, right: Expression)

  /** A `Vec` used only through `push`, `pop` and `last`. */
  datatype Stack<T> = Nil | Push(below: Stack<T>, top: T)

  function Size<T>(s: Stack<T>): nat {
    if s.Nil? then 0 else 1 + Size(s.below)
  }

  /** The stack holding the elements of `s`, the last one on top. */
  function StackOf<T>(s: seq<T>): (r: Stack<T>)
    ensures Size(r) == |s|
  {
    StackFrom(s, |s|)
  }

  function StackFrom<T>(s: seq<T>, n: nat): (r: Stack<T>)
    requires n <= |s|
    ensures Size(r) == n
  {
    if n == 0 then Nil else Push(StackFrom(s, n - 1), s[n - 1])
  }

  /** An entry of the operator stack: an operator waiting for its right
      operand, or the marker left by `(`. */
  datatype StackEntry = Pending(op: char) | OpenBracket

  datatype Stacks = Stacks(operands: Stack<Expression>, operators: Stack<StackEntry>)

  const Start := Stacks(Nil, Nil)

  datatype ParseError =
    | Lexical(cause: LexError)       // `tokenize` panicked
    | MissingOperand                 // `operands.pop().unwrap()` in `build_operation`
    | NoOpeningBracket               // `)` with no `(` below it
    | UnmatchedOpeningBracket        // `(` left over at the end of input
    | NoRoot(count: nat)             // the operand stack does not hold exactly one tree

  function Precedence(op: char): (p: nat)
    ensures p <= 2
    ensures p == 2 <==> op == '*' || op == '/'
    ensures p == 1 <==> op == '+' || op == '-'
  {
    match op
    case '*' => 2
    case '/' => 2
    case '+' => 1
    case '-' => 1
    case _ => 0
  }

  /** Number of open-bracket markers on an operator stack. */
  function Brackets(s: Stack<StackEntry>): nat {
    match s
    case Nil => 0
    case Push(below, e) => Brackets(below) + (if e == OpenBracket then 1 else 0)
  }

  /** `r` is what is left of `s` after popping only pending operators. */
  predicate PoppedPending(s: Stack<StackEntry>, r: Stack<StackEntry>) {
    s == r || (s.Push? && s.top.Pending? && PoppedPending(s.below, r))
  }

  /** `build_operation`: pops the top operator; for a pending operator pops
      the right and then the left operand and pushes one node joining them. */
  function Build(st: Stacks): (r: Result<Stacks, ParseError>)
    requires st.operators.Push?
    ensures r.Success? ==> r.value.operators == st.operators.below
    ensures st.operators.top == OpenBracket ==> r == Success(Stacks(st.operands, st.operators.below))
    ensures st.operators.top.Pending? ==> (r.Success? <==> Size(st.operands) >= 2)
    ensures st.operators.top.Pending? && r.Success? ==>
      Size(r.value.operands) == Size(st.operands) - 1 &&
      r.value.operands.below == st.operands.below.below &&
      r.value.operands.top == Operation(st.operands.below.top, st.operators.top.op, st.operands.top)
    ensures r.Failure? ==> r.error == MissingOperand
  {
    match st.operators.top
    case OpenBracket => Success(Stacks(st.operands, st.operators.below))
    case Pending(o) =>
      match st.operands
      case Push(Push(rest, left), right) => Success(Stacks(Push(rest, Operation(left, o, right)), st.operators.below))
      case _ => Failure(MissingOperand)
  }

  /** The operator stack holds nothing that an incoming operator of rank
      `prec` would still reduce. */
  predicate Settled(operators: Stack<StackEntry>, prec: nat) {
    operators.Nil? || operators.top == OpenBracket || Precedence(operators.top.op) < prec
  }

  /** The `while` loop before pushing an operator (with the incoming rank)
      and before consuming `)` (with rank 0, which every operator reaches). */
  function Reduce(st: Stacks, prec: nat): (r: Result<Stacks, ParseError>)
    decreases st.operators
    ensures r.Success? ==>
      PoppedPending(st.operators, r.value.operators) &&
      Settled(r.value.operators, prec) &&
      Size(r.value.operands) + Size(st.operators) == Size(st.operands) + Size(r.value.operators)
    ensures r.Failure? ==> r.error == MissingOperand
  {
    if Settled(st.operators, prec) then Success(st)
    else
      var st' :- Build(st);
      Reduce(st', prec)
  }

  /** One iteration of the `for token in tokens` loop. */
  function Step(st: Stacks, t: Token): Result<Stacks, ParseError> {
    match t
    case Number(v) => Success(Stacks(Push(st.operands, Expression.Number(v)), st.operators))
    case Variable(c) => Success(Stacks(Push(st.operands, Expression.Variable(c)), st.operators))
    case Operator(o) =>
      var st' :- Reduce(st, Precedence(o));
      Success(Stacks(st'.operands, Push(st'.operators, Pending(o))))
    case LeftBracket => Success(Stacks(st.operands, Push(st.operators, OpenBracket)))
    case RightBracket =>
      var st' :- Reduce(st, 0);
      if st'.operators.Nil? then Failure(NoOpeningBracket)
      else Success(Stacks(st'.operands, st'.operators.below))
  }

  /** The token loop from position `i` on. */
  function Run(st: Stacks, ts: seq<Token>, i: nat): Result<Stacks, ParseError>
    requires i <= |ts|
    decreases |ts| - i
  {
    if i == |ts| then Success(st)
    else
      var st' :- Step(st, ts[i]);
      Run(st', ts, i + 1)
  }

  /** The end of `parse`: a leftover `(` fails, every pending operator is
      reduced, and exactly one operand must remain. */
  function Finish(st: Stacks): (r: Result<Expression, ParseError>)
    decreases st.operators
    ensures Brackets(st.operators) > 0 ==> r.Failure?
    ensures r.Success? ==> Size(st.operands) == Size(st.operators) + 1
  {
    match st.operators
    case Nil =>
      (match st.operands
       case Push(Nil, root) => Success(root)
       case _ => Failure(NoRoot(Size(st.operands))))
    case Push(_, OpenBracket) => Failure(UnmatchedOpeningBracket)
    case Push(_, Pending(_)) =>
      var st' :- Build(st);
      Finish(st')
  }

  function ShuntingYard(ts: seq<Token>): Result<Expression, ParseError> {
    var st :- Run(Start, ts, 0);
    Finish(st)
  }

  /** `parse`: tokenize, then run the shunting-yard loop. */
  function Parsed(input: string): Result<Expression, ParseError> {
    match Lex(input)
    case Failure(e) => Failure(Lexical(e))
    case Success(ts) => ShuntingYard(ts)
  }

  /** Continue a run that reached `r` with the tokens `ts`. */
  function Then(r: Result<Stacks, ParseError>, ts: seq<Token>): Result<Stacks, ParseError> {
    if r.Failure? then r else Run(r.value, ts, 0)
  }

  lemma {:induction false} RunShift(st: Stacks, a: seq<Token>, b: seq<Token>, j: nat)
    requires j <= |b|
    ensures Run(st, a + b, |a| + j) == Run(st, b, j)
    decreases |b| - j
  {
    if j < |b| {
      assert (a + b)[|a| + j] == b[j];
      var r := Step(st, b[j]);
      if r.Success? {
        RunShift(r.value, a, b, j + 1);
      }
    }
  }

  /** Running over `a + b` is running over `a` and then over `b`. */
  lemma RunAppend(st: Stacks, a: seq<Token>, b: seq<Token>)
    ensures Run(st, a + b, 0) == Then(Run(st, a, 0), b)
  {
    RunAppendFrom(st, a, b, 0);
  }

  lemma {:induction false} RunAppendFrom(st: Stacks, a: seq<Token>, b: seq<Token>, i: nat)
    requires i <= |a|
    ensures Run(st, a + b, i) == Then(Run(st, a, i), b)
    decreases |a| - i
  {
    if i == |a| {
      RunShift(st, a, b, 0);
    } else {
      assert (a + b)[i] == a[i];
      var r := Step(st, a[i]);
      if r.Success? {
        RunAppendFrom(r.value, a, b, i + 1);
      }
    }
  }

  /** The operator stack below the topmost open-bracket marker. */
  function BelowBracket(s: Stack<StackEntry>): Stack<StackEntry> {
    match s
    case Nil => Nil
    case Push(below, OpenBracket) => below
    case Push(below, Pending(_)) => BelowBracket(below)
  }

  lemma {:induction false} PoppedPendingBrackets(s: Stack<StackEntry>, r: Stack<StackEntry>)
    requires PoppedPending(s, r)
    ensures Brackets(s) == Brackets(r) && BelowBracket(s) == BelowBracket(r)
  {
    if s != r {
      PoppedPendingBrackets(s.below, r);
    }
  }

  /** A `)` fails when no `(` is open; otherwise it removes exactly the
      topmost marker, with the pending operators above it. */
  lemma RightBracketMatches(st: Stacks)
    ensures Brackets(st.operators) == 0 ==> Step(st, RightBracket).Failure?
    ensures Step(st, RightBracket).Success? ==>
      Step(st, RightBracket).value.operators == BelowBracket(st.operators) &&
      Brackets(Step(st, RightBracket).value.operators) + 1 == Brackets(st.operators)
  {
    var r := Reduce(st, 0);
    if r.Success? {
      PoppedPendingBrackets(st.operators, r.value.operators);
    }
  }

  predicate IsAtom(t: Token) {
    t.Number? || t.Variable?
  }

  function Leaf(t: Token): (e: Expression)
    requires IsAtom(t)
    ensures e.Number? <==> t.Number?
  {
    if t.Number? then Expression.Number(t.n) else Expression.Variable(t.name)
  }

  /** `x p y q z` groups to the left exactly when `p` ranks at least as high
      as `q`: higher ranks bind tighter and equal ranks associate left. */
  lemma Grouping(x: Token, p: char, y: Token, q: char, z: Token)
    requires IsAtom(x) && IsAtom(y) && IsAtom(z)
    ensures Precedence(p) >= Precedence(q) ==>
      ShuntingYard([x, Operator(p), y, Operator(q), z]) == Success(Operation(Operation(Leaf(x), p, Leaf(y)), q, Leaf(z)))
    ensures Precedence(p) < Precedence(q) ==>
      ShuntingYard([x, Operator(p), y, Operator(q), z]) == Success(Operation(Leaf(x), p, Operation(Leaf(y), q, Leaf(z))))
  {
    var ts := [x, Operator(p), y, Operator(q), z];
    var X, Y, Z := Leaf(x), Leaf(y), Leaf(z);
    assert Run(Start, ts, 0) == Run(Stacks(Push(Nil, X), Nil), ts, 1);
    assert Run(Start, ts, 0) == Run(Stacks(Push(Nil, X), Push(Nil, Pending(p))), ts, 2);
    var s3 := Stacks(Push(Push(Nil, X), Y), Push(Nil, Pending(p)));
    assert Run(Start, ts, 0) == Run(s3, ts, 3);
    if Precedence(p) >= Precedence(q) {
      assert Reduce(s3, Precedence(q)) == Success(Stacks(Push(Nil, Operation(X, p, Y)), Nil));
      var s4 := Stacks(Push(Nil, Operation(X, p, Y)), Push(Nil, Pending(q)));
      assert Run(Start, ts, 0) == Run(s4, ts, 4);
      var s5 := Stacks(Push(s4.operands, Z), s4.operators);
      assert Run(Start, ts, 0) == Run(s5, ts, 5) == Success(s5);
      assert Build(s5) == Success(Stacks(Push(Nil, Operation(Operation(X, p, Y), q, Z)), Nil));
      assert Finish(Stacks(Push(Nil, Operation(Operation(X, p, Y), q, Z)), Nil)) == Success(Operation(Operation(X, p, Y), q, Z));
    } else {
      var s4 := Stacks(Push(Push(Nil, X), Y), Push(Push(Nil, Pending(p)), Pending(q)));
      assert Run(Start, ts, 0) == Run(s4, ts, 4);
      var s5 := Stacks(Push(s4.operands, Z), s4.operators);
      assert Run(Start, ts, 0) == Run(s5, ts, 5) == Success(s5);
      var s6 := Stacks(Push(Push(Nil, X), Operation(Y, q, Z)), Push(Nil, Pending(p)));
      assert Build(s5) == Success(s6);
      var s7 := Stacks(Push(Nil, Operation(X, p, Operation(Y, q, Z))), Nil);
      assert Build(s6) == Success(s7);
      assert Finish(s5) == Finish(s6) == Finish(s7);
      assert Finish(Stacks(Push(Nil, Operation(X, p, Operation(Y, q, Z))), Nil)) == Success(Operation(X, p, Operation(Y, q, Z)));
    }
  }

  /** `parse` of lib.rs: tokenize, run the token loop, then the final
      reduction loop and the root check. */
  method Parse(input: string) returns (r: Result<Expression, ParseError>)
    ensures r == Parsed(input)
  {
    var lexed := Tokenize(input);
    if lexed.Failure? {
      return Failure(Lexical(lexed.error));
    }
    var shunted := Shunt(lexed.value);
    if shunted.Failure? {
      return Failure(shunted.error);
    }
    var operands, operators := shunted.value.operands, shunted.value.operators;
    ghost var after := Stacks(operands, operators);
    while operators.Push?
      invariant Finish(after) == Finish(Stacks(operands, operators))
      decreases operators
    {
      if operators.top == OpenBracket {
        return Failure(UnmatchedOpeningBracket);
      }
      var built := Build(Stacks(operands, operators));
      if built.Failure? {
        return Failure(built.error);
      }
      operands, operators := built.value.operands, built.value.operators;
    }
    match operands
    case Push(Nil, root) =>
      return Success(root);
    case _ =>
      return Failure(NoRoot(Size(operands)));
  }

  /** The `for token in tokens` loop of `parse`, shared verbatim by lib.rs
      and main.rs, with the two stacks updated in place. */
  method Shunt(tokens: seq<Token>) returns (r: Result<Stacks, ParseError>)
    ensures r == Run(Start, tokens, 0)
  {
    var operands: Stack<Expression> := Nil;
    var operators: Stack<StackEntry> := Nil;
    for i := 0 to |tokens|
      invariant Run(Start, tokens, 0) == Run(Stacks(operands, operators), tokens, i)
    {
      match tokens[i]
      case Variable(c) =>
        operands := Push(operands, Expression.Variable(c));
      case Number(v) =>
        operands := Push(operands, Expression.Number(v));
      case Operator(o) =>
        ghost var before := Stacks(operands, operators);
        while operators.Push? && operators.top.Pending? && Precedence(operators.top.op) >= Precedence(o)
          invariant Reduce(before, Precedence(o)) == Reduce(Stacks(operands, operators), Precedence(o))
          decreases operators
        {
          var built := Build(Stacks(operands, operators));
          if built.Failure? {
            return Failure(built.error);
          }
          operands, operators := built.value.operands, built.value.operators;
        }
        operators := Push(operators, Pending(o));
      case LeftBracket =>
        operators := Push(operators, OpenBracket);
      case RightBracket =>
        ghost var before := Stacks(operands, operators);
        while operators.Push? && operators.top.Pending?
          invariant Reduce(before, 0) == Reduce(Stacks(operands, operators), 0)
          decreases operators
        {
          var built := Build(Stacks(operands, operators));
          if built.Failure? {
            return Failure(built.error);
          }
          operands, operators := built.value.operands, built.value.operators;
        }
        if operators.Nil? {
          return Failure(NoOpeningBracket);
        }
        operators := operators.below;
    }
    return Success(Stacks(operands, operators));
  }
}
