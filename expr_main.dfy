/** The copy of the expression compiler in `rust-enums/src/main.rs`. Its
    tokenizer and token loop are those of lib.rs; only the end of `parse`
    is written differently: it reduces down to the first open bracket and
    then checks what is left. Its `main` is a suite of assertions, stated
    here as lemmas about the model. */
module ExprMain {
  import opened Wrappers
  import opened ExprLexer
  import opened ExprParser

  /** The end of `parse` in main.rs. */
  function FinishMain(st: Stacks): Result<Expression, ParseError> {
    var st' :- Reduce(st, 0);
    if st'.operators.Push? then Failure(UnmatchedOpeningBracket)
    else
      match st'.operands
      case Push(Nil, root) => Success(root)
      case _ => Failure(NoRoot(Size(st'.operands)))
  }

  /** Both ways of ending the parse give the same result, failures included. */
  lemma {:induction false} FinishMainAgrees(st: Stacks)
    ensures FinishMain(st) == Finish(st)
    decreases st.operators
  {
    if st.operators.Push? && st.operators.top.Pending? {
      var b := Build(st);
      if b.Success? {
        FinishMainAgrees(b.value);
      }
    }
  }

  function ParsedMain(input: string): Result<Expression, ParseError> {
    match Lex(input)
    case Failure(cause) => Failure(Lexical(cause))
    case Success(ts) =>
      var st :- Run(Start, ts, 0);
      FinishMain(st)
  }

  lemma ParsedMainAgrees(input: string)
    ensures ParsedMain(input) == Parsed(input)
  {
    var l := Lex(input);
    if l.Success? {
      var r := Run(Start, l.value, 0);
      if r.Success? {
        FinishMainAgrees(r.value);
      }
    }
  }

  /** `parse` of main.rs. */
  method ParseMain(input: string) returns (r: Result<Expression, ParseError>)
    ensures r == ParsedMain(input)
  {
    var lexed := Tokenize(input);
    if lexed.Failure? {
      return Failure(Lexical(lexed.error));
    }
    var shunted := Shunt(lexed.value);
    if shunted.Failure? {
      return Failure(shunted.error);
    }
    var operands, operators := shunted.value.operands, shunted.value.operators;
    ghost var after := Stacks(operands, operators);
    while operators.Push? && operators.top.Pending?
      invariant Reduce(after, 0) == Reduce(Stacks(operands, operators), 0)
      decreases operators
    {
      var built := Build(Stacks(operands, operators));
      if built.Failure? {
        return Failure(built.error);
      }
      operands, operators := built.value.operands, built.value.operators;
    }
    if operators.Push? {
      return Failure(UnmatchedOpeningBracket);
    }
    match operands
    case Push(Nil, root) =>
      return Success(root);
    case _ =>
      return Failure(NoRoot(Size(operands)));
  }
}
