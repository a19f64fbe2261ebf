/** The concrete examples of the expression compiler: the documentation
    examples of `tokenize` and `parse` in rust-enums/src/lib.rs, and the
    assertions of `main` in rust-enums/src/main.rs (stated about the
    main.rs copy of `parse`, `ParsedMain`).

    Each example is proved in three layers, so that no single proof has to
    evaluate a long input at once: the tokens of the input (joined from
    short pieces with `LexJoin`), the shunting-yard run over those tokens
    (joined from short runs with `RunAppend`), and a short lemma putting
    the two together. */
module ExprExamples {
  import opened Wrappers
  import opened ExprLexer
  import opened ExprParser
  import opened ExprMain

  const a := Expression.Variable('a')
  const b := Expression.Variable('b')
  const c := Expression.Variable('c')
  const d := Expression.Variable('d')
  const e := Expression.Variable('e')
  const f := Expression.Variable('f')
  const g := Expression.Variable('g')
  const x := Expression.Variable('x')
  const y := Expression.Variable('y')

  // ---------------------------------------------------------------------
  // The documentation examples of lib.rs

  lemma TokenizeExamples()
    ensures Lex("1 + 2").Success? && Lex("1 + 2").value == [Token.Number(1), Operator('+'), Token.Number(2)]
    ensures Lex("x * y").Success? && Lex("x * y").value == [Token.Variable('x'), Operator('*'), Token.Variable('y')]
    ensures Lex("(a + b) * c").Success?
    ensures Lex("(a + b) * c").value == [LeftBracket, Token.Variable('a'), Operator('+'), Token.Variable('b'), RightBracket, Operator('*'), Token.Variable('c')]
  {
    LexSumOfNumbers();
    LexProduct();
    LexBracketsFirst();
  }

  lemma ParseExamples()
    ensures Parsed("1 + 2") == Success(Operation(Expression.Number(1), '+', Expression.Number(2)))
    ensures Parsed("x * y") == Success(Operation(x, '*', y))
    ensures Parsed("(a + b) * c") == Success(Operation(Operation(a, '+', b), '*', c))
  {
    LexSumOfNumbers();
    LexProduct();
    LexBracketsFirst();
    RunBracketsFirst();
  }

  // ---------------------------------------------------------------------
  // The assertions of `main` in main.rs

  lemma Atoms()
    ensures ParsedMain("x") == Success(x)
    ensures ParsedMain("4") == Success(Expression.Number(4))
    ensures ParsedMain("  3  ") == Success(Expression.Number(3))
  {
    ParsedMainAgrees("x");
    ParsedMainAgrees("4");
    ParsedMainAgrees("  3  ");
  }

  lemma BinaryOperations()
    ensures ParsedMain("a + b") == Success(Operation(a, '+', b))
    ensures ParsedMain("x*y") == Success(Operation(x, '*', y))
  {
    ParsedMainAgrees("a + b");
    ParsedMainAgrees("x*y");
  }

  lemma ProductOnTheRight()
    ensures ParsedMain("a + b * c") == Success(Operation(a, '+', Operation(b, '*', c)))
  {
    ParsedMainAgrees("a + b * c");
    assert Lex("a + b * c").value == [Token.Variable('a'), Operator('+'), Token.Variable('b'), Operator('*'), Token.Variable('c')];
  }

  lemma ProductOnTheLeft()
    ensures ParsedMain("a * b + c") == Success(Operation(Operation(a, '*', b), '+', c))
  {
    ParsedMainAgrees("a * b + c");
    assert Lex("a * b + c").value == [Token.Variable('a'), Operator('*'), Token.Variable('b'), Operator('+'), Token.Variable('c')];
  }

  lemma BracketsOverridePrecedence()
    ensures ParsedMain("(a + b) * c") == Success(Operation(Operation(a, '+', b), '*', c))
  {
    ParsedMainAgrees("(a + b) * c");
    ParseExamples();
  }

  lemma NestedBrackets()
    ensures ParsedMain("((a + b) * c) + d") == Success(Operation(Operation(Operation(a, '+', b), '*', c), '+', d))
  {
    ParsedMainAgrees("((a + b) * c) + d");
    LexNested();
    RunNested();
  }

  lemma ComplexChain()
    ensures ParsedMain("a + b + c * d * e - f / g") ==
      Success(Operation(
        Operation(Operation(a, '+', b), '+', Operation(Operation(c, '*', d), '*', e)),
        '-',
        Operation(f, '/', g)))
  {
    ParsedMainAgrees("a + b + c * d * e - f / g");
    LexChain();
    RunChain();
  }

  lemma SpacesIgnored()
    ensures ParsedMain("  a  +  (  x  *  3  )  ") == ParsedMain("a+(x*3)")
  {
    ParsedMainAgrees("  a  +  (  x  *  3  )  ");
    ParsedMainAgrees("a+(x*3)");
    LexSpaced();
  }

  /** The inputs `main` expects to panic on, with the panic each one
      reaches in the source. */
  lemma IncompleteInputs()
    ensures ParsedMain("") == Failure(NoRoot(0))
    ensures ParsedMain("   ") == Failure(NoRoot(0))
    ensures ParsedMain("a +") == Failure(MissingOperand)
  {
    ParsedMainAgrees("");
    ParsedMainAgrees("   ");
    ParsedMainAgrees("a +");
  }

  lemma TrailingOperator()
    ensures ParsedMain("a + b +") == Failure(MissingOperand)
  {
    ParsedMainAgrees("a + b +");
    assert Lex("a + b +").value == [Token.Variable('a'), Operator('+'), Token.Variable('b'), Operator('+')];
  }

  lemma UnclosedBracket()
    ensures ParsedMain("(a + b") == Failure(UnmatchedOpeningBracket)
  {
    ParsedMainAgrees("(a + b");
    assert Lex("(a + b").value == [LeftBracket, Token.Variable('a'), Operator('+'), Token.Variable('b')];
  }

  lemma ExtraBracket()
    ensures ParsedMain("a + b)") == Failure(NoOpeningBracket)
  {
    ParsedMainAgrees("a + b)");
    assert Lex("a + b)").value == [Token.Variable('a'), Operator('+'), Token.Variable('b'), RightBracket];
  }

  lemma TwoOperatorsInARow()
    ensures ParsedMain("a + * b") == Failure(MissingOperand)
  {
    ParsedMainAgrees("a + * b");
    assert Lex("a + * b").value == [Token.Variable('a'), Operator('+'), Operator('*'), Token.Variable('b')];
  }

  lemma LeadingOperators()
    ensures ParsedMain("++a") == Failure(MissingOperand)
  {
    ParsedMainAgrees("++a");
    assert Lex("++a").value == [Operator('+'), Operator('+'), Token.Variable('a')];
  }

  lemma AdjacentVariables()
    ensures ParsedMain("a b") == Failure(NoRoot(2))
  {
    ParsedMainAgrees("a b");
    assert Lex("a b").value == [Token.Variable('a'), Token.Variable('b')];
  }

  lemma NumberNextToLetters()
    ensures ParsedMain("123abc") == Failure(NoRoot(4))
  {
    ParsedMainAgrees("123abc");
    assert Lex("123abc").value == [Token.Number(123), Token.Variable('a'), Token.Variable('b'), Token.Variable('c')];
  }

  lemma UnknownSymbols()
    ensures ParsedMain("a! + b") == Failure(Lexical(UnknownSymbol('!')))
    ensures ParsedMain("@") == Failure(Lexical(UnknownSymbol('@')))
  {
    ParsedMainAgrees("a! + b");
    ParsedMainAgrees("@");
  }

  // ---------------------------------------------------------------------
  // The tokens of the longer inputs, joined from short pieces

  lemma LexSumOfNumbers()
    ensures Lex("1 + 2").Success? && Lex("1 + 2").value == [Token.Number(1), Operator('+'), Token.Number(2)]
  {
  }

  lemma LexProduct()
    ensures Lex("x * y").Success? && Lex("x * y").value == [Token.Variable('x'), Operator('*'), Token.Variable('y')]
  {
  }

  lemma LexBracketsFirst()
    ensures Lex("(a + b) * c").Success?
    ensures Lex("(a + b) * c").value == [LeftBracket, Token.Variable('a'), Operator('+'), Token.Variable('b'), RightBracket, Operator('*'), Token.Variable('c')]
  {
    assert Lex("(a + b)").value == [LeftBracket, Token.Variable('a'), Operator('+'), Token.Variable('b'), RightBracket];
    assert Lex(" * c").value == [Operator('*'), Token.Variable('c')];
    LexJoin("(a + b)", " * c");
    assert "(a + b)" + " * c" == "(a + b) * c";
  }

  lemma LexNestedHead()
    ensures Lex("((a + b) * c)").Success?
    ensures Lex("((a + b) * c)").value == [LeftBracket, LeftBracket, Token.Variable('a'), Operator('+'), Token.Variable('b'), RightBracket, Operator('*'), Token.Variable('c'), RightBracket]
  {
    LexSingleChar('(', "(a + b) * c)");
    LexBracketsFirst();
    assert Lex(")").value == [RightBracket];
    LexJoin("(a + b) * c", ")");
    assert "(a + b) * c" + ")" == "(a + b) * c)";
    assert "(" + "(a + b) * c)" == "((a + b) * c)";
  }

  lemma LexNested()
    ensures Lex("((a + b) * c) + d").Success?
    ensures Lex("((a + b) * c) + d").value == [LeftBracket, LeftBracket, Token.Variable('a'), Operator('+'), Token.Variable('b'), RightBracket, Operator('*'), Token.Variable('c'), RightBracket, Operator('+'), Token.Variable('d')]
  {
    LexNestedHead();
    assert Lex(" + d").value == [Operator('+'), Token.Variable('d')];
    LexJoin("((a + b) * c)", " + d");
    assert "((a + b) * c)" + " + d" == "((a + b) * c) + d";
  }

  lemma LexChain()
    ensures Lex("a + b + c * d * e - f / g").Success?
    ensures Lex("a + b + c * d * e - f / g").value ==
      [Token.Variable('a'), Operator('+'), Token.Variable('b'), Operator('+'), Token.Variable('c'),
       Operator('*'), Token.Variable('d'), Operator('*'), Token.Variable('e'),
       Operator('-'), Token.Variable('f'), Operator('/'), Token.Variable('g')]
  {
    LexChainHead();
    assert Lex(" - f / g").value == [Operator('-'), Token.Variable('f'), Operator('/'), Token.Variable('g')];
    LexJoin("a + b + c * d * e", " - f / g");
    assert "a + b + c * d * e" + " - f / g" == "a + b + c * d * e - f / g";
  }

  lemma LexChainHead()
    ensures Lex("a + b + c * d * e").Success?
    ensures Lex("a + b + c * d * e").value ==
      [Token.Variable('a'), Operator('+'), Token.Variable('b'), Operator('+'), Token.Variable('c'),
       Operator('*'), Token.Variable('d'), Operator('*'), Token.Variable('e')]
  {
    assert Lex("a + b + c").value == [Token.Variable('a'), Operator('+'), Token.Variable('b'), Operator('+'), Token.Variable('c')];
    assert Lex(" * d * e").value == [Operator('*'), Token.Variable('d'), Operator('*'), Token.Variable('e')];
    LexJoin("a + b + c", " * d * e");
    assert "a + b + c" + " * d * e" == "a + b + c * d * e";
  }

  /** Both inputs of `SpacesIgnored` have the same tokens. */
  lemma LexSpaced()
    ensures Lex("  a  +  (  x  *  3  )  ").Success? && Lex("a+(x*3)").Success?
    ensures Lex("  a  +  (  x  *  3  )  ").value == Lex("a+(x*3)").value
  {
    LexSpacedHead();
    assert Lex("  )  ").value == [RightBracket];
    LexJoin("  a  +  (  x  *  3", "  )  ");
    assert "  a  +  (  x  *  3" + "  )  " == "  a  +  (  x  *  3  )  ";
    assert Lex("a+(x*3)").value == [Token.Variable('a'), Operator('+'), LeftBracket, Token.Variable('x'), Operator('*'), Token.Number(3), RightBracket];
  }

  lemma LexSpacedHead()
    ensures Lex("  a  +  (  x  *  3").Success?
    ensures Lex("  a  +  (  x  *  3").value == [Token.Variable('a'), Operator('+'), LeftBracket, Token.Variable('x'), Operator('*'), Token.Number(3)]
  {
    assert Lex("  a  +  (").value == [Token.Variable('a'), Operator('+'), LeftBracket];
    assert Lex("  x  *  3").value == [Token.Variable('x'), Operator('*'), Token.Number(3)];
    LexJoin("  a  +  (", "  x  *  3");
    assert "  a  +  (" + "  x  *  3" == "  a  +  (  x  *  3";
  }

  // ---------------------------------------------------------------------
  // The shunting-yard runs over those tokens, joined from short runs

  lemma RunBracketsFirst()
    ensures ShuntingYard([LeftBracket, Token.Variable('a'), Operator('+'), Token.Variable('b'), RightBracket, Operator('*'), Token.Variable('c')])
         == Success(Operation(Operation(a, '+', b), '*', c))
  {
  }

  lemma RunNested()
    ensures ShuntingYard([LeftBracket, LeftBracket, Token.Variable('a'), Operator('+'), Token.Variable('b'), RightBracket, Operator('*'), Token.Variable('c'), RightBracket, Operator('+'), Token.Variable('d')])
         == Success(Operation(Operation(Operation(a, '+', b), '*', c), '+', d))
  {
    var p1 := [LeftBracket, LeftBracket, Token.Variable('a'), Operator('+'), Token.Variable('b')];
    var p2 := [RightBracket, Operator('*'), Token.Variable('c'), RightBracket];
    var p3 := [Operator('+'), Token.Variable('d')];
    RunNestedHead();
    RunNestedMiddle();
    RunAppend(Start, p1, p2);
    RunAppend(Start, p1 + p2, p3);
    assert p1 + p2 + p3 == [LeftBracket, LeftBracket, Token.Variable('a'), Operator('+'), Token.Variable('b'), RightBracket, Operator('*'), Token.Variable('c'), RightBracket, Operator('+'), Token.Variable('d')];
  }

  lemma RunNestedHead()
    ensures Run(Start, [LeftBracket, LeftBracket, Token.Variable('a'), Operator('+'), Token.Variable('b')], 0)
         == Success(Stacks(Push(Push(Nil, a), b), Push(Push(Push(Nil, OpenBracket), OpenBracket), Pending('+'))))
  {
  }

  lemma RunNestedMiddle()
    ensures Run(Stacks(Push(Push(Nil, a), b), Push(Push(Push(Nil, OpenBracket), OpenBracket), Pending('+'))),
                [RightBracket, Operator('*'), Token.Variable('c'), RightBracket], 0)
         == Success(Stacks(Push(Nil, Operation(Operation(a, '+', b), '*', c)), Nil))
  {
  }

  lemma RunChain()
    ensures ShuntingYard(
      [Token.Variable('a'), Operator('+'), Token.Variable('b'), Operator('+'), Token.Variable('c'),
       Operator('*'), Token.Variable('d'), Operator('*'), Token.Variable('e'),
       Operator('-'), Token.Variable('f'), Operator('/'), Token.Variable('g')])
      == Success(Operation(
        Operation(Operation(a, '+', b), '+', Operation(Operation(c, '*', d), '*', e)),
        '-',
        Operation(f, '/', g)))
  {
    var p1 := [Token.Variable('a'), Operator('+'), Token.Variable('b'), Operator('+'), Token.Variable('c')];
    var p2 := [Operator('*'), Token.Variable('d'), Operator('*'), Token.Variable('e')];
    var p3 := [Operator('-'), Token.Variable('f'), Operator('/'), Token.Variable('g')];
    RunChainHead();
    RunChainMiddle();
    RunAppend(Start, p1, p2);
    RunAppend(Start, p1 + p2, p3);
    assert p1 + p2 + p3 ==
      [Token.Variable('a'), Operator('+'), Token.Variable('b'), Operator('+'), Token.Variable('c'),
       Operator('*'), Token.Variable('d'), Operator('*'), Token.Variable('e'),
       Operator('-'), Token.Variable('f'), Operator('/'), Token.Variable('g')];
  }

  lemma RunChainHead()
    ensures Run(Start, [Token.Variable('a'), Operator('+'), Token.Variable('b'), Operator('+'), Token.Variable('c')], 0)
         == Success(Stacks(Push(Push(Nil, Operation(a, '+', b)), c), Push(Nil, Pending('+'))))
  {
  }

  lemma RunChainMiddle()
    ensures Run(Stacks(Push(Push(Nil, Operation(a, '+', b)), c), Push(Nil, Pending('+'))),
                [Operator('*'), Token.Variable('d'), Operator('*'), Token.Variable('e')], 0)
         == Success(Stacks(Push(Push(Push(Nil, Operation(a, '+', b)), Operation(c, '*', d)), e),
                           Push(Push(Nil, Pending('+')), Pending('*'))))
  {
  }
}
