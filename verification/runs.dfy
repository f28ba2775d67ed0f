/**
  Whole runs of lisp_run on small programs: lexing, parsing and evaluation
  composed, worked out step by step.
*/
module Runs {
  import opened Wrappers
  import opened Faults
  import opened Values
  import opened Scopes
  import opened Builtins
  import opened Tokenizer
  import opened LispTokens
  import opened LispLex
  import opened Parser
  import opened Eval

  const OnePlusTwo: string := "(+ 1 2)"

  /** One lexer step on a token that is kept. */
  lemma LexFromToken(text: string, pos: nat, tag: Tag, n: nat)
    requires pos < |text| && '\0' !in text
    requires Munch(text, pos) == Match(Some(tag), n) && tag != Whitespace
    ensures pos + n <= |text| && Spelled(tag, text[pos..pos + n])
    ensures LexFrom(text, pos) == Prepend(TokenAt(text, pos, tag, n), LexFrom(text, pos + n))
  {
    assert TagOf(Munch(text, pos).token) == tag;
  }

  /** One lexer step on whitespace, which is skipped. */
  lemma LexFromSpace(text: string, pos: nat, n: nat)
    requires pos < |text| && '\0' !in text
    requires Munch(text, pos) == Match(Some(Whitespace), n)
    ensures 0 < n && pos + n <= |text|
    ensures LexFrom(text, pos) == LexFrom(text, pos + n)
  {
  }

  /** One kept token in front of the tokens of the rest of the text. */
  lemma LexStep(text: string, pos: nat, tag: Tag, n: nat, t: Token, rest: seq<Token>, all: seq<Token>)
    requires pos < |text| && '\0' !in text
    requires Munch(text, pos) == Match(Some(tag), n) && tag != Whitespace
    requires t == Token(tag, if CarriesText(tag) then Some(text[pos..pos + n]) else None)
    requires LexFrom(text, pos + n) == Ok(rest) && all == [t] + rest
    ensures LexFrom(text, pos) == Ok(all)
  {
    LexFromToken(text, pos, tag, n);
  }

  const CloseTok: Token := Token(CloseParen, None)
  const TwoTok: Token := Token(IntegerTag, Some("2"))
  const OneTok: Token := Token(IntegerTag, Some("1"))
  const PlusTok: Token := Token(IdentifierTag, Some("+"))
  const OpenTok: Token := Token(OpenParen, None)

  /** The token of a one-digit integer. */
  function IntTok(d: nat): Token
    requires d < 10
  {
    Token(IntegerTag, Some(DecimalText(d)))
  }

  /**
    "(< 1 2)" cannot be lexed: '<' is in no character class, so lisp_lex
    makes no progress at offset 1.
  */
  lemma LexLessThan(text: string)
    requires text == "(< 1 2)"
    ensures Lex(text) == Err(Stuck(1))
  {
    assert text[1] == '<';
    assert Munch(text, 1) == Match(None, 0);
    assert LexFrom(text, 1) == Err(Stuck(1));
    assert text[0] == '(';
    assert Munch(text, 0) == Match(Some(OpenParen), 1);
    LexFromToken(text, 0, OpenParen, 1);
  }

  /** lisp_run on "(< 1 2)" stops in the lexer. */
  lemma RunLessThan(text: string)
    requires text == "(< 1 2)"
    ensures Eval.Run(text) == Err(Stuck(1))
  {
    LexLessThan(text);
  }

  /** The call (+ 1 2) as lisp_parse builds it. */
  const OnePlusTwoCall: Value :=
    FuncCall(Some(Identifier("+")), Cons(Int(1), Cons(Int(2), Empty(Some(Empty(None))))))

  /** The tokens of "(+ 1 2)" parse to a call of + with the list 1, 2. */
  lemma ParseOnePlusTwo(toks: seq<Token>)
    requires toks == [OpenTok, PlusTok, OneTok, TwoTok, CloseTok]
    ensures AllLexed(toks)
    ensures Parser.Parse(toks) == Ok(Some(OnePlusTwoCall))
  {
    assert Spelled(IdentifierTag, "+");
    assert Spelled(IntegerTag, "1") && Spelled(IntegerTag, "2");
    assert DecimalValue("1") == 1 && DecimalValue("2") == 2;
    assert ParseRec(toks, 4, false) == Ok((None, 5));
    assert ParseList(toks, 4, false) == Ok((Empty(Some(Empty(None))), 5));
    assert ParseRec(toks, 3, false) == Ok((Some(Int(2)), 4));
    assert ParseList(toks, 3, false) == Ok((Cons(Int(2), Empty(Some(Empty(None)))), 5));
    assert ParseRec(toks, 2, false) == Ok((Some(Int(1)), 3));
    assert ParseList(toks, 2, false) == Ok((Cons(Int(1), Cons(Int(2), Empty(Some(Empty(None))))), 5));
    assert ParseRec(toks, 1, false) == Ok((Some(Identifier("+")), 2));
    assert ParseCall(toks, 1) == Ok((Some(OnePlusTwoCall), 5));
    assert ParseRec(toks, 0, false) == Ok((Some(OnePlusTwoCall), 5));
  }

  /** The text "(op a b)": a call of a one-character name on two one-digit numbers. */
  function CallText(op: char, a: nat, b: nat): string
    requires a < 10 && b < 10
  {
    ['(', op, ' ', DigitChar(a), ' ', DigitChar(b), ')']
  }

  /** The call lisp_parse builds for "(op a b)". */
  function CallValue(op: char, a: nat, b: nat): Value
    requires a < 10 && b < 10
  {
    FuncCall(Some(Identifier([op])), Cons(Int(a), Cons(Int(b), Empty(Some(Empty(None))))))
  }

  /** A one-digit number is written as its digit. */
  lemma DigitText(d: nat)
    requires d < 10
    ensures DecimalText(d) == [DigitChar(d)] && IsDigit(DigitChar(d)) && IsNameChar(DigitChar(d))
  {
    assert "0123456789"[d] == DigitChar(d);
  }

  /** A one-digit number followed by a blank or ")" matches as an integer of length 1. */
  lemma MunchDigit(text: string, i: nat, d: nat)
    requires '\0' !in text && i + 1 < |text| && d < 10
    requires text[i] == DigitChar(d) && (text[i + 1] == ' ' || text[i + 1] == ')')
    ensures Munch(text, i) == Match(Some(IntegerTag), 1) && text[i..i + 1] == DecimalText(d)
  {
    DigitText(d);
    assert ClassRun(text, i + 1, DigitClass) == 0;
    assert ClassRun(text, i, DigitClass) == 1;
  }

  /** A single blank followed by a non-blank matches as whitespace of length 1. */
  lemma MunchBlank(text: string, i: nat)
    requires '\0' !in text && i + 1 < |text| && text[i] == ' ' && !IsSpace(text[i + 1])
    ensures Munch(text, i) == Match(Some(Whitespace), 1)
  {
    assert ClassRun(text, i + 1, SpaceClass) == 0;
    assert ClassRun(text, i, SpaceClass) == 1;
  }

  /** What lex_yylex matches at each offset of "(op a b)". */
  lemma MunchCall(op: char, a: nat, b: nat)
    requires a < 10 && b < 10 && IsIdentStart(op)
    ensures var text := CallText(op, a, b);
            && '\0' !in text
            && Munch(text, 0) == Match(Some(OpenParen), 1)
            && Munch(text, 1) == Match(Some(IdentifierTag), 1) && text[1..2] == [op]
            && Munch(text, 2) == Match(Some(Whitespace), 1)
            && Munch(text, 3) == Match(Some(IntegerTag), 1) && text[3..4] == DecimalText(a)
            && Munch(text, 4) == Match(Some(Whitespace), 1)
            && Munch(text, 5) == Match(Some(IntegerTag), 1) && text[5..6] == DecimalText(b)
            && Munch(text, 6) == Match(Some(CloseParen), 1)
  {
    var text := CallText(op, a, b);
    DigitText(a);
    DigitText(b);
    assert '\0' !in text;
    MunchDigit(text, 3, a);
    MunchDigit(text, 5, b);
    MunchBlank(text, 2);
    MunchBlank(text, 4);
    assert ClassRun(text, 2, NameClass) == 0;
    assert ClassRun(text, 1, NameClass) == 1;
  }

  /** The tokens of "(op a b)" from offset 3 on: a, b and ")". */
  lemma LexCallArgs(op: char, a: nat, b: nat)
    requires a < 10 && b < 10 && IsIdentStart(op)
    ensures LexFrom(CallText(op, a, b), 3) == Ok([IntTok(a), IntTok(b), CloseTok])
  {
    var text := CallText(op, a, b);
    MunchCall(op, a, b);
    assert LexFrom(text, 7) == Ok([]);
    LexStep(text, 6, CloseParen, 1, CloseTok, [], [CloseTok]);
    LexStep(text, 5, IntegerTag, 1, IntTok(b), [CloseTok], [IntTok(b), CloseTok]);
    LexFromSpace(text, 4, 1);
    LexStep(text, 3, IntegerTag, 1, IntTok(a), [IntTok(b), CloseTok], [IntTok(a), IntTok(b), CloseTok]);
  }

  /** The five tokens of "(op a b)". */
  function CallTokens(op: char, a: nat, b: nat): seq<Token>
    requires a < 10 && b < 10
  {
    [OpenTok, Token(IdentifierTag, Some([op])), IntTok(a), IntTok(b), CloseTok]
  }

  /** "(op a b)" lexes to its five tokens: the blanks are dropped, the name and the digits keep their text. */
  lemma LexCallTokens(op: char, a: nat, b: nat)
    requires a < 10 && b < 10 && IsIdentStart(op)
    ensures '\0' !in CallText(op, a, b)
    ensures Lex(CallText(op, a, b)) == Ok(CallTokens(op, a, b))
  {
    var text := CallText(op, a, b);
    MunchCall(op, a, b);
    LexCallArgs(op, a, b);
    var toks := CallTokens(op, a, b);
    LexFromSpace(text, 2, 1);
    LexStep(text, 1, IdentifierTag, 1, toks[1], toks[2..], toks[1..]);
    LexStep(text, 0, OpenParen, 1, OpenTok, toks[1..], toks);
  }

  /** The writer gives the same five tokens for the call. */
  lemma UnparseCallValue(op: char, a: nat, b: nat)
    requires a < 10 && b < 10 && IsIdentStart(op)
    ensures Writable(CallValue(op, a, b), false)
    ensures Unparse(CallValue(op, a, b), false) == CallTokens(op, a, b)
  {
    assert Spelled(IdentifierTag, [op]);
    UnparseArgs(a, b);
  }

  /** The writer gives the two digits and ")" for the argument list of the call. */
  lemma UnparseArgs(a: nat, b: nat)
    requires a < 10 && b < 10
    ensures WritableCells(CallValue('+', a, b).arguments, false)
    ensures UnparseCells(CallValue('+', a, b).arguments, false) == [IntTok(a), IntTok(b), CloseTok]
  {
    var end := Empty(Some(Empty(None)));
    var tail := Cons(Int(b), end);
    assert Writable(Int(b), false) && WritableCells(end, false);
    assert WritableCells(tail, false);
    assert Unparse(Int(b), false) == [IntTok(b)] && UnparseCells(end, false) == [CloseTok];
    assert UnparseCells(tail, false) == [IntTok(b), CloseTok];
  }

  /** "(op a b)" lexes to the tokens the writer gives for its call. */
  lemma LexCall(op: char, a: nat, b: nat)
    requires a < 10 && b < 10 && IsIdentStart(op)
    ensures '\0' !in CallText(op, a, b) && Writable(CallValue(op, a, b), false)
    ensures Lex(CallText(op, a, b)) == Ok(Unparse(CallValue(op, a, b), false))
  {
    LexCallTokens(op, a, b);
    UnparseCallValue(op, a, b);
  }

  /** lisp_run on "(+ 1 2)" gives 3. */
  lemma RunOnePlusTwo()
    ensures '\0' !in OnePlusTwo && Run(OnePlusTwo) == Ok(Int(3))
  {
    assert CallText('+', 1, 2) == OnePlusTwo;
    assert CallValue('+', 1, 2) == OnePlusTwoCall;
    LexCall('+', 1, 2);
    RunIsEvaluate(OnePlusTwo, OnePlusTwoCall);
    EvaluateOnePlusTwoInGlobals(Globals());
  }

  /** Two literal integers as call arguments evaluate to themselves, and the list closes without a tail. */
  lemma EvaluateTwoInts(a: nat, b: nat, s: Scope)
    requires a < 10 && b < 10 && ScopeEvaluated(s)
    ensures CodeCells(Cons(Int(a), Cons(Int(b), Empty(Some(Empty(None))))))
    ensures EvaluateList(Cons(Int(a), Cons(Int(b), Empty(Some(Empty(None))))), s)
            == Ok(ListOutcome(Cons(Int(a), Cons(Int(b), Empty(None))), s, false))
  {
    assert CodeCells(Empty(Some(Empty(None))));
    assert CodeCells(Cons(Int(b), Empty(Some(Empty(None)))));
    assert EvaluateList(Cons(Int(b), Empty(Some(Empty(None)))), s) == Ok(ListOutcome(Cons(Int(b), Empty(None)), s, false));
  }

  /** 1 + 2 = 3. */
  lemma AddOneTwo()
    ensures Add(Cons(Int(1), Cons(Int(2), Empty(None)))) == Ok(Int(3))
  {
    assert AddFrom(Cons(Int(2), Empty(None)), 1) == Ok(3);
  }

  /** In any scope binding + to the add builtin, (+ 1 2) evaluates to 3 and leaves the scope as it was. */
  lemma EvaluateOnePlusTwo(s: Scope)
    requires ScopeEvaluated(s) && Lookup(s, "+") == Some(Builtin(AddFn, true))
    ensures Code(OnePlusTwoCall)
    ensures Evaluate(OnePlusTwoCall, s) == Ok(Outcome(Int(3), s, false))
  {
    EvaluateTwoInts(1, 2, s);
    AddOneTwo();
    var cells := Cons(Int(1), Cons(Int(2), Empty(None)));
    assert EvaluatedCells(Cons(Int(2), Empty(None)));
    assert Pure(AddFn, cells) == Ok(Int(3));
    assert Apply(AddFn, cells, s) == Ok(Outcome(Int(3), s, false));
  }

  /** The globals bind + to the add builtin. */
  lemma GlobalsBindPlus()
    ensures Lookup(Globals(), "+") == Some(Builtin(AddFn, true))
  {
    GlobalsBindings();
    assert GlobalNames[0] == "+" && GlobalFns[0] == AddFn;
  }

  /** In the globals, (+ 1 2) evaluates to 3. */
  lemma EvaluateOnePlusTwoInGlobals(g: Scope)
    requires g == Globals()
    ensures ScopeEvaluated(g) && Code(OnePlusTwoCall)
    ensures Evaluate(OnePlusTwoCall, g) == Ok(Outcome(Int(3), g, false))
  {
    GlobalsEvaluated();
    GlobalsBindPlus();
    EvaluateOnePlusTwo(g);
  }

  /** The call (define x 1) as lisp_parse builds it. */
  const DefineX: Value :=
    FuncCall(Some(Identifier("define")), Cons(Identifier("x"), Cons(Int(1), Empty(Some(Empty(None))))))

  /**
    In any scope binding define to its builtin and not binding x, (define x 1)
    fails: the evaluator looks x up before define ever sees it.
  */
  lemma EvaluateDefineX(s: Scope)
    requires ScopeEvaluated(s)
    requires Lookup(s, "define") == Some(Builtin(DefineFn, false)) && Lookup(s, "x").None?
    ensures Code(DefineX)
    ensures Evaluate(DefineX, s) == Err(Unbound("x"))
  {
    assert CodeCells(Cons(Int(1), Empty(Some(Empty(None)))));
    assert Evaluate(Identifier("x"), s) == Err(Unbound("x"));
    assert EvaluateList(Cons(Identifier("x"), Cons(Int(1), Empty(Some(Empty(None))))), s) == Err(Unbound("x"));
  }

  /** x is none of the global names. */
  lemma XNotGlobal(names: seq<string>)
    requires names == GlobalNames
    ensures "x" !in names
  {
    forall i | 0 <= i < |names| ensures names[i] != "x" {
      assert names[i][0] != 'x' || |names[i]| != 1;
    }
  }

  /** The globals bind define to its builtin (eval flag clear) and do not bind x. */
  lemma GlobalsBindDefine(g: Scope)
    requires g == Globals()
    ensures Lookup(g, "define") == Some(Builtin(DefineFn, false)) && Lookup(g, "x").None?
  {
    GlobalsBindings();
    assert GlobalNames[15] == "define" && GlobalFns[15] == DefineFn;
    XNotGlobal(GlobalNames);
  }

  /** In the globals, (define x 1) fails with x unbound. */
  lemma EvaluateDefineXInGlobals(g: Scope)
    requires g == Globals()
    ensures ScopeEvaluated(g) && Code(DefineX)
    ensures Evaluate(DefineX, g) == Err(Unbound("x"))
  {
    GlobalsEvaluated();
    GlobalsBindDefine(g);
    EvaluateDefineX(g);
  }

  /**
    In any scope binding - to the subtract builtin, (- 5 2) fails with a null
    value: lisp_subtract as written reads past the last argument.
  */
  lemma EvaluateFiveMinusTwo(s: Scope)
    requires ScopeEvaluated(s) && Lookup(s, "-") == Some(Builtin(SubtractFn, true))
    ensures Code(CallValue('-', 5, 2))
    ensures Evaluate(CallValue('-', 5, 2), s) == Err(NullValue)
  {
    EvaluateTwoInts(5, 2, s);
    SubtractFiveTwo();
    var cells := Cons(Int(5), Cons(Int(2), Empty(None)));
    assert ArgList([Int(5), Int(2)]) == cells;
    assert EvaluatedCells(Cons(Int(2), Empty(None)));
    assert Pure(SubtractFn, cells) == Err(NullValue);
    assert Apply(SubtractFn, cells, s) == Err(NullValue);
  }

  /** The second global is - bound to the subtract builtin. */
  lemma SecondGlobal(names: seq<string>, fns: seq<BuiltinFn>)
    requires names == GlobalNames && fns == GlobalFns
    ensures names[1] == "-" && fns[1] == SubtractFn
  {
    assert names[..2] == ["+", "-"] && fns[..2] == [AddFn, SubtractFn];
    assert names[1] == names[..2][1];
  }

  /** The globals bind - to the subtract builtin. */
  lemma GlobalsBindMinus(g: Scope)
    requires g == Globals()
    ensures Lookup(g, "-") == Some(Builtin(SubtractFn, true))
  {
    GlobalsBindings();
    SecondGlobal(GlobalNames, GlobalFns);
    assert Lookup(g, GlobalNames[1]) == Some(Builtin(GlobalFns[1], EvaluatesArgs(GlobalFns[1])));
  }

  /** lisp_run on "(- 5 2)" fails with a null value, where 3 was meant. */
  lemma RunFiveMinusTwo()
    ensures '\0' !in CallText('-', 5, 2) && Run(CallText('-', 5, 2)) == Err(NullValue)
  {
    LexCall('-', 5, 2);
    RunIsEvaluate(CallText('-', 5, 2), CallValue('-', 5, 2));
    GlobalsEvaluated();
    GlobalsBindMinus(Globals());
    EvaluateFiveMinusTwo(Globals());
  }
}
