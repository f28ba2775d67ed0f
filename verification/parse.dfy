/**
  The recursive-descent parser of src/parse.c:193-297. The token iterator is
  a sequence of tokens and a position; a single mode bit, within, tells
  whether the parser is inside a list literal.
*/
module Parser {
  import opened Wrappers
  import opened Faults
  import opened Values
  import opened LispTokens
  import opened LispLex

  /** The tokens lisp_lex hands to the parser. */
  predicate AllLexed(toks: seq<Token>) {
    forall k :: 0 <= k < |toks| ==> LexedToken(toks[k])
  }

  /**
    lisp_parse_rec: read one token and build the value it starts. `)` gives
    null. Outside list mode `(` starts a call whose function slot is the next
    form and whose arguments are the list that follows; inside list mode it
    starts a nested list, and identifiers become atoms. Reading past the last
    token is an error.
  */
  function ParseRec(toks: seq<Token>, pos: nat, within: bool): (r: Result<(Option<Value>, int), Fault>)
    requires AllLexed(toks)
    decreases |toks| - pos, 0
    ensures r.Ok? ==> pos < r.value.1 <= |toks|
    ensures r.Ok? && r.value.0.Some? && within ==> Evaluated(r.value.0.value)
    ensures r.Ok? && r.value.0.Some? && !within ==> Code(r.value.0.value)
    ensures r.Ok? ==> (r.value.0.None? <==> toks[pos].tag == CloseParen)
  {
    if pos >= |toks| then Err(TokensExhausted)
    else
      var t := toks[pos];
      match t.tag
      case AtomTag => Ok((Some(Atom(t.text.value)), pos + 1))
      case IdentifierTag =>
        Ok((Some(if within then Atom(t.text.value) else Identifier(t.text.value)), pos + 1))
      case IntegerTag =>
        (match ReadLong(t.text.value)
         case Ok(n) => Ok((Some(Int(n)), pos + 1))
         case Err(e) => Err(e))
      case OpenParen =>
        if within then ParseLiteral(toks, pos + 1) else ParseCall(toks, pos + 1)
      case OpenList => ParseLiteral(toks, pos + 1)
      case CloseParen => Ok((None, pos + 1))
      case Whitespace => assert false; Err(TokensExhausted)
  }

  /** The `'(` branch, and `(` inside list mode: the rest is a list literal. */
  function ParseLiteral(toks: seq<Token>, pos: nat): (r: Result<(Option<Value>, int), Fault>)
    requires AllLexed(toks)
    decreases |toks| - pos, 2
    ensures r.Ok? ==> pos < r.value.1 <= |toks|
    ensures r.Ok? ==> r.value.0.Some? && r.value.0.value.List? && Evaluated(r.value.0.value)
  {
    match ParseList(toks, pos, true)
    case Ok((c, next)) => Ok((Some(List(c)), next))
    case Err(e) => Err(e)
  }

  /** The `(` branch outside list mode: the function slot, then the arguments. */
  function ParseCall(toks: seq<Token>, pos: nat): (r: Result<(Option<Value>, int), Fault>)
    requires AllLexed(toks)
    decreases |toks| - pos, 1
    ensures r.Ok? ==> pos < r.value.1 <= |toks|
    ensures r.Ok? ==> r.value.0.Some? && r.value.0.value.FuncCall? && Code(r.value.0.value)
  {
    match ParseRec(toks, pos, false)
    case Err(e) => Err(e)
    case Ok((f, afterF)) =>
      match ParseList(toks, afterF, false)
      case Err(e) => Err(e)
      case Ok((args, next)) => Ok((Some(FuncCall(f, args)), next))
  }

  /**
    lisp_parse_list: parse forms until one comes back null. Each form goes
    into a cell; the null form's cell is followed by one more empty cell.
  */
  function ParseList(toks: seq<Token>, pos: nat, within: bool): (r: Result<(Cell, int), Fault>)
    requires AllLexed(toks)
    decreases |toks| - pos, 1
    ensures r.Ok? ==> pos < r.value.1 <= |toks|
    ensures r.Ok? ==> r.value.0 == ParsedList(Elements(r.value.0))
    ensures r.Ok? && within ==> EvaluatedCells(r.value.0)
    ensures r.Ok? && !within ==> CodeCells(r.value.0)
  {
    match ParseRec(toks, pos, within)
    case Err(e) => Err(e)
    case Ok((None, next)) => Ok((Empty(Some(Empty(None))), next))
    case Ok((Some(v), next)) =>
      match ParseList(toks, next, within)
      case Err(e) => Err(e)
      case Ok((rest, last)) => Ok((Cons(v, rest), last))
  }

  /** lisp_parse: one form, outside list mode. */
  function Parse(toks: seq<Token>): (r: Result<Option<Value>, Fault>)
    requires AllLexed(toks)
    ensures r.Ok? && r.value.Some? ==> Code(r.value.value)
  {
    var (v, _) :- ParseRec(toks, 0, false);
    Ok(v)
  }

  // ---------------------------------------------------------------------------
  // Writing values back as tokens, and reading them again.

  /** Values that some token sequence parses to in the given mode. */
  predicate Writable(v: Value, within: bool)
    decreases v, 1
  {
    match v
    case Int(n) => n >= 0
    case Atom(t) => Spelled(AtomTag, t) || (within && Spelled(IdentifierTag, t))
    case Identifier(t) => !within && Spelled(IdentifierTag, t)
    case List(c) => WritableCells(c, true)
    case FuncCall(f, args) => !within && (f.Some? ==> Writable(f.value, false)) && WritableCells(args, false)
    case Builtin(_, _) => false
    case Function(_, _) => false
  }

  /** A list as lisp_parse_list shapes it, with writable elements. */
  predicate WritableCells(c: Cell, within: bool)
    decreases c, 0
  {
    match c
    case Cons(h, t) => Writable(h, within) && WritableCells(t, within)
    case Empty(next) => next == Some(Empty(None))
  }

  /**
    The tokens of a writable value: list literals are written with '( and a
    call with no function slot as "( )" followed by its arguments.
  */
  function Unparse(v: Value, within: bool): (r: seq<Token>)
    requires Writable(v, within)
    decreases v, 1
    ensures |r| > 0
  {
    match v
    case Int(n) => [Token(IntegerTag, Some(DecimalText(n)))]
    case Atom(t) => if Spelled(AtomTag, t) then [Token(AtomTag, Some(t))] else [Token(IdentifierTag, Some(t))]
    case Identifier(t) => [Token(IdentifierTag, Some(t))]
    case List(c) => [Token(OpenList, None)] + UnparseCells(c, true)
    case FuncCall(f, args) =>
      var head := if f.Some? then Unparse(f.value, false) else [Token(CloseParen, None)];
      [Token(OpenParen, None)] + head + UnparseCells(args, false)
  }

  /** The tokens of a list's elements, then `)`. */
  function UnparseCells(c: Cell, within: bool): (r: seq<Token>)
    requires WritableCells(c, within)
    decreases c, 0
    ensures |r| > 0
  {
    match c
    case Cons(h, t) => Unparse(h, within) + UnparseCells(t, within)
    case Empty(_) => [Token(CloseParen, None)]
  }

  /** Concatenation of token sequences keeps them all lexer-made. */
  lemma LexedConcat(a: seq<Token>, b: seq<Token>)
    requires AllLexed(a) && AllLexed(b)
    ensures AllLexed(a + b)
  {
    assert forall k :: |a| <= k < |a| + |b| ==> (a + b)[k] == b[k - |a|];
  }

  /** Every token Unparse writes is one the lexer can produce. */
  lemma {:induction false} UnparseLexed(v: Value, within: bool)
    requires Writable(v, within)
    ensures AllLexed(Unparse(v, within))
    decreases v, 1
  {
    match v
    case Int(n) =>
      assert Spelled(IntegerTag, DecimalText(n));
    case Atom(_) =>
    case Identifier(_) =>
    case List(c) =>
      UnparseCellsLexed(c, true);
      LexedConcat([Token(OpenList, None)], UnparseCells(c, true));
    case FuncCall(f, args) =>
      var head := if f.Some? then Unparse(f.value, false) else [Token(CloseParen, None)];
      if f.Some? {
        UnparseLexed(f.value, false);
      }
      UnparseCellsLexed(args, false);
      LexedConcat([Token(OpenParen, None)], head);
      LexedConcat([Token(OpenParen, None)] + head, UnparseCells(args, false));
  }

  lemma {:induction false} UnparseCellsLexed(c: Cell, within: bool)
    requires WritableCells(c, within)
    ensures AllLexed(UnparseCells(c, within))
    decreases c, 0
  {
    match c
    case Cons(h, t) =>
      UnparseLexed(h, within);
      UnparseCellsLexed(t, within);
      LexedConcat(Unparse(h, within), UnparseCells(t, within));
    case Empty(_) =>
  }

  /** A window of the token stream holding a + b holds a, then b. */
  lemma SliceParts(toks: seq<Token>, pos: nat, a: seq<Token>, b: seq<Token>)
    requires pos + |a| + |b| <= |toks| && toks[pos..pos + |a| + |b|] == a + b
    ensures toks[pos..pos + |a|] == a
    ensures toks[pos + |a|..pos + |a| + |b|] == b
  {
    assert toks[pos..pos + |a|] == (a + b)[..|a|];
    assert toks[pos + |a|..pos + |a| + |b|] == (a + b)[|a|..];
  }

  /** Parsing the tokens of a writable value gives the value back and consumes exactly those tokens. */
  lemma {:induction false} ParseUnparse(toks: seq<Token>, pos: nat, v: Value, within: bool)
    requires AllLexed(toks) && Writable(v, within)
    requires pos + |Unparse(v, within)| <= |toks|
    requires toks[pos..pos + |Unparse(v, within)|] == Unparse(v, within)
    ensures ParseRec(toks, pos, within) == Ok((Some(v), pos + |Unparse(v, within)|))
    decreases v, 1
  {
    match v
    case Int(n) => ParseUnparseInt(toks, pos, n, within);
    case Atom(_) => ParseUnparseWord(toks, pos, v, within);
    case Identifier(_) => ParseUnparseWord(toks, pos, v, within);
    case List(c) => ParseUnparseList(toks, pos, c, within);
    case FuncCall(f, args) => ParseUnparseCall(toks, pos, f, args);
  }

  /** An integer is one token, read back by ReadLong. */
  lemma ParseUnparseInt(toks: seq<Token>, pos: nat, n: Long, within: bool)
    requires AllLexed(toks) && n >= 0
    requires pos + 1 <= |toks| && toks[pos..pos + 1] == Unparse(Int(n), within)
    ensures ParseRec(toks, pos, within) == Ok((Some(Int(n)), pos + 1))
  {
    assert toks[pos] == toks[pos..pos + 1][0];
    ReadPrinted(n);
    ParseRecInt(toks, pos, within, DecimalText(n), n);
  }

  /** One step of lisp_parse_rec at an integer token whose text reads as n. */
  lemma ParseRecInt(toks: seq<Token>, pos: nat, within: bool, s: string, n: Long)
    requires AllLexed(toks) && pos < |toks| && toks[pos] == Token(IntegerTag, Some(s))
    requires forall k :: 0 <= k < |s| ==> IsDigitChar(s[k])
    requires ReadLong(s) == Ok(n)
    ensures ParseRec(toks, pos, within) == Ok((Some(Int(n)), pos + 1))
  {
  }

  /** An atom or an identifier is one token carrying its text. */
  lemma ParseUnparseWord(toks: seq<Token>, pos: nat, v: Value, within: bool)
    requires AllLexed(toks) && (v.Atom? || v.Identifier?) && Writable(v, within)
    requires pos + 1 <= |toks| && toks[pos..pos + 1] == Unparse(v, within)
    ensures ParseRec(toks, pos, within) == Ok((Some(v), pos + 1))
  {
    assert toks[pos] == toks[pos..pos + 1][0];
  }

  /** A list literal: `'(`, then the tokens of its elements. */
  lemma {:induction false} ParseUnparseList(toks: seq<Token>, pos: nat, c: Cell, within: bool)
    requires AllLexed(toks) && WritableCells(c, true)
    requires pos + 1 + |UnparseCells(c, true)| <= |toks|
    requires toks[pos..pos + 1 + |UnparseCells(c, true)|] == Unparse(List(c), within)
    ensures ParseRec(toks, pos, within) == Ok((Some(List(c)), pos + 1 + |UnparseCells(c, true)|))
    decreases List(c), 0
  {
    var uc := UnparseCells(c, true);
    SliceParts(toks, pos, [Token(OpenList, None)], uc);
    assert toks[pos] == toks[pos..pos + 1][0];
    ParseUnparseCells(toks, pos + 1, c, true);
    ParseRecList(toks, pos, c, pos + 1 + |uc|);
  }

  /** The call case: `(`, the function slot (or `)` when it is empty), then the argument list. */
  lemma {:induction false} ParseUnparseCall(toks: seq<Token>, pos: nat, f: Option<Value>, args: Cell)
    requires AllLexed(toks) && Writable(FuncCall(f, args), false)
    requires pos + |Unparse(FuncCall(f, args), false)| <= |toks|
    requires toks[pos..pos + |Unparse(FuncCall(f, args), false)|] == Unparse(FuncCall(f, args), false)
    ensures ParseRec(toks, pos, false) == Ok((Some(FuncCall(f, args)), pos + |Unparse(FuncCall(f, args), false)|))
    decreases FuncCall(f, args), 0, 2
  {
    if f.Some? {
      ParseUnparseCallHead(toks, pos, f.value, args);
    } else {
      var ua := UnparseCells(args, false);
      assert Unparse(FuncCall(f, args), false) == [Token(OpenParen, None)] + [Token(CloseParen, None)] + ua;
      CallParts(toks, pos, [Token(CloseParen, None)], ua);
      ParseUnparseCallNone(toks, pos, args);
    }
  }

  /** A written call with a function slot, split into its three parts. */
  lemma {:induction false} ParseUnparseCallHead(toks: seq<Token>, pos: nat, fv: Value, args: Cell)
    requires AllLexed(toks) && Writable(FuncCall(Some(fv), args), false)
    requires pos + |Unparse(FuncCall(Some(fv), args), false)| <= |toks|
    requires toks[pos..pos + |Unparse(FuncCall(Some(fv), args), false)|] == Unparse(FuncCall(Some(fv), args), false)
    ensures ParseRec(toks, pos, false)
         == Ok((Some(FuncCall(Some(fv), args)), pos + |Unparse(FuncCall(Some(fv), args), false)|))
    decreases FuncCall(Some(fv), args), 0, 1
  {
    var uf := Unparse(fv, false);
    var ua := UnparseCells(args, false);
    assert Unparse(FuncCall(Some(fv), args), false) == [Token(OpenParen, None)] + uf + ua;
    CallParts(toks, pos, uf, ua);
    ParseUnparseCallSome(toks, pos, fv, args);
  }

  /** A call with a function slot: `(`, the function's tokens, then the argument list. */
  lemma {:induction false} ParseUnparseCallSome(toks: seq<Token>, pos: nat, fv: Value, args: Cell)
    requires AllLexed(toks) && Writable(fv, false) && WritableCells(args, false)
    requires pos + 1 + |Unparse(fv, false)| + |UnparseCells(args, false)| <= |toks|
    requires toks[pos] == Token(OpenParen, None)
    requires toks[pos + 1..pos + 1 + |Unparse(fv, false)|] == Unparse(fv, false)
    requires toks[pos + 1 + |Unparse(fv, false)|..pos + 1 + |Unparse(fv, false)| + |UnparseCells(args, false)|]
          == UnparseCells(args, false)
    ensures ParseRec(toks, pos, false)
         == Ok((Some(FuncCall(Some(fv), args)), pos + 1 + |Unparse(fv, false)| + |UnparseCells(args, false)|))
    decreases FuncCall(Some(fv), args), 0, 0
  {
    var afterF := pos + 1 + |Unparse(fv, false)|;
    var last := afterF + |UnparseCells(args, false)|;
    ParseUnparse(toks, pos + 1, fv, false);
    ParseUnparseCells(toks, afterF, args, false);
    assert ParseList(toks, afterF, false) == Ok((args, last));
    ParseRecCall(toks, pos, Some(fv), afterF, args, last);
  }

  /** A call with an empty function slot: `(`, `)`, then the argument list. */
  lemma {:induction false} ParseUnparseCallNone(toks: seq<Token>, pos: nat, args: Cell)
    requires AllLexed(toks) && WritableCells(args, false)
    requires pos + 2 + |UnparseCells(args, false)| <= |toks|
    requires toks[pos] == Token(OpenParen, None)
    requires toks[pos + 1..pos + 2] == [Token(CloseParen, None)]
    requires toks[pos + 2..pos + 2 + |UnparseCells(args, false)|] == UnparseCells(args, false)
    ensures ParseRec(toks, pos, false) == Ok((Some(FuncCall(None, args)), pos + 2 + |UnparseCells(args, false)|))
    decreases FuncCall(None, args), 0, 0
  {
    assert toks[pos + 1] == toks[pos + 1..pos + 2][0];
    ParseUnparseCells(toks, pos + 2, args, false);
    ParseRecCall(toks, pos, None, pos + 2, args, pos + 2 + |UnparseCells(args, false)|);
  }

  /** The tokens of a call split into `(`, the function slot, and the arguments. */
  lemma CallParts(toks: seq<Token>, pos: nat, head: seq<Token>, ua: seq<Token>)
    requires pos + 1 + |head| + |ua| <= |toks|
    requires toks[pos..pos + 1 + |head| + |ua|] == [Token(OpenParen, None)] + head + ua
    ensures toks[pos] == Token(OpenParen, None)
    ensures toks[pos + 1..pos + 1 + |head|] == head
    ensures toks[pos + 1 + |head|..pos + 1 + |head| + |ua|] == ua
  {
    SliceParts(toks, pos, [Token(OpenParen, None)] + head, ua);
    SliceParts(toks, pos, [Token(OpenParen, None)], head);
    assert toks[pos] == toks[pos..pos + 1][0];
  }

  /** One step of lisp_parse_rec at a `'(`, given what the list parse returns. */
  lemma ParseRecList(toks: seq<Token>, pos: nat, c: Cell, next: int)
    requires AllLexed(toks) && pos < |toks| && toks[pos].tag == OpenList
    requires ParseList(toks, pos + 1, true) == Ok((c, next))
    ensures ParseRec(toks, pos, true) == Ok((Some(List(c)), next))
    ensures ParseRec(toks, pos, false) == Ok((Some(List(c)), next))
  {
    assert ParseLiteral(toks, pos + 1) == Ok((Some(List(c)), next));
  }

  /** One step of lisp_parse_rec at a `(` outside list mode, given what the two sub-parses return. */
  lemma ParseRecCall(toks: seq<Token>, pos: nat, f: Option<Value>, afterF: int, args: Cell, next: int)
    requires AllLexed(toks) && pos < |toks| && toks[pos].tag == OpenParen
    requires ParseRec(toks, pos + 1, false) == Ok((f, afterF))
    requires 0 <= afterF && ParseList(toks, afterF, false) == Ok((args, next))
    ensures ParseRec(toks, pos, false) == Ok((Some(FuncCall(f, args)), next))
  {
    assert ParseCall(toks, pos + 1) == Ok((Some(FuncCall(f, args)), next));
  }

  /** Parsing the tokens of a list's elements gives the list back, shaped as lisp_parse_list builds it. */
  lemma {:induction false} ParseUnparseCells(toks: seq<Token>, pos: nat, c: Cell, within: bool)
    requires AllLexed(toks) && WritableCells(c, within)
    requires pos + |UnparseCells(c, within)| <= |toks|
    requires toks[pos..pos + |UnparseCells(c, within)|] == UnparseCells(c, within)
    ensures ParseList(toks, pos, within) == Ok((c, pos + |UnparseCells(c, within)|))
    decreases c, 1
  {
    match c
    case Cons(h, t) =>
      SliceParts(toks, pos, Unparse(h, within), UnparseCells(t, within));
      ParseUnparseCons(toks, pos, h, t, within);
    case Empty(_) =>
      assert toks[pos] == UnparseCells(c, within)[0];
  }

  /** The non-empty list case: the head's tokens, then the rest. */
  lemma {:induction false} ParseUnparseCons(toks: seq<Token>, pos: nat, h: Value, t: Cell, within: bool)
    requires AllLexed(toks) && Writable(h, within) && WritableCells(t, within)
    requires pos + |Unparse(h, within)| + |UnparseCells(t, within)| <= |toks|
    requires toks[pos..pos + |Unparse(h, within)|] == Unparse(h, within)
    requires toks[pos + |Unparse(h, within)|..pos + |Unparse(h, within)| + |UnparseCells(t, within)|]
          == UnparseCells(t, within)
    ensures ParseList(toks, pos, within)
         == Ok((Cons(h, t), pos + |Unparse(h, within)| + |UnparseCells(t, within)|))
    decreases Cons(h, t), 0
  {
    var mid := pos + |Unparse(h, within)|;
    var last := mid + |UnparseCells(t, within)|;
    ParseUnparse(toks, pos, h, within);
    ParseUnparseCells(toks, mid, t, within);
    assert ParseList(toks, mid, within) == Ok((t, last));
    ParseListCons(toks, pos, within, h, mid, t, last);
  }

  /** One step of lisp_parse_list: a form, then the rest of the list. */
  lemma ParseListCons(toks: seq<Token>, pos: nat, within: bool, h: Value, mid: int, t: Cell, last: int)
    requires AllLexed(toks)
    requires ParseRec(toks, pos, within) == Ok((Some(h), mid))
    requires 0 <= mid && ParseList(toks, mid, within) == Ok((t, last))
    ensures ParseList(toks, pos, within) == Ok((Cons(h, t), last))
  {
  }

  /** lisp_parse reads a writable form back from its tokens. */
  lemma ParseWritten(v: Value)
    requires Writable(v, false)
    ensures AllLexed(Unparse(v, false)) && Parse(Unparse(v, false)) == Ok(Some(v))
  {
    var u := Unparse(v, false);
    assert u[0..|u|] == u;
    UnparseLexed(v, false);
    ParseUnparse(u, 0, v, false);
  }
}
