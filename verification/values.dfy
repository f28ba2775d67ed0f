/**
  Lisp values (src/lisp.h:27-118, src/types.c). A value is one of the tagged
  variants; list cells hold a value (null marks the end of the list) and a
  next cell. Reference counts live in the Heap module; here values are
  immutable trees.
*/
module Values {
  import opened Wrappers
  import opened Faults

  /** The range of the C `long int` payload (64-bit). */
  const MinLong: int := -0x8000_0000_0000_0000
  const MaxLong: int := 0x7fff_ffff_ffff_ffff

  type Long = n: int | MinLong <= n <= MaxLong

  /** The largest C `int`, the return type of lisp_list_length. */
  const MaxInt: int := 0x7fff_ffff

  /** The builtin function pointers bound by lisp_create_globals. */
  datatype BuiltinFn =
    | AddFn | SubtractFn | LengthFn | CarFn | CdrFn | ConsFn | ExitFn
    | NumEqFn | NumLtFn | NumGtFn | NumLeFn | NumGeFn | NullPFn
    | IfFn | LambdaFn | DefineFn

  /**
    The value variants. A Function is the closure lambda builds; its type is
    not declared in lisp.h, so it is carried as plain data.
  */
  datatype Value =
    | Int(n: Long)
    | Atom(text: string)
    | Identifier(name: string)
    | List(cell: Cell)
    | FuncCall(callee: Option<Value>, arguments: Cell)
    | Builtin(fn: BuiltinFn, eval: bool)
    | Function(arglist: Option<Cell>, code: Value)

  /**
    A list cell. A cell holding a value always has a successor (every
    constructor of a cell in the source sets one), so the only cells that may
    lack a successor are the null-valued ones.
  */
  datatype Cell =
    | Cons(head: Value, tail: Cell)
    | Empty(next: Option<Cell>)

  /** The type tags TP_INT .. TP_IDENTIFIER. */
  datatype TypeTag = TInt | TAtom | TList | TBuiltin | TFunction | TFuncCall | TIdentifier

  function TypeOf(v: Value): TypeTag {
    match v
    case Int(_) => TInt
    case Atom(_) => TAtom
    case Identifier(_) => TIdentifier
    case List(_) => TList
    case FuncCall(_, _) => TFuncCall
    case Builtin(_, _) => TBuiltin
    case Function(_, _) => TFunction
  }

  /** tp_name of each type object (the closure type has none in the source; "function" stands in). */
  function TypeName(t: TypeTag): string {
    match t
    case TInt => "int"
    case TAtom => "atom"
    case TList => "list"
    case TBuiltin => "builtin"
    case TFunction => "function"
    case TFuncCall => "funccall"
    case TIdentifier => "identifier"
  }

  /** Structural sizes, for termination of the evaluator. */
  function Size(v: Value): (r: nat)
    ensures r >= 1
  {
    match v
    case List(c) => 1 + CellSize(c)
    case FuncCall(f, args) => 1 + (if f.Some? then Size(f.value) else 0) + CellSize(args)
    case Function(a, code) => 1 + (if a.Some? then CellSize(a.value) else 0) + Size(code)
    case _ => 1
  }

  function CellSize(c: Cell): (r: nat)
    ensures r >= 1
  {
    match c
    case Cons(h, t) => 1 + Size(h) + CellSize(t)
    case Empty(next) => 1 + (if next.Some? then CellSize(next.value) else 0)
  }

  /** The values of a list, up to its first null-valued cell. */
  function Elements(c: Cell): seq<Value> {
    match c
    case Cons(h, t) => [h] + Elements(t)
    case Empty(_) => []
  }

  /** lisp_list_length: count cells until the first null value. */
  function ListLength(c: Cell): (r: nat)
    ensures r == |Elements(c)|
    ensures r == 0 <==> c.Empty?
  {
    match c
    case Cons(_, t) => 1 + ListLength(t)
    case Empty(_) => 0
  }

  /** The list built by lisp_evaluate_list and cons-like code: the values, then one fresh empty cell. */
  function ArgList(vs: seq<Value>): (c: Cell)
    ensures Elements(c) == vs
  {
    if |vs| == 0 then Empty(None) else Cons(vs[0], ArgList(vs[1..]))
  }

  /** The list built by lisp_parse_list: the values, a null-valued cell, then one more empty cell. */
  function ParsedList(vs: seq<Value>): (c: Cell)
    ensures Elements(c) == vs
  {
    if |vs| == 0 then Empty(Some(Empty(None))) else Cons(vs[0], ParsedList(vs[1..]))
  }

  /** The i-th cell of a list (following next links). */
  function Nth(c: Cell, i: nat): (r: Option<Value>)
    ensures i < |Elements(c)| ==> r == Some(Elements(c)[i])
    ensures i >= |Elements(c)| ==> r.None?
  {
    match c
    case Cons(h, t) => if i == 0 then Some(h) else Nth(t, i - 1)
    case Empty(_) => None
  }

  /**
    Values an evaluation can produce: no identifier and no funccall anywhere
    inside. Parsed list literals, integers, atoms and builtins are of this kind.
  */
  predicate Evaluated(v: Value)
    decreases v, 1
  {
    match v
    case Int(_) => true
    case Atom(_) => true
    case Builtin(_, _) => true
    case Identifier(_) => false
    case FuncCall(_, _) => false
    case List(c) => EvaluatedCells(c)
    case Function(a, code) => (a.Some? ==> EvaluatedCells(a.value)) && Evaluated(code)
  }

  predicate EvaluatedCells(c: Cell)
    decreases c, 0
  {
    match c
    case Cons(h, t) => Evaluated(h) && EvaluatedCells(t)
    case Empty(next) => next.Some? ==> EvaluatedCells(next.value)
  }

  /**
    Code as the parser produces it outside list literals: identifiers and
    calls may appear, but a list value is always a literal of evaluated values.
  */
  predicate Code(v: Value)
    decreases v, 1
  {
    match v
    case List(c) => EvaluatedCells(c)
    case FuncCall(f, args) => (f.Some? ==> Code(f.value)) && CodeCells(args)
    case Function(_, _) => Evaluated(v)
    case _ => true
  }

  predicate CodeCells(c: Cell)
    decreases c, 0
  {
    match c
    case Cons(h, t) => Code(h) && CodeCells(t)
    case Empty(next) => next.Some? ==> CodeCells(next.value)
  }

  // ---------------------------------------------------------------------------
  // Decimal text, as written by "%ld" and read by swscanf "%ld".

  function DigitChar(d: int): char
    requires 0 <= d < 10
  {
    "0123456789"[d]
  }

  predicate IsDigitChar(c: char) {
    '0' <= c <= '9'
  }

  function DigitValue(c: char): int
    requires IsDigitChar(c)
  {
    c as int - '0' as int
  }

  /** The decimal digits of a natural number, without leading zeros. */
  function Digits(n: nat): (s: string)
    ensures |s| > 0
    ensures forall k :: 0 <= k < |s| ==> IsDigitChar(s[k])
    decreases n
  {
    (if n >= 10 then Digits(n / 10) else "") + [DigitChar(n % 10)]
  }

  /** "%ld": an optional minus sign, then the digits of the magnitude. */
  function DecimalText(n: int): string {
    if n < 0 then "-" + Digits(-n) else Digits(n)
  }

  /** The value of a string of decimal digits (leading zeros allowed). */
  function DecimalValue(s: string): (r: nat)
    requires forall k :: 0 <= k < |s| ==> IsDigitChar(s[k])
    decreases |s|
  {
    if |s| == 0 then 0
    else DecimalValue(s[..|s| - 1]) * 10 + DigitValue(s[|s| - 1])
  }

  /** Reading the digits back gives the number. */
  lemma {:induction false} DigitsRoundTrip(n: nat)
    ensures DecimalValue(Digits(n)) == n
    decreases n
  {
    var s := Digits(n);
    var d := DigitChar(n % 10);
    assert s[..|s| - 1] == (if n >= 10 then Digits(n / 10) else "");
    assert s[|s| - 1] == d;
    assert DigitValue(d) == n % 10 by {
      assert "0123456789"[n % 10] as int - '0' as int == n % 10;
    }
    if n >= 10 {
      DigitsRoundTrip(n / 10);
    }
  }

  /** swscanf "%ld" on a token of digits; a value beyond the long range is an overflow. */
  function ReadLong(s: string): (r: Result<Long, Fault>)
    requires forall k :: 0 <= k < |s| ==> IsDigitChar(s[k])
    ensures r.Ok? <==> DecimalValue(s) <= MaxLong
    ensures r.Ok? ==> r.value == DecimalValue(s)
    ensures r.Err? ==> r.error == IntegerOverflow
  {
    var v := DecimalValue(s);
    if v > MaxLong then Err(IntegerOverflow) else Ok(v)
  }

  /**
    Printing a long and reading it back gives the same long: the text is the
    digits of the magnitude, after a minus sign exactly when the long is
    negative. ReadMagnitude reads the magnitude of a negative long back.
  */
  lemma ReadPrinted(n: Long)
    ensures var s := DecimalText(n);
            && |s| > 0 && (s[0] == '-' <==> n < 0)
            && (n >= 0 ==> ReadLong(s) == Ok(n))
            && (n < 0 ==> s[1..] == Digits(-(n as int)))
  {
    if n < 0 {
      ReadPrintedNegative(n);
    } else {
      DigitsRoundTrip(n);
    }
  }

  /**
    The digits after the minus sign of a negative n read back as its
    magnitude m; the magnitude of the least long is one beyond the range.
  */
  lemma ReadMagnitude(n: int, m: nat)
    requires n < 0 && n + m == 0
    ensures DecimalValue(Digits(m)) == m
    ensures ReadLong(Digits(m)) == Ok(m) <==> MinLong < n
    ensures n == MinLong ==> ReadLong(Digits(m)) == Err(IntegerOverflow)
  {
    DigitsRoundTrip(m);
  }

  /** The text of a negative long is a minus sign, then the digits of its magnitude. */
  lemma ReadPrintedNegative(n: int)
    requires n < 0
    ensures var s := DecimalText(n);
            && |s| > 0 && s[0] == '-' && s[1..] == Digits(-n)
  {
    NegativeText(n);
    SignThen(Digits(-n));
  }

  /** A negative number is written as a minus sign before the digits of its magnitude. */
  lemma NegativeText(n: int)
    requires n < 0
    ensures DecimalText(n) == "-" + Digits(-n)
  {
  }

  /** A minus sign in front of a text is its first character, and the text follows it. */
  lemma SignThen(d: string)
    ensures |"-" + d| > 0 && ("-" + d)[0] == '-' && ("-" + d)[1..] == d
  {
    assert ("-" + d)[1..] == d;
  }

  // ---------------------------------------------------------------------------
  // Printing (tp_print), as text.

  function Spaces(n: nat): (s: string)
    ensures |s| == n && forall k :: 0 <= k < n ==> s[k] == ' '
  {
    if n == 0 then "" else " " + Spaces(n - 1)
  }

  /**
    tp_print of a value at an indent. A null function slot or a null element
    reached by the funccall printer is a null dereference; the closure type
    has no printer in the source.
  */
  function Print(v: Value, indent: nat): (r: Result<string, Fault>)
    ensures r.Ok? ==> |r.value| > 0 && r.value[|r.value| - 1] == '\n'
    ensures v.Function? ==> r == Err(Unprintable)
    ensures v.FuncCall? && v.callee.None? ==> r == Err(NullValue)
    ensures r.Err? ==> v.Function? || v.FuncCall? || v.List?
    decreases v, 1
  {
    match v
    case Int(n) => Ok(DecimalText(n) + "\n")
    case Atom(t) => Ok("'" + t + "\n")
    case Identifier(t) => Ok(t + "\n")
    case Builtin(_, _) => Ok("builtin-function\n")
    case List(c) =>
      var body :- PrintCells(c, indent);
      Ok("(\n" + body + Spaces(indent) + ")\n")
    case FuncCall(f, args) => PrintCall(f, args, indent)
    case Function(_, _) => Err(Unprintable)
  }

  /** The loop of lisp_list_print: one indented line per value up to the first null value. */
  function PrintCells(c: Cell, indent: nat): (r: Result<string, Fault>)
    ensures Elements(c) == [] ==> r == Ok("")
    decreases c, 0
  {
    match c
    case Empty(_) => Ok("")
    case Cons(h, t) =>
      var line :- Print(h, indent + 1);
      var rest :- PrintCells(t, indent);
      Ok(Spaces(indent + 1) + line + rest)
  }

  /**
    lisp_funccall_print as written: the argument loop runs while the cell
    pointer is non-null, so it reaches the null-valued cell that ends every
    list and dereferences its value.
  */
  function PrintCall(f: Option<Value>, args: Cell, indent: nat): (r: Result<string, Fault>)
    ensures f.None? ==> r == Err(NullValue)
    decreases FuncCall(f, args), 0
  {
    match f
    case None => Err(NullValue)
    case Some(fv) =>
      var head :- Print(fv, indent + 2);
      var rest :- PrintCallArgs(args, indent);
      Ok("(" + head + "\n" + rest + Spaces(indent) + ")\n")
  }

  /** The argument loop of lisp_funccall_print as written: stops only at a missing cell. */
  function PrintCallArgs(c: Cell, indent: nat): (r: Result<string, Fault>)
    ensures c.Empty? ==> r == Err(NullValue)
    decreases c, 0
  {
    match c
    case Empty(_) => Err(NullValue)
    case Cons(h, t) =>
      var line :- Print(h, indent + 1);
      var rest :- PrintCallArgs(t, indent);
      Ok(Spaces(indent + 1) + line + rest)
  }

  /**
    The funccall printer with the loop condition of the list printer
    (stop at the first null value): the arguments print like list elements.
  */
  function PrintCallFixed(f: Option<Value>, args: Cell, indent: nat): (r: Result<string, Fault>)
    ensures f.Some? && Print(f.value, indent + 2).Ok? && PrintCells(args, indent).Ok? ==>
              r == Ok("(" + Print(f.value, indent + 2).value + "\n" + PrintCells(args, indent).value + Spaces(indent) + ")\n")
    ensures r.Ok? ==> f.Some? && PrintCells(args, indent).Ok?
  {
    match f
    case None => Err(NullValue)
    case Some(fv) =>
      var head :- Print(fv, indent + 2);
      var rest :- PrintCells(args, indent);
      Ok("(" + head + "\n" + rest + Spaces(indent) + ")\n")
  }

  /** Every call reaches the null value that ends its argument list, so printing a funccall always fails. */
  lemma {:induction false} PrintCallArgsFails(c: Cell, indent: nat)
    ensures PrintCallArgs(c, indent).Err?
    decreases c
  {
    match c
    case Empty(_) =>
    case Cons(h, t) =>
      PrintCallArgsFails(t, indent);
  }

  lemma PrintFuncCallFails(f: Option<Value>, args: Cell, indent: nat)
    ensures Print(FuncCall(f, args), indent).Err?
  {
    PrintCallArgsFails(args, indent);
  }

  /** A one-digit integer prints as its digit on a line of its own. */
  lemma PrintDigit(d: nat, indent: nat)
    requires d < 10
    ensures Print(Int(d), indent) == Ok([DigitChar(d), '\n'])
  {
    assert Digits(d) == [DigitChar(d)];
    assert DecimalText(d) == [DigitChar(d)];
    assert DecimalText(d) + "\n" == [DigitChar(d), '\n'];
  }

  /** A list cell holding a one-digit integer prints as one line indented by one more space. */
  lemma PrintDigitCell(d: nat, rest: Cell, text: string)
    requires d < 10 && PrintCells(rest, 0) == Ok(text)
    ensures PrintCells(Cons(Int(d), rest), 0) == Ok([' ', DigitChar(d), '\n'] + text)
  {
    PrintDigit(d, 1);
    assert Spaces(1) == " ";
    assert Spaces(1) + [DigitChar(d), '\n'] + text == [' ', DigitChar(d), '\n'] + text;
  }

  /**
    Printing the call (+ 1 2) as the parser builds it fails on the null value
    ending its arguments, while the corrected printer prints it.
  */
  lemma PrintOnePlusTwo()
    ensures var args := Cons(Int(1), Cons(Int(2), Empty(Some(Empty(None)))));
            && Print(FuncCall(Some(Identifier("+")), args), 0) == Err(NullValue)
            && PrintCallFixed(Some(Identifier("+")), args, 0) == Ok("(+\n\n 1\n 2\n)\n")
  {
    var tail := Cons(Int(2), Empty(Some(Empty(None))));
    var args := Cons(Int(1), tail);
    PrintDigitCell(2, Empty(Some(Empty(None))), "");
    assert [' ', DigitChar(2), '\n'] + "" == " 2\n";
    PrintDigitCell(1, tail, " 2\n");
    assert [' ', DigitChar(1), '\n'] + " 2\n" == " 1\n 2\n";
    assert "+" + "\n" == "+\n";
    assert Print(Identifier("+"), 2) == Ok("+\n");
    assert "(" + "+\n" + "\n" + " 1\n 2\n" + Spaces(0) + ")\n" == "(+\n\n 1\n 2\n)\n";
  }

  /** The printed list holds one line per element: the printer succeeds exactly when every element prints. */
  lemma {:induction false} PrintCellsOk(c: Cell, indent: nat)
    ensures PrintCells(c, indent).Ok? <==> forall k :: 0 <= k < |Elements(c)| ==> Print(Elements(c)[k], indent + 1).Ok?
    decreases c
  {
    match c
    case Empty(_) =>
    case Cons(h, t) =>
      PrintCellsOk(t, indent);
      PrintCellsCons(h, t, indent);
      assert Elements(c) == [h] + Elements(t);
      AllPrintCons(h, Elements(t), indent + 1);
  }

  /** A list prints when its first element and then the rest print. */
  lemma PrintCellsCons(h: Value, t: Cell, indent: nat)
    ensures PrintCells(Cons(h, t), indent).Ok? <==> Print(h, indent + 1).Ok? && PrintCells(t, indent).Ok?
  {
  }

  /** Every value of x in front of es prints exactly when x does and every value of es does. */
  lemma AllPrintCons(x: Value, es: seq<Value>, indent: nat)
    ensures (forall k :: 0 <= k < |[x] + es| ==> Print(([x] + es)[k], indent).Ok?) <==>
            Print(x, indent).Ok? && forall k :: 0 <= k < |es| ==> Print(es[k], indent).Ok?
  {
    if Print(x, indent).Ok? && forall k :: 0 <= k < |es| ==> Print(es[k], indent).Ok? {
      forall k | 0 <= k < |[x] + es|
        ensures Print(([x] + es)[k], indent).Ok?
      {
        if k > 0 {
          assert ([x] + es)[k] == es[k - 1];
        }
      }
    }
    if forall k :: 0 <= k < |[x] + es| ==> Print(([x] + es)[k], indent).Ok? {
      assert Print(([x] + es)[0], indent).Ok?;
      forall k | 0 <= k < |es|
        ensures Print(es[k], indent).Ok?
      {
        assert es[k] == ([x] + es)[k + 1];
      }
    }
  }
}
