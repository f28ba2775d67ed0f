/**
  The builtins of src/functions.c as functions of the evaluated argument list
  and the current scope. Every path that prints an error and exits becomes
  an Err result; a C signed overflow becomes IntegerOverflow.
*/
module Builtins {
  import opened Wrappers
  import opened Faults
  import opened Values
  import opened Scopes

  /** lisp_truthy: an integer other than zero. */
  predicate Truthy(v: Value) {
    v.Int? && v.n != 0
  }

  /** get_type: the type a format character asks for; any other character accepts every type. */
  function GetType(code: char): (r: Option<TypeTag>)
    ensures r.Some? <==> code in "dlaibc"
  {
    match code
    case 'd' => Some(TInt)
    case 'l' => Some(TList)
    case 'a' => Some(TAtom)
    case 'i' => Some(TIdentifier)
    case 'b' => Some(TBuiltin)
    case 'c' => Some(TFuncCall)
    case _ => None
  }

  /** Format character code lets a value through. */
  predicate Accepts(code: char, v: Value) {
    GetType(code).None? || GetType(code).value == TypeOf(v)
  }

  /** The first index from i on whose value the format rejects, or |vs| when there is none. */
  function FirstMismatch(vs: seq<Value>, format: string, i: nat): (r: nat)
    requires |vs| == |format| && i <= |vs|
    decreases |vs| - i
    ensures i <= r <= |vs|
    ensures r < |vs| ==> !Accepts(format[r], vs[r])
    ensures forall k :: i <= k < r ==> Accepts(format[k], vs[k])
  {
    if i == |vs| then |vs|
    else if !Accepts(format[i], vs[i]) then i
    else FirstMismatch(vs, format, i + 1)
  }

  /**
    get_args: the argument count must equal the format's length, then every
    position must have the type its format character asks for; the arguments
    come back in order.
  */
  function GetArgs(fname: string, args: Cell, format: string): (r: Result<seq<Value>, Fault>)
    ensures r.Ok? <==> (|Elements(args)| == |format| &&
                        forall k :: 0 <= k < |format| ==> Accepts(format[k], Elements(args)[k]))
    ensures r.Ok? ==> r.value == Elements(args)
    ensures |Elements(args)| != |format| ==> r == Err(WrongArgCount(fname, |format|, |Elements(args)|))
    ensures r.Err? && |Elements(args)| == |format| ==>
              && r.error.WrongArgType? && r.error.fname == fname
              && var i := r.error.index;
              && 0 <= i < |format| && !Accepts(format[i], Elements(args)[i])
              && (forall k :: 0 <= k < i ==> Accepts(format[k], Elements(args)[k]))
              && r.error.expectedType == TypeName(GetType(format[i]).value)
              && r.error.gotType == TypeName(TypeOf(Elements(args)[i]))
  {
    var vs := Elements(args);
    var nargs := ListLength(args);
    if nargs != |format| then Err(WrongArgCount(fname, |format|, nargs))
    else
      var i := FirstMismatch(vs, format, 0);
      if i < |vs| then Err(WrongArgType(fname, i, TypeName(GetType(format[i]).value), TypeName(TypeOf(vs[i]))))
      else Ok(vs)
  }

  /** The value a builtin returns and whether it set the exit flag. */
  datatype Reply = Reply(value: Value, exit: bool)

  // ---------------------------------------------------------------------------
  // Arithmetic

  predicate InLong(n: int) {
    MinLong <= n <= MaxLong
  }

  /** Every value is an integer. */
  predicate AllInts(vs: seq<Value>) {
    forall k :: 0 <= k < |vs| ==> vs[k].Int?
  }

  /** The sum of a sequence of integers, without wrap-around. */
  function SumOf(vs: seq<Value>): int
    requires AllInts(vs)
  {
    if |vs| == 0 then 0 else vs[0].n + SumOf(vs[1..])
  }

  /** Every running total start + vs[0] + ... + vs[k] stays in the long range. */
  predicate RunningInLong(start: int, vs: seq<Value>)
    requires AllInts(vs)
  {
    forall k :: 0 < k <= |vs| ==> InLong(start + SumOf(vs[..k]))
  }

  lemma AllIntsCons(h: Value, ts: seq<Value>)
    ensures AllInts([h] + ts) <==> h.Int? && AllInts(ts)
  {
    var vs := [h] + ts;
    if h.Int? && AllInts(ts) {
      forall i | 0 <= i < |vs| ensures vs[i].Int? {
        if i > 0 { assert vs[i] == ts[i - 1]; }
      }
    }
    if AllInts(vs) {
      assert vs[0] == h;
      forall i | 0 <= i < |ts| ensures ts[i].Int? {
        assert ts[i] == vs[i + 1];
      }
    }
  }

  /** The running totals of [h] + ts fit exactly when the first does and those of ts after it do. */
  lemma RunningCons(start: int, h: Value, ts: seq<Value>)
    requires h.Int? && AllInts(ts)
    ensures AllInts([h] + ts)
    ensures RunningInLong(start, [h] + ts) <==> InLong(start + h.n) && RunningInLong(start + h.n, ts)
  {
    AllIntsCons(h, ts);
    var vs := [h] + ts;
    forall k | 0 <= k <= |ts| ensures vs[..k + 1] == [h] + ts[..k] && SumOf(vs[..k + 1]) == h.n + SumOf(ts[..k]) {
      assert vs[..k + 1] == [h] + ts[..k];
      assert vs[..k + 1][1..] == ts[..k];
    }
    assert ts[..0] == [];
    if RunningInLong(start, vs) {
      assert InLong(start + SumOf(vs[..1]));
      assert InLong(start + h.n);
      forall k | 0 < k <= |ts| ensures InLong(start + h.n + SumOf(ts[..k])) {
        assert InLong(start + SumOf(vs[..k + 1]));
      }
    }
    if InLong(start + h.n) && RunningInLong(start + h.n, ts) {
      forall k | 0 < k <= |vs| ensures InLong(start + SumOf(vs[..k])) {
        if k > 1 { assert InLong(start + h.n + SumOf(ts[..k - 1])); }
      }
      assert RunningInLong(start, vs);
    }
  }

  /**
    The loop of lisp_add from an accumulator: add each value up to the first
    null one; a non-integer stops it with a type error, a sum beyond the long
    range with an overflow.
  */
  function AddFrom(c: Cell, acc: Long): (r: Result<Long, Fault>)
    decreases c
  {
    match c
    case Empty(_) => Ok(acc)
    case Cons(h, t) =>
      if !h.Int? then Err(AddTypeError)
      else if !InLong(acc as int + h.n as int) then Err(IntegerOverflow)
      else AddFrom(t, acc as int + h.n as int)
  }

  /** AddFrom succeeds exactly on integers whose running totals fit, and returns their sum. */
  lemma {:induction false} AddFromSum(c: Cell, acc: Long)
    ensures AddFrom(c, acc).Ok? <==> AllInts(Elements(c)) && RunningInLong(acc, Elements(c))
    ensures AddFrom(c, acc).Ok? ==> AddFrom(c, acc).value == acc + SumOf(Elements(c))
    ensures !AllInts(Elements(c)) ==> AddFrom(c, acc).Err?
    decreases c
  {
    match c
    case Empty(_) =>
    case Cons(h, t) =>
      var ts := Elements(t);
      assert Elements(c) == [h] + ts;
      AllIntsCons(h, ts);
      if h.Int? {
        if InLong(acc as int + h.n as int) {
          AddFromSum(t, acc as int + h.n as int);
        }
        if AllInts(ts) {
          RunningCons(acc, h, ts);
          assert ([h] + ts)[1..] == ts;
        }
      }
  }

  /** lisp_add: the sum of the arguments, 0 for none. */
  function Add(args: Cell): (r: Result<Value, Fault>)
    ensures r.Ok? ==> r.value.Int?
  {
    var sum :- AddFrom(args, 0);
    Ok(Int(sum))
  }

  /** The sum is exact when every running total fits; a non-integer argument is an error. */
  lemma AddIsSum(args: Cell)
    ensures Add(args).Ok? <==> AllInts(Elements(args)) && RunningInLong(0, Elements(args))
    ensures Add(args).Ok? ==> Add(args).value.n == SumOf(Elements(args))
    ensures !AllInts(Elements(args)) ==> Add(args).Err?
  {
    AddFromSum(args, 0);
  }

  /**
    The loop of lisp_subtract after the first argument, as written: it runs
    while the cell pointer is non-null, so it reaches the cell that ends
    every list and reads the type of its null value.
  */
  function SubtractLoopAsWritten(c: Cell, acc: Long): (r: Result<Long, Fault>)
    decreases c
  {
    match c
    case Empty(_) => Err(NullValue)
    case Cons(h, t) =>
      if !h.Int? then Err(SubtractWrongType)
      else if !InLong(acc as int - h.n as int) then Err(IntegerOverflow)
      else SubtractLoopAsWritten(t, acc as int - h.n as int)
  }

  /** The same loop, stopping at the first null value as every other list loop of the source does. */
  function SubtractLoop(c: Cell, acc: Long): (r: Result<Long, Fault>)
    decreases c
  {
    match c
    case Empty(_) => Ok(acc)
    case Cons(h, t) =>
      if !h.Int? then Err(SubtractWrongType)
      else if !InLong(acc as int - h.n as int) then Err(IntegerOverflow)
      else SubtractLoop(t, acc as int - h.n as int)
  }

  /** The loop as written never returns a value. */
  lemma {:induction false} SubtractLoopAsWrittenFails(c: Cell, acc: Long)
    ensures SubtractLoopAsWritten(c, acc).Err?
    decreases c
  {
    match c
    case Empty(_) =>
    case Cons(h, t) =>
      if h.Int? && InLong(acc as int - h.n as int) {
        SubtractLoopAsWrittenFails(t, acc as int - h.n as int);
      }
  }

  /** The corrected loop subtracts the sum of the rest; a non-integer is an error. */
  lemma {:induction false} SubtractLoopIsDifference(c: Cell, acc: Long)
    ensures SubtractLoop(c, acc).Ok? ==> AllInts(Elements(c)) && SubtractLoop(c, acc).value == acc - SumOf(Elements(c))
    ensures !AllInts(Elements(c)) ==> SubtractLoop(c, acc).Err?
    decreases c
  {
    match c
    case Empty(_) =>
    case Cons(h, t) =>
      var ts := Elements(t);
      assert Elements(c) == [h] + ts;
      AllIntsCons(h, ts);
      if h.Int? && InLong(acc as int - h.n as int) {
        SubtractLoopIsDifference(t, acc as int - h.n as int);
        assert ([h] + ts)[1..] == ts;
      }
  }

  /** The argument checks shared by both versions of lisp_subtract, then the loop that follows. */
  function SubtractWith(args: Cell, loop: (Cell, Long) -> Result<Long, Fault>): (r: Result<Value, Fault>)
  {
    var len := ListLength(args);
    if len == 0 then Err(SubtractTooFew)
    else
      var first := args.head;
      if !first.Int? then Err(SubtractWrongType)
      else if len == 1 then
        var n: int := first.n;
        if !InLong(-n) then Err(IntegerOverflow) else Ok(Int(-n))
      else
        var d :- loop(args.tail, first.n);
        Ok(Int(d))
  }

  /**
    lisp_subtract as written (functions.c:154 tests the cell, not its value).
    It checks its arguments as the corrected version does and agrees with it
    on zero or one argument.
  */
  function SubtractAsWritten(args: Cell): (r: Result<Value, Fault>)
    ensures ListLength(args) == 0 ==> r == Err(SubtractTooFew)
    ensures ListLength(args) > 0 && !Elements(args)[0].Int? ==> r == Err(SubtractWrongType)
    ensures ListLength(args) <= 1 ==> r == Subtract(args)
  {
    SubtractWith(args, SubtractLoopAsWritten)
  }

  /** lisp_subtract with the loop stopping at the end of the list. */
  function Subtract(args: Cell): (r: Result<Value, Fault>)
    ensures ListLength(args) == 0 ==> r == Err(SubtractTooFew)
    ensures ListLength(args) > 0 && !Elements(args)[0].Int? ==> r == Err(SubtractWrongType)
    ensures r.Ok? ==> r.value.Int?
  {
    SubtractWith(args, SubtractLoop)
  }

  /** As written, subtraction only works on exactly one argument: with two or more it never returns a value. */
  lemma SubtractAsWrittenNeedsOne(args: Cell)
    ensures SubtractAsWritten(args).Ok? ==> ListLength(args) == 1
    ensures ListLength(args) >= 2 ==> SubtractAsWritten(args).Err?
  {
    if ListLength(args) >= 2 && args.head.Int? {
      SubtractLoopAsWrittenFails(args.tail, args.head.n);
    }
  }

  /** "(- 5 2)": the source fails on a null value where 3 was meant. */
  lemma SubtractFiveTwo()
    ensures SubtractAsWritten(ArgList([Int(5), Int(2)])) == Err(NullValue)
    ensures Subtract(ArgList([Int(5), Int(2)])) == Ok(Int(3))
  {
    var args := ArgList([Int(5), Int(2)]);
    assert args == Cons(Int(5), Cons(Int(2), Empty(None)));
  }

  /**
    Corrected subtraction: no arguments is an error, one argument is negated,
    and otherwise the rest are subtracted from the first.
  */
  lemma SubtractIsDifference(args: Cell)
    ensures !AllInts(Elements(args)) ==> Subtract(args).Err?
    ensures Subtract(args).Ok? ==> AllInts(Elements(args)) && Subtract(args).value.Int?
    ensures Subtract(args).Ok? && ListLength(args) == 1 ==> Subtract(args).value.n == -Elements(args)[0].n
    ensures Subtract(args).Ok? && ListLength(args) >= 2 ==>
              Subtract(args).value.n == Elements(args)[0].n - SumOf(Elements(args)[1..])
  {
    if ListLength(args) > 0 {
      var ts := Elements(args.tail);
      assert Elements(args) == [args.head] + ts;
      assert Elements(args)[1..] == ts;
      AllIntsCons(args.head, ts);
      if args.head.Int? {
        SubtractLoopIsDifference(args.tail, args.head.n);
      }
    }
  }

  // ---------------------------------------------------------------------------
  // Lists

  /** lisp_length: the number of elements; a C int count beyond its range is an overflow. */
  function Length(args: Cell): (r: Result<Value, Fault>)
    ensures r.Ok? <==> |Elements(args)| == 1 && Elements(args)[0].List? && |Elements(Elements(args)[0].cell)| <= MaxInt
    ensures r.Ok? ==> r.value == Int(|Elements(Elements(args)[0].cell)|)
    ensures |Elements(args)| == 1 && Elements(args)[0].List? && |Elements(Elements(args)[0].cell)| > MaxInt ==>
              r == Err(IntegerOverflow)
  {
    var vs :- GetArgs("length", args, "l");
    var n := ListLength(vs[0].cell);
    if n > MaxInt then Err(IntegerOverflow) else Ok(Int(n))
  }

  /** lisp_car: the first element of the one list argument; the empty list is an error. */
  function Car(args: Cell): (r: Result<Value, Fault>)
    ensures r.Ok? <==> |Elements(args)| == 1 && Elements(args)[0].List? && Elements(Elements(args)[0].cell) != []
    ensures r.Ok? ==> r.value == Elements(Elements(args)[0].cell)[0]
    ensures |Elements(args)| == 1 && Elements(args)[0].List? && Elements(Elements(args)[0].cell) == [] ==>
              r == Err(CarOfEmpty)
  {
    var vs :- GetArgs("car", args, "l");
    var l := vs[0].cell;
    if l.Empty? then Err(CarOfEmpty) else Ok(l.head)
  }

  /**
    lisp_cdr: the list starting at the next cell. The first cell of an
    evaluator-built empty list has no next cell: the source returns null
    there, which the model reports as NullValue.
  */
  function Cdr(args: Cell): (r: Result<Value, Fault>)
    ensures r.Ok? <==> |Elements(args)| == 1 && Elements(args)[0].List? && Elements(args)[0].cell != Empty(None)
    ensures r.Ok? && Elements(Elements(args)[0].cell) != [] ==>
              r.value.List? && Elements(r.value.cell) == Elements(Elements(args)[0].cell)[1..]
    ensures |Elements(args)| == 1 && Elements(args)[0] == List(Empty(None)) ==> r == Err(NullValue)
  {
    var vs :- GetArgs("cdr", args, "l");
    var l := vs[0].cell;
    match l
    case Cons(_, t) => Ok(List(t))
    case Empty(None) => Err(NullValue)
    case Empty(Some(n)) => Ok(List(n))
  }

  /** lisp_cons: a new first cell holding any value in front of a list. */
  function ConsList(args: Cell): (r: Result<Value, Fault>)
    ensures r.Ok? <==> |Elements(args)| == 2 && Elements(args)[1].List?
    ensures r.Ok? ==> r.value.List? && Elements(r.value.cell) == [Elements(args)[0]] + Elements(Elements(args)[1].cell)
  {
    var vs :- GetArgs("cons", args, "?l");
    Ok(List(Cons(vs[0], vs[1].cell)))
  }

  /** car(cons(v, l)) = v and cdr(cons(v, l)) = l, for any value v and list l. */
  lemma CarCdrCons(v: Value, l: Cell)
    ensures ConsList(ArgList([v, List(l)])) == Ok(List(Cons(v, l)))
    ensures Car(ArgList([List(Cons(v, l))])) == Ok(v)
    ensures Cdr(ArgList([List(Cons(v, l))])) == Ok(List(l))
  {
    assert Elements(ArgList([v, List(l)])) == [v, List(l)];
    assert Elements(ArgList([List(Cons(v, l))])) == [List(Cons(v, l))];
  }

  /** null?: 1 for a list whose first cell holds no value, 0 for anything else. */
  function NullP(args: Cell): (r: Result<Value, Fault>)
    ensures r.Ok? <==> |Elements(args)| == 1
    ensures r.Ok? ==> r.value == Int(if Elements(args)[0].List? && Elements(Elements(args)[0].cell) == [] then 1 else 0)
    ensures r.Err? ==> r.error == WrongArgCount("null?", 1, |Elements(args)|)
  {
    var vs :- GetArgs("null?", args, "?");
    var v := vs[0];
    Ok(Int(if v.List? && v.cell.Empty? then 1 else 0))
  }

  // ---------------------------------------------------------------------------
  // Comparisons

  /** The five comparison builtins. */
  datatype Relation = Eq | Lt | Gt | Le | Ge

  function Holds(rel: Relation, a: int, b: int): bool {
    match rel
    case Eq => a == b
    case Lt => a < b
    case Gt => a > b
    case Le => a <= b
    case Ge => a >= b
  }

  /** lisp_numeq .. lisp_numge: two integers in, 1 or 0 out. Every one of them reports errors as "=". */
  function NumCompare(rel: Relation, args: Cell): (r: Result<Value, Fault>)
    ensures r.Ok? <==> |Elements(args)| == 2 && Elements(args)[0].Int? && Elements(args)[1].Int?
    ensures r.Ok? ==> r.value == Int(if Holds(rel, Elements(args)[0].n, Elements(args)[1].n) then 1 else 0)
    ensures r.Err? ==> (r.error.WrongArgCount? || r.error.WrongArgType?) && r.error.fname == "="
  {
    var vs :- GetArgs("=", args, "dd");
    Ok(Int(if Holds(rel, vs[0].n, vs[1].n) then 1 else 0))
  }

  /** < is > with the arguments swapped, >= is the negation of <, and <= the negation of >. */
  lemma CompareDuals(a: Long, b: Long)
    ensures NumCompare(Lt, ArgList([Int(a), Int(b)])) == NumCompare(Gt, ArgList([Int(b), Int(a)]))
    ensures NumCompare(Ge, ArgList([Int(a), Int(b)])).value.n == 1 - NumCompare(Lt, ArgList([Int(a), Int(b)])).value.n
    ensures NumCompare(Le, ArgList([Int(a), Int(b)])).value.n == 1 - NumCompare(Gt, ArgList([Int(a), Int(b)])).value.n
  {
    assert Elements(ArgList([Int(a), Int(b)])) == [Int(a), Int(b)];
    assert Elements(ArgList([Int(b), Int(a)])) == [Int(b), Int(a)];
  }

  /** The replies of the comparisons and of null? are truthy exactly when the tested property holds. */
  lemma TruthyReplies(rel: Relation, args: Cell)
    ensures NumCompare(rel, args).Ok? ==>
              (Truthy(NumCompare(rel, args).value) <==> Holds(rel, Elements(args)[0].n, Elements(args)[1].n))
    ensures NullP(args).Ok? ==>
              (Truthy(NullP(args).value) <==> Elements(args)[0].List? && Elements(Elements(args)[0].cell) == [])
    ensures !Truthy(Int(0)) && !Truthy(List(Empty(None)))
  {
  }

  // ---------------------------------------------------------------------------
  // exit, lambda, define

  /** lisp_exit: set the exit flag and return the first argument, or a fresh 0 without one. */
  function Exit(args: Cell): (r: Reply)
    ensures r.exit
    ensures Elements(args) != [] ==> r.value == Elements(args)[0]
    ensures Elements(args) == [] ==> r.value == Int(0)
  {
    match args
    case Cons(h, _) => Reply(h, true)
    case Empty(_) => Reply(Int(0), true)
  }

  /**
    lisp_lambda: a closure over the parameter list and the body. A list is
    used as given; a call (f a b ...) becomes the cell chain f, a, b, ...;
    any other value leaves the parameter list null.
  */
  function Lambda(args: Cell): (r: Result<Value, Fault>)
    ensures r.Ok? <==> ListLength(args) == 2
    ensures r.Ok? ==> r.value.Function? && r.value.code == Elements(args)[1]
    ensures r.Ok? ==>
              var p := Elements(args)[0];
              && (p.List? ==> r.value.arglist == Some(p.cell))
              && (p.FuncCall? && p.callee.Some? ==>
                    r.value.arglist.Some? && Elements(r.value.arglist.value) == [p.callee.value] + Elements(p.arguments))
              && (p.FuncCall? && p.callee.None? ==> r.value.arglist == Some(Empty(Some(p.arguments))))
              && (!p.List? && !p.FuncCall? ==> r.value.arglist.None?)
    ensures r.Err? ==> r.error == WrongArgCount("lambda", 2, |Elements(args)|)
  {
    var vs :- GetArgs("lambda", args, "??");
    var arglist := vs[0];
    var params :=
      match arglist
      case List(c) => Some(c)
      case FuncCall(f, rest) => Some(if f.Some? then Cons(f.value, rest) else Empty(Some(rest)))
      case _ => None;
    Ok(Function(params, vs[1]))
  }

  /** The parameters of a call-shaped list are its function slot, then its arguments. */
  lemma LambdaParams(f: Value, rest: Cell, body: Value)
    ensures Lambda(ArgList([FuncCall(Some(f), rest), body])) == Ok(Function(Some(Cons(f, rest)), body))
    ensures Elements(Cons(f, rest)) == [f] + Elements(rest)
  {
    assert Elements(ArgList([FuncCall(Some(f), rest), body])) == [FuncCall(Some(f), rest), body];
  }

  /** The 16 global names and the builtin each is bound to. */
  const GlobalNames: seq<string> :=
    ["+", "-", "length", "car", "cdr", "cons", "exit", "=", "<", ">", "<=", ">=", "null?", "if", "lambda", "define"]
  const GlobalFns: seq<BuiltinFn> :=
    [AddFn, SubtractFn, LengthFn, CarFn, CdrFn, ConsFn, ExitFn, NumEqFn, NumLtFn, NumGtFn, NumLeFn, NumGeFn,
     NullPFn, IfFn, LambdaFn, DefineFn]

  /** if, lambda and define are registered with eval = false; every other builtin keeps the allocation default. */
  predicate EvaluatesArgs(fn: BuiltinFn) {
    fn != IfFn && fn != LambdaFn && fn != DefineFn
  }

  /** A run of ht_insert calls: bind names[i] to vals[i], in order. */
  function BindAll(s: Scope, names: seq<string>, vals: seq<Value>): (r: Scope)
    requires |names| == |vals|
    ensures r.up == s.up
    ensures forall name :: name in r.table <==> name in s.table || name in names
    ensures forall name :: name in r.table ==> (name in s.table && r.table[name] == s.table[name]) || r.table[name] in vals
  {
    if |names| == 0 then s
    else
      var last := |names| - 1;
      assert forall name :: name in names <==> name in names[..last] || name == names[last];
      assert forall v :: v in vals[..last] ==> v in vals;
      Bind(BindAll(s, names[..last], vals[..last]), names[last], vals[last])
  }

  /** With no name inserted twice, every inserted name ends up bound to its own value. */
  lemma {:induction false} BindAllBinds(s: Scope, names: seq<string>, vals: seq<Value>)
    requires |names| == |vals|
    requires forall i, j :: 0 <= i < j < |names| ==> names[i] != names[j]
    ensures forall i :: 0 <= i < |names| ==> Lookup(BindAll(s, names, vals), names[i]) == Some(vals[i])
  {
    if |names| > 0 {
      var last := |names| - 1;
      var front, fvals := names[..last], vals[..last];
      BindAllBinds(s, front, fvals);
      var inner := BindAll(s, front, fvals);
      var r := BindAll(s, names, vals);
      assert r == Bind(inner, names[last], vals[last]);
      forall i | 0 <= i < |names|
        ensures Lookup(r, names[i]) == Some(vals[i])
      {
        if i < last {
          assert names[i] != names[last];
          assert front[i] == names[i] && fvals[i] == vals[i];
          assert Lookup(inner, front[i]) == Some(fvals[i]);
        }
      }
    }
  }

  /** The builtin registered under each global name. */
  function GlobalValues(): (vs: seq<Value>)
    ensures |vs| == |GlobalFns|
    ensures forall i :: 0 <= i < |vs| ==> vs[i] == Builtin(GlobalFns[i], EvaluatesArgs(GlobalFns[i]))
  {
    seq(|GlobalFns|, i requires 0 <= i < |GlobalFns| => Builtin(GlobalFns[i], EvaluatesArgs(GlobalFns[i])))
  }

  /** lisp_create_globals: a new scope, then one insert per builtin. */
  function Globals(): (s: Scope)
    ensures s.up.None?
    ensures forall name :: name in s.table <==> name in GlobalNames
  {
    BindAll(Create(), GlobalNames, GlobalValues())
  }

  /** No name is registered twice. */
  lemma GlobalNamesDistinct()
    ensures forall i, j :: 0 <= i < j < |GlobalNames| ==> GlobalNames[i] != GlobalNames[j]
  {
  }

  /** The globals bind each of the 16 names to its builtin, with eval false exactly for if, lambda and define. */
  lemma GlobalsBindings()
    ensures forall i :: 0 <= i < |GlobalNames| ==> Lookup(Globals(), GlobalNames[i]) == Some(Builtin(GlobalFns[i], EvaluatesArgs(GlobalFns[i])))
  {
    GlobalNamesDistinct();
    BindAllBinds(Create(), GlobalNames, GlobalValues());
  }

  /** The last three names, if, lambda and define, are the builtins that receive their arguments unevaluated. */
  lemma GlobalsUnevaluated()
    ensures GlobalNames[13..] == ["if", "lambda", "define"]
    ensures forall i :: 0 <= i < |GlobalFns| ==> (!EvaluatesArgs(GlobalFns[i]) <==> 13 <= i)
  {
  }
}
