/**
  The evaluator of src/eval.c and the builtins that evaluate (if, define).
  lisp_evaluate evaluates the function slot, then every argument, and calls
  a builtin with the evaluated list; the builtin's eval flag is never read
  and no scope is passed (eval.c:69), so the model hands the builtin the
  caller's scope. The exit flag lisp_interactive_exit is threaded through
  as a result bit.
*/
module Eval {
  import opened Wrappers
  import opened Faults
  import opened Values
  import opened Scopes
  import opened Builtins
  import opened LispLex
  import opened Parser

  /** The value of an evaluation, the scope after it, and whether exit was called. */
  datatype Outcome = Outcome(value: Value, scope: Scope, exit: bool)

  /** The same for lisp_evaluate_list: the fresh list of evaluated values. */
  datatype ListOutcome = ListOutcome(cells: Cell, scope: Scope, exit: bool)

  /** Every binding of the scope is an evaluated value. */
  predicate ScopeEvaluated(s: Scope) {
    forall name :: name in s.table ==> Evaluated(s.table[name])
  }

  /** The termination measure: calls are ranked by size, every other value is at the bottom. */
  function Rank(e: Value): nat {
    if e.FuncCall? then Size(e) else 0
  }

  /** Every element of an evaluated list is evaluated, and so is acceptable code. */
  lemma {:induction false} ElementsEvaluated(c: Cell)
    requires EvaluatedCells(c)
    ensures forall k :: 0 <= k < |Elements(c)| ==> Evaluated(Elements(c)[k]) && Code(Elements(c)[k])
    decreases c
  {
    match c
    case Empty(_) =>
    case Cons(h, t) =>
      ElementsEvaluated(t);
      assert Elements(c) == [h] + Elements(t);
  }

  /** The same for one element. */
  lemma {:induction false} ElementEvaluated(c: Cell, i: nat)
    requires EvaluatedCells(c) && i < |Elements(c)|
    ensures Evaluated(Elements(c)[i]) && Code(Elements(c)[i]) && !Elements(c)[i].FuncCall?
    decreases c
  {
    match c
    case Cons(h, t) =>
      assert Elements(c) == [h] + Elements(t);
      if i > 0 {
        ElementEvaluated(t, i - 1);
      }
  }

  /**
    lisp_evaluate. Integers, atoms, lists and builtins evaluate to
    themselves; an identifier to its binding in the current scope's own
    table; a call evaluates its function slot, then its arguments, and
    applies a builtin to them. A null function slot, a callee that is not a
    builtin, an unbound identifier and a closure are errors.
  */
  function Evaluate(e: Value, s: Scope): (r: Result<Outcome, Fault>)
    requires Code(e) && ScopeEvaluated(s)
    decreases Rank(e), 1
    ensures r.Ok? ==> Evaluated(r.value.value) && ScopeEvaluated(r.value.scope)
    ensures e.Int? || e.Atom? || e.List? || e.Builtin? ==> r == Ok(Outcome(e, s, false))
    ensures e.Identifier? ==> (r.Ok? <==> e.name in s.table)
    ensures e.Identifier? && r.Ok? ==> r.value == Outcome(s.table[e.name], s, false)
    ensures e.Identifier? && r.Err? ==> r.error == Unbound(e.name)
    ensures e.Function? ==> r == Err(NotEvaluable)
    ensures e.FuncCall? && e.callee.None? ==> r == Err(NullValue)
  {
    match e
    case Int(_) => Ok(Outcome(e, s, false))
    case Atom(_) => Ok(Outcome(e, s, false))
    case List(_) => Ok(Outcome(e, s, false))
    case Builtin(_, _) => Ok(Outcome(e, s, false))
    case Identifier(name) =>
      (match Lookup(s, name)
       case Some(v) => Ok(Outcome(v, s, false))
       case None => Err(Unbound(name)))
    case Function(_, _) => Err(NotEvaluable)
    case FuncCall(f, args) =>
      if f.None? then Err(NullValue)
      else
        var fo :- Evaluate(f.value, s);
        var ao :- EvaluateList(args, fo.scope);
        match fo.value
        case Builtin(fn, _) =>
          var o :- Apply(fn, ao.cells, ao.scope);
          Ok(Outcome(o.value, o.scope, fo.exit || ao.exit || o.exit))
        case _ => Err(NotCallable)
  }

  /**
    lisp_evaluate_list: a fresh list holding the value of each element, in
    order, ended by one fresh empty cell. The walk stops at the first
    null-valued cell.
  */
  function EvaluateList(c: Cell, s: Scope): (r: Result<ListOutcome, Fault>)
    requires CodeCells(c) && ScopeEvaluated(s)
    decreases CellSize(c), 0
    ensures r.Ok? ==> EvaluatedCells(r.value.cells) && ScopeEvaluated(r.value.scope)
    ensures r.Ok? ==> |Elements(r.value.cells)| == |Elements(c)|
    ensures r.Ok? ==> r.value.cells == ArgList(Elements(r.value.cells))
  {
    match c
    case Empty(_) => Ok(ListOutcome(Empty(None), s, false))
    case Cons(h, t) =>
      var ho :- Evaluate(h, s);
      var to :- EvaluateList(t, ho.scope);
      Ok(ListOutcome(Cons(ho.value, to.cells), to.scope, ho.exit || to.exit))
  }

  /** The builtins that only compute a value from their arguments. */
  predicate IsPure(fn: BuiltinFn) {
    !fn.IfFn? && !fn.DefineFn? && !fn.ExitFn?
  }

  /**
    A value-only builtin applied to evaluated arguments. The subtraction is
    lisp_subtract as written, which fails on every call with two or more
    arguments.
  */
  function Pure(fn: BuiltinFn, args: Cell): (r: Result<Value, Fault>)
    requires IsPure(fn) && EvaluatedCells(args)
    ensures r.Ok? ==> Evaluated(r.value)
    ensures fn.AddFn? ==> (r.Ok? <==> AllInts(Elements(args)) && RunningInLong(0, Elements(args)))
    ensures fn.AddFn? && r.Ok? ==> r.value.Int? && r.value.n == SumOf(Elements(args))
    ensures fn.SubtractFn? && |Elements(args)| >= 2 ==> r.Err?
    ensures fn.LambdaFn? ==> (r.Ok? <==> |Elements(args)| == 2)
  {
    ElementsEvaluated(args);
    AddIsSum(args);
    SubtractAsWrittenNeedsOne(args);
    match fn
    case AddFn => Add(args)
    case SubtractFn => SubtractAsWritten(args)
    case LengthFn => Length(args)
    case CarFn => Car(args)
    case CdrFn => Cdr(args)
    case ConsFn => ConsList(args)
    case NumEqFn => NumCompare(Eq, args)
    case NumLtFn => NumCompare(Lt, args)
    case NumGtFn => NumCompare(Gt, args)
    case NumLeFn => NumCompare(Le, args)
    case NumGeFn => NumCompare(Ge, args)
    case NullPFn => NullP(args)
    case LambdaFn => Lambda(args)
  }

  /**
    Call a builtin on an evaluated argument list. Only exit raises the exit
    flag; if returns the branch its condition picks; the value-only builtins
    return what Pure computes.
  */
  function Apply(fn: BuiltinFn, args: Cell, s: Scope): (r: Result<Outcome, Fault>)
    requires EvaluatedCells(args) && ScopeEvaluated(s)
    decreases 0, 3
    ensures r.Ok? ==> Evaluated(r.value.value) && ScopeEvaluated(r.value.scope)
    ensures r.Ok? ==> (r.value.exit <==> fn.ExitFn?)
    ensures fn.ExitFn? ==> r == Ok(Outcome(if Elements(args) == [] then Int(0) else Elements(args)[0], s, true))
    ensures fn.IfFn? && r.Ok? ==>
              var es := Elements(args);
              |es| == 3 && r.value == Outcome(if Truthy(es[0]) then es[1] else es[2], s, false)
    ensures IsPure(fn) ==> (r.Ok? <==> Pure(fn, args).Ok?)
    ensures IsPure(fn) && r.Ok? ==> r.value == Outcome(Pure(fn, args).value, s, false)
  {
    match fn
    case IfFn => If(args, s)
    case DefineFn => Define(args, s)
    case ExitFn =>
      ElementsEvaluated(args);
      var reply := Exit(args);
      Ok(Outcome(reply.value, s, reply.exit))
    case _ =>
      var v :- Pure(fn, args);
      Ok(Outcome(v, s, false))
  }

  /** lisp_if: evaluate the condition, then the branch it picks. */
  function If(args: Cell, s: Scope): (r: Result<Outcome, Fault>)
    requires EvaluatedCells(args) && ScopeEvaluated(s)
    decreases 0, 2
    ensures r.Ok? ==> Evaluated(r.value.value) && ScopeEvaluated(r.value.scope)
    ensures r.Ok? <==>
              var es := Elements(args);
              |es| == 3 && !es[0].Function? && !(if Truthy(es[0]) then es[1] else es[2]).Function?
    ensures r.Ok? ==>
              var es := Elements(args);
              r.value == Outcome(if Truthy(es[0]) then es[1] else es[2], s, false)
  {
    var vs :- GetArgs("if", args, "???");
    ElementsEvaluated(args);
    var c :- Evaluate(vs[0], s);
    var o :- Evaluate(if Truthy(c.value) then vs[1] else vs[2], c.scope);
    Ok(Outcome(o.value, o.scope, c.exit || o.exit))
  }

  /** lisp_define: an identifier and a value; bind the identifier to the value's evaluation. */
  function Define(args: Cell, s: Scope): (r: Result<Outcome, Fault>)
    requires EvaluatedCells(args) && ScopeEvaluated(s)
    decreases 0, 2
    ensures r.Ok? ==> Evaluated(r.value.value) && ScopeEvaluated(r.value.scope)
    ensures r.Ok? ==> !r.value.exit
    ensures r.Ok? ==>
              |Elements(args)| == 2 && Elements(args)[0].Identifier? &&
              Lookup(r.value.scope, Elements(args)[0].name) == Some(r.value.value)
  {
    var vs :- GetArgs("define", args, "i?");
    ElementEvaluated(args, 1);
    var o :- Evaluate(vs[1], s);
    Ok(Outcome(o.value, Bind(o.scope, vs[0].name, o.value), o.exit))
  }

  // ---------------------------------------------------------------------------
  // Properties of evaluation

  /** The arguments of a builtin are evaluated, so define always stops at its identifier check. */
  lemma DefineNeverBinds(args: Cell, s: Scope)
    requires EvaluatedCells(args) && ScopeEvaluated(s)
    ensures Define(args, s).Err?
    ensures |Elements(args)| == 2 ==> Define(args, s) == Err(WrongArgType("define", 0, "identifier", TypeName(TypeOf(Elements(args)[0]))))
  {
    ElementsEvaluated(args);
  }

  /**
    Evaluation never changes the scope: the only builtin that writes to it,
    define, always fails on evaluated arguments.
  */
  lemma {:induction false} EvaluateKeepsScope(e: Value, s: Scope)
    requires Code(e) && ScopeEvaluated(s)
    ensures Evaluate(e, s).Ok? ==> Evaluate(e, s).value.scope == s
    decreases Rank(e), 1
  {
    if e.FuncCall? && e.callee.Some? {
      EvaluateKeepsScope(e.callee.value, s);
      var fo := Evaluate(e.callee.value, s);
      if fo.Ok? {
        EvaluateListKeepsScope(e.arguments, s);
        var ao := EvaluateList(e.arguments, s);
        if ao.Ok? && fo.value.value.Builtin? {
          ApplyKeepsScope(fo.value.value.fn, ao.value.cells, s);
        }
      }
    }
  }

  lemma {:induction false} EvaluateListKeepsScope(c: Cell, s: Scope)
    requires CodeCells(c) && ScopeEvaluated(s)
    ensures EvaluateList(c, s).Ok? ==> EvaluateList(c, s).value.scope == s
    decreases CellSize(c), 0
  {
    match c
    case Empty(_) =>
    case Cons(h, t) =>
      EvaluateKeepsScope(h, s);
      EvaluateListKeepsScope(t, s);
  }

  lemma {:induction false} ApplyKeepsScope(fn: BuiltinFn, args: Cell, s: Scope)
    requires EvaluatedCells(args) && ScopeEvaluated(s)
    ensures Apply(fn, args, s).Ok? ==> Apply(fn, args, s).value.scope == s
    decreases 0, 3
  {
    match fn
    case IfFn => IfKeepsScope(args, s);
    case DefineFn => DefineNeverBinds(args, s);
    case _ =>
  }

  lemma {:induction false} IfKeepsScope(args: Cell, s: Scope)
    requires EvaluatedCells(args) && ScopeEvaluated(s)
    ensures If(args, s).Ok? ==> If(args, s).value.scope == s
    decreases 0, 2
  {
    if |Elements(args)| == 3 {
      ElementsEvaluated(args);
      var vs := Elements(args);
      EvaluateKeepsScope(vs[0], s);
      EvaluateKeepsScope(vs[1], s);
      EvaluateKeepsScope(vs[2], s);
    }
  }

  /**
    lisp_evaluate_list evaluates each element on its own: it succeeds exactly
    when every element does, and its i-th value is the i-th element's value.
  */
  lemma {:induction false} EvaluateListElementwise(c: Cell, s: Scope)
    requires CodeCells(c) && ScopeEvaluated(s)
    ensures forall k :: 0 <= k < |Elements(c)| ==> Code(Elements(c)[k])
    ensures EvaluateList(c, s).Ok? <==> forall k :: 0 <= k < |Elements(c)| ==> Evaluate(Elements(c)[k], s).Ok?
    ensures EvaluateList(c, s).Ok? ==>
              forall k :: 0 <= k < |Elements(c)| ==> Elements(EvaluateList(c, s).value.cells)[k] == Evaluate(Elements(c)[k], s).value.value
    decreases c
  {
    match c
    case Empty(_) =>
    case Cons(h, t) =>
      EvaluateListElementwise(t, s);
      EvaluateKeepsScope(h, s);
      var es := Elements(c);
      assert es == [h] + Elements(t);
      assert forall k :: 0 < k < |es| ==> es[k] == Elements(t)[k - 1];
      if EvaluateList(c, s).Ok? {
        var cells := EvaluateList(c, s).value.cells;
        assert Elements(cells) == [Evaluate(h, s).value.value] + Elements(EvaluateList(t, s).value.cells);
      } else if Evaluate(h, s).Ok? {
        assert !EvaluateList(t, s).Ok?;
        var k :| 0 <= k < |Elements(t)| && !Evaluate(Elements(t)[k], s).Ok?;
        assert es[k + 1] == Elements(t)[k];
      } else {
        assert es[0] == h;
      }
  }

  /**
    A call with a function slot: the slot is evaluated first, then the
    arguments, and a builtin is applied to the evaluated list, all in the
    caller's scope; an error stops evaluation where it arises, and a callee
    that is not a builtin is an error.
  */
  lemma EvaluateCall(f: Value, args: Cell, s: Scope)
    requires Code(f) && CodeCells(args) && ScopeEvaluated(s)
    ensures Code(FuncCall(Some(f), args))
    ensures var r := Evaluate(FuncCall(Some(f), args), s);
            var fo := Evaluate(f, s);
            var ao := EvaluateList(args, s);
            && (fo.Err? ==> r == Err(fo.error))
            && (fo.Ok? && ao.Err? ==> r == Err(ao.error))
            && (fo.Ok? && ao.Ok? && !fo.value.value.Builtin? ==> r == Err(NotCallable))
            && (fo.Ok? && ao.Ok? && fo.value.value.Builtin? ==>
                  var a := Apply(fo.value.value.fn, ao.value.cells, s);
                  (r.Ok? <==> a.Ok?) && (r.Ok? ==> r.value.value == a.value.value && r.value.scope == s))
  {
    EvaluateKeepsScope(f, s);
    var fo := Evaluate(f, s);
    if fo.Ok? {
      EvaluateListKeepsScope(args, s);
      var ao := EvaluateList(args, s);
      if ao.Ok? && fo.value.value.Builtin? {
        ApplyKeepsScope(fo.value.value.fn, ao.value.cells, s);
      }
    }
  }

  /** A value that evaluation returns (a closure aside) evaluates to itself again, in any scope. */
  lemma EvaluateIdempotent(e: Value, s: Scope, s': Scope)
    requires Code(e) && ScopeEvaluated(s) && ScopeEvaluated(s')
    requires Evaluate(e, s).Ok? && !Evaluate(e, s).value.value.Function?
    ensures Code(Evaluate(e, s).value.value)
    ensures Evaluate(Evaluate(e, s).value.value, s') == Ok(Outcome(Evaluate(e, s).value.value, s', false))
  {
  }

  /** lisp_if picks the second argument when the first is truthy and the third otherwise. */
  lemma IfChooses(c: Value, t: Value, f: Value, s: Scope)
    requires Evaluated(c) && Evaluated(t) && Evaluated(f) && ScopeEvaluated(s)
    requires !c.Function? && !t.Function? && !f.Function?
    ensures EvaluatedCells(Cons(c, Cons(t, Cons(f, Empty(None)))))
    ensures If(Cons(c, Cons(t, Cons(f, Empty(None)))), s) == Ok(Outcome(if Truthy(c) then t else f, s, false))
  {
    assert EvaluatedCells(Empty(None));
    assert EvaluatedCells(Cons(f, Empty(None)));
    assert EvaluatedCells(Cons(t, Cons(f, Empty(None))));
    var args := Cons(c, Cons(t, Cons(f, Empty(None))));
    assert Elements(Cons(f, Empty(None))) == [f];
    assert Elements(Cons(t, Cons(f, Empty(None)))) == [t, f];
    assert Elements(args) == [c, t, f];
  }

  // ---------------------------------------------------------------------------
  // lisp_run

  /** The globals are builtins, so every binding is evaluated. */
  lemma GlobalsEvaluated()
    ensures ScopeEvaluated(Globals())
  {
    var s := Globals();
    forall name | name in s.table ensures Evaluated(s.table[name]) {
      assert s.table[name] in GlobalValues();
    }
  }

  /**
    lisp_run without the printing: lex the string, parse one form, and
    evaluate it in a fresh global scope. A string that parses to nothing
    leaves a null expression, which lisp_evaluate dereferences.
  */
  function Run(text: string): (r: Result<Value, Fault>)
    requires '\0' !in text
    ensures r.Ok? ==> Evaluated(r.value)
  {
    var toks :- Lex(text);
    var code :- Parse(toks);
    if code.None? then Err(NullValue)
    else
      GlobalsEvaluated();
      var o :- Evaluate(code.value, Globals());
      Ok(o.value)
  }

  /**
    lisp_run on a text that lexes to the tokens of a form gives what
    evaluating that form in the globals gives.
  */
  lemma RunIsEvaluate(text: string, v: Value)
    requires '\0' !in text && Writable(v, false)
    requires Lex(text) == Ok(Unparse(v, false))
    ensures Code(v) && ScopeEvaluated(Globals())
    ensures Run(text).Ok? <==> Evaluate(v, Globals()).Ok?
    ensures Run(text).Ok? ==> Run(text).value == Evaluate(v, Globals()).value.value
    ensures Run(text).Err? && Evaluate(v, Globals()).Err? ==> Run(text).error == Evaluate(v, Globals()).error
  {
    ParseWritten(v);
    GlobalsEvaluated();
    assert Parse(Unparse(v, false)) == Ok(Some(v));
  }
}
