/**
  Reference counting (src/types.c:23-36 and the tp_alloc / tp_dealloc slots of
  each type object, src/scope.c:49-59). Objects live in a heap addressed by
  references; every object carries an unsigned reference count. An object
  whose count drops to zero is freed after the values it points to have been
  released in turn.
*/
module Heap {
  import opened Wrappers
  import opened Faults
  import opened Values

  /** 2^32: the `unsigned int` reference count wraps modulo this. */
  const RefcountModulus: nat := 0x1_0000_0000

  /** An object address; null is `None` wherever a pointer may be null. */
  type Ref = nat

  /** The fields of each object type beyond the header. */
  datatype Payload =
    | IntObj(n: Long)
    | TextObj(tag: TypeTag, text: Option<string>)
    | ListObj(value: Option<Ref>, next: Option<Ref>)
    | CallObj(callee: Option<Ref>, arguments: Option<Ref>)
    | BuiltinObj(fn: Option<BuiltinFn>, eval: bool)

  /** An `unsigned int` reference count. */
  type Count = n: int | 0 <= n < RefcountModulus

  datatype Obj = Obj(refcount: Count, payload: Payload)

  /**
    The heap: the live objects and the address the allocator hands out next
    (the model's stand-in for malloc choosing a fresh address).
  */
  datatype Heap = Heap(objects: map<Ref, Obj>, next: Ref)

  /** Every live object lies below the allocator's mark. */
  predicate Valid(h: Heap) {
    forall r :: r in h.objects ==> r < h.next
  }

  /** The type of an object, as its type pointer would say. */
  function TagOf(p: Payload): TypeTag {
    match p
    case IntObj(_) => TInt
    case TextObj(t, _) => t
    case ListObj(_, _) => TList
    case CallObj(_, _) => TFuncCall
    case BuiltinObj(_, _) => TBuiltin
  }

  /** The object types types.c defines, and so the ones that can be allocated. */
  predicate Allocatable(t: TypeTag) {
    t != TFunction
  }

  /** The fields each tp_alloc fills in: zero, null pointers, and eval set for builtins. */
  function Zeroed(t: TypeTag): (p: Payload)
    requires Allocatable(t)
    ensures TagOf(p) == t
    ensures Children(p) == (None, None)
    ensures p.IntObj? ==> p.n == 0
    ensures p.TextObj? ==> p.text.None?
    ensures p.BuiltinObj? ==> p.fn.None? && p.eval
  {
    match t
    case TInt => IntObj(0)
    case TAtom => TextObj(TAtom, None)
    case TIdentifier => TextObj(TIdentifier, None)
    case TList => ListObj(None, None)
    case TFuncCall => CallObj(None, None)
    case TBuiltin => BuiltinObj(None, true)
  }

  /** tp_alloc: a fresh object of type t with one reference; no live object is touched. */
  function Alloc(h: Heap, t: TypeTag): (r: (Heap, Ref))
    requires Valid(h) && Allocatable(t)
    ensures Valid(r.0)
    ensures r.1 !in h.objects && r.1 in r.0.objects
    ensures r.0.objects[r.1] == Obj(1, Zeroed(t))
    ensures r.0.objects.Keys == h.objects.Keys + {r.1}
    ensures forall k :: k in h.objects ==> r.0.objects[k] == h.objects[k]
  {
    (Heap(h.objects[h.next := Obj(1, Zeroed(t))], h.next + 1), h.next)
  }

  /**
    A fresh object reads back as the zero of its type where the value model
    has one (0 and the empty list); an atom, identifier or builtin with no
    text or function yet is a null value, and a call without arguments is
    not a value.
  */
  lemma AllocLoad(h: Heap, t: TypeTag)
    requires Valid(h) && Allocatable(t)
    ensures var (h', r) := Alloc(h, t);
      && (t == TInt ==> LoadValue(h'.objects, r) == Ok(Int(0)))
      && (t == TList ==> LoadValue(h'.objects, r) == Ok(List(Empty(None))))
      && (t == TAtom || t == TIdentifier || t == TBuiltin ==> LoadValue(h'.objects, r) == Err(NullValue))
      && (t == TFuncCall ==> LoadValue(h'.objects, r) == Err(Dangling))
  {
  }

  /** Dropping the one reference of a fresh object frees it and leaves the other objects as they were. */
  lemma AllocRelease(h: Heap, t: TypeTag)
    requires Valid(h) && Allocatable(t)
    ensures var (h', r) := Alloc(h, t);
      Decref(h', Some(r)) == Ok(Heap(h.objects, h'.next))
  {
    var (h', r) := Alloc(h, t);
    assert h'.objects - {r} == h.objects;
  }

  /** Unsigned 32-bit increment and decrement of a count. */
  function CountUp(n: Count): (r: Count)
    ensures (r == n + 1) || (n == RefcountModulus - 1 && r == 0)
  {
    (n + 1) % RefcountModulus
  }

  function CountDown(n: Count): (r: Count)
    ensures (r + 1 == n) || (n == 0 && r == RefcountModulus - 1)
  {
    (n + RefcountModulus - 1) % RefcountModulus
  }

  /** The two wrap-arounds undo each other. */
  lemma CountRoundTrip(n: Count)
    ensures CountDown(CountUp(n)) == n && CountUp(CountDown(n)) == n
  {
  }

  /**
    lisp_incref: null is ignored; otherwise the count goes up by one (modulo
    2^32). A reference to no live object is an error (the source would write
    to freed memory).
  */
  function Incref(h: Heap, r: Option<Ref>): (res: Result<Heap, Fault>)
    ensures res.Ok? <==> (r.None? || r.value in h.objects)
    ensures res.Ok? ==> res.value.next == h.next
    ensures res.Ok? ==> res.value.objects.Keys == h.objects.Keys
    ensures res.Ok? ==> forall k :: k in h.objects && Some(k) != r ==> res.value.objects[k] == h.objects[k]
    ensures res.Ok? && r.Some? ==>
      var o := h.objects[r.value];
      res.value.objects[r.value] == Obj(CountUp(o.refcount), o.payload)
  {
    match r
    case None => Ok(h)
    case Some(k) =>
      if k !in h.objects then Err(Dangling)
      else
        var o := h.objects[k];
        Ok(Heap(h.objects[k := Obj(CountUp(o.refcount), o.payload)], h.next))
  }

  /** The pointers an object holds, in the order its tp_dealloc releases them. */
  function Children(p: Payload): (r: (Option<Ref>, Option<Ref>)) {
    match p
    case ListObj(v, n) => (v, n)
    case CallObj(f, a) => (f, a)
    case _ => (None, None)
  }

  /**
    lisp_decref: null is ignored; otherwise the count goes down by one
    (modulo 2^32), and at zero the object is released: its children are
    decref'd first-then-second (value then next for a list, function then
    arguments for a call) and the object is freed. Decref never changes a
    payload, and an object whose count was not zero is freed or keeps a
    count between one and its old count; a count of zero wraps to 2^32 - 1.
  */
  function Decref(h: Heap, r: Option<Ref>): (res: Result<Heap, Fault>)
    ensures res.Ok? ==> res.value.next == h.next
    ensures res.Ok? ==> res.value.objects.Keys <= h.objects.Keys
    ensures res.Ok? ==> forall k :: k in res.value.objects ==> res.value.objects[k].payload == h.objects[k].payload
    ensures r.None? ==> res == Ok(h)
    ensures r.Some? && r.value !in h.objects ==> res == Err(Dangling)
    decreases h.objects.Keys
  {
    match r
    case None => Ok(h)
    case Some(k) =>
      if k !in h.objects then Err(Dangling)
      else
        var o := h.objects[k];
        var rc := CountDown(o.refcount);
        if rc != 0 then Ok(Heap(h.objects[k := Obj(rc, o.payload)], h.next))
        else
          var h1 := Heap(h.objects - {k}, h.next);
          var h2 :- Decref(h1, Children(o.payload).0);
          Decref(h2, Children(o.payload).1)
  }

  /** No object's count goes up, or down to zero while it stays live, unless it started at zero. */
  predicate CountsLowered(h: Heap, h': Heap)
    requires h'.objects.Keys <= h.objects.Keys
  {
    forall k :: k in h'.objects && h.objects[k].refcount > 0 ==>
      0 < h'.objects[k].refcount <= h.objects[k].refcount
  }

  /** A decref lowers counts: an object with references is freed or keeps between one and its old count. */
  lemma {:induction false} DecrefLowers(h: Heap, r: Option<Ref>)
    ensures Decref(h, r).Ok? ==> CountsLowered(h, Decref(h, r).value)
    decreases h.objects.Keys
  {
    if r.Some? && r.value in h.objects {
      var k := r.value;
      var o := h.objects[k];
      if CountDown(o.refcount) == 0 {
        var h1 := Heap(h.objects - {k}, h.next);
        DecrefLowers(h1, Children(o.payload).0);
        if Decref(h1, Children(o.payload).0).Ok? {
          var h2 := Decref(h1, Children(o.payload).0).value;
          DecrefLowers(h2, Children(o.payload).1);
        }
      }
    }
  }

  /** A decref that leaves at least one reference only lowers that object's count. */
  lemma DecrefShared(h: Heap, k: Ref)
    requires k in h.objects && h.objects[k].refcount >= 2
    ensures Decref(h, Some(k)).Ok?
    ensures var h' := Decref(h, Some(k)).value;
      h'.objects.Keys == h.objects.Keys &&
      h'.objects[k].refcount == h.objects[k].refcount - 1 &&
      forall j :: j in h.objects && j != k ==> h'.objects[j] == h.objects[j]
  {
  }

  /** Dropping the last reference frees the object. */
  lemma DecrefLast(h: Heap, k: Ref)
    requires k in h.objects && h.objects[k].refcount == 1
    ensures Decref(h, Some(k)).Ok? ==> k !in Decref(h, Some(k)).value.objects
  {
  }

  /** An incref followed by a decref of the same live object restores the heap, whatever the count. */
  lemma IncrefDecref(h: Heap, k: Ref)
    requires k in h.objects && h.objects[k].refcount != 0
    ensures Incref(h, Some(k)).Ok?
    ensures Decref(Incref(h, Some(k)).value, Some(k)) == Ok(h)
  {
    var o := h.objects[k];
    CountRoundTrip(o.refcount);
    var h1 := Incref(h, Some(k)).value;
    assert h1.objects[k := Obj(o.refcount, o.payload)] == h.objects;
  }

  // ---------------------------------------------------------------------------
  // Values as object trees

  /** Values that have an object type in types.c (closures have none). */
  predicate Storable(v: Value) {
    match v
    case List(c) => StorableCells(c)
    case FuncCall(f, args) => (f.Some? ==> Storable(f.value)) && StorableCells(args)
    case Function(_, _) => false
    case _ => true
  }

  predicate StorableCells(c: Cell) {
    match c
    case Cons(h, t) => Storable(h) && StorableCells(t)
    case Empty(n) => n.Some? ==> StorableCells(n.value)
  }

  /** A freshly built object tree: its objects, its root, and the first address after it. */
  datatype Tree = Tree(objects: map<Ref, Obj>, root: Ref, end: Ref)

  /** Every object of the tree lies in [start, end), the root is the last, and each has one reference. */
  predicate Fresh(t: Tree, start: Ref) {
    start <= t.root < t.end && t.root == t.end - 1 && t.root in t.objects &&
    forall k :: k in t.objects ==> start <= k < t.end && t.objects[k].refcount == 1
  }

  /** Two trees built one after the other, with a parent object on top. */
  function Join(a: map<Ref, Obj>, b: map<Ref, Obj>, root: Ref, p: Payload): (t: Tree) {
    Tree((a + b)[root := Obj(1, p)], root, root + 1)
  }

  /**
    The objects the parser and the builtins allocate for a value, children
    before parents, from address start: one object per value and per list
    cell, each holding one reference from its parent.
  */
  function StoreValue(v: Value, start: Ref): (t: Tree)
    requires Storable(v)
    ensures Fresh(t, start)
    decreases Size(v), 1
  {
    match v
    case Int(n) => Tree(map[start := Obj(1, IntObj(n))], start, start + 1)
    case Atom(s) => Tree(map[start := Obj(1, TextObj(TAtom, Some(s)))], start, start + 1)
    case Identifier(s) => Tree(map[start := Obj(1, TextObj(TIdentifier, Some(s)))], start, start + 1)
    case Builtin(fn, e) => Tree(map[start := Obj(1, BuiltinObj(Some(fn), e))], start, start + 1)
    case List(c) => StoreCell(c, start)
    case FuncCall(None, args) =>
      var a := StoreCell(args, start);
      Join(map[], a.objects, a.end, CallObj(None, Some(a.root)))
    case FuncCall(Some(f), args) =>
      var ft := StoreValue(f, start);
      var a := StoreCell(args, ft.end);
      Join(ft.objects, a.objects, a.end, CallObj(Some(ft.root), Some(a.root)))
  }

  function StoreCell(c: Cell, start: Ref): (t: Tree)
    requires StorableCells(c)
    ensures Fresh(t, start)
    decreases CellSize(c), 0
  {
    match c
    case Empty(None) => Tree(map[start := Obj(1, ListObj(None, None))], start, start + 1)
    case Empty(Some(n)) =>
      var nt := StoreCell(n, start);
      Join(map[], nt.objects, nt.end, ListObj(None, Some(nt.root)))
    case Cons(x, rest) =>
      var xt := StoreValue(x, start);
      var rt := StoreCell(rest, xt.end);
      Join(xt.objects, rt.objects, rt.end, ListObj(Some(xt.root), Some(rt.root)))
  }

  /** Store a value in the heap: the tree's objects join the live ones. */
  function Store(h: Heap, v: Value): (r: (Heap, Ref))
    requires Valid(h) && Storable(v)
    ensures Valid(r.0) && h.next <= r.0.next
    ensures r.1 !in h.objects && r.1 in r.0.objects
    ensures forall k :: k in h.objects ==> k in r.0.objects && r.0.objects[k] == h.objects[k]
  {
    var t := StoreValue(v, h.next);
    (Heap(h.objects + t.objects, t.end), t.root)
  }

  /** The address range of a tree built from start. */
  predicate Outside(x: map<Ref, Obj>, start: Ref, end: Ref) {
    forall k :: k in x ==> !(start <= k < end)
  }

  /** No address is live in both maps. */
  predicate Disjoint(a: map<Ref, Obj>, b: map<Ref, Obj>) {
    forall k :: k in a ==> k !in b
  }

  /** Releasing an object's last reference releases its two children in order. */
  lemma DecrefLastStep(h: Heap, k: Ref, p: Payload, rest: Heap, mid: Heap, end: Heap)
    requires k in h.objects && h.objects[k] == Obj(1, p) && rest == Heap(h.objects - {k}, h.next)
    requires Decref(rest, Children(p).0) == Ok(mid)
    requires Decref(mid, Children(p).1) == Ok(end)
    ensures Decref(h, Some(k)) == Ok(end)
  {
  }

  /** Removing the parent of two disjoint trees leaves the trees. */
  lemma RemoveParent(x: map<Ref, Obj>, a: map<Ref, Obj>, b: map<Ref, Obj>, root: Ref, o: Obj)
    requires Disjoint(x, a) && Disjoint(x, b) && Disjoint(a, b)
    requires root !in x && root !in a && root !in b
    ensures (x + (a + b)[root := o]) - {root} == (x + b) + a
  {
    var l := (x + (a + b)[root := o]) - {root};
    var r := (x + b) + a;
    assert l.Keys == r.Keys;
    forall k | k in l ensures l[k] == r[k] {
    }
  }

  /**
    The release of a parent built on top of two trees a and b: when releasing
    the first child frees exactly a and releasing the second frees exactly b,
    releasing the parent frees a, b and the parent.
  */
  lemma ReleaseParent(x: map<Ref, Obj>, a: map<Ref, Obj>, b: map<Ref, Obj>, root: Ref, p: Payload, next: Ref)
    requires Disjoint(x, a) && Disjoint(x, b) && Disjoint(a, b)
    requires root !in x && root !in a && root !in b
    requires Decref(Heap((x + b) + a, next), Children(p).0) == Ok(Heap(x + b, next))
    requires Decref(Heap(x + b, next), Children(p).1) == Ok(Heap(x, next))
    ensures Decref(Heap(x + (a + b)[root := Obj(1, p)], next), Some(root)) == Ok(Heap(x, next))
  {
    var h := Heap(x + (a + b)[root := Obj(1, p)], next);
    assert h.objects[root] == Obj(1, p);
    RemoveParent(x, a, b, root, Obj(1, p));
    DecrefLastStep(h, root, p, Heap((x + b) + a, next), Heap(x + b, next), Heap(x, next));
  }

  /** Releasing a lone object with one reference frees it. */
  lemma ReleaseLeaf(x: map<Ref, Obj>, root: Ref, p: Payload, next: Ref)
    requires root !in x && Children(p) == (None, None)
    ensures Decref(Heap(x + map[root := Obj(1, p)], next), Some(root)) == Ok(Heap(x, next))
  {
    var h := Heap(x + map[root := Obj(1, p)], next);
    RemoveParent(x, map[], map[], root, Obj(1, p));
    assert (map[] + map[])[root := Obj(1, p)] == map[root := Obj(1, p)];
    assert (x + map[]) + map[] == x;
    DecrefLastStep(h, root, p, Heap(x, next), Heap(x, next), Heap(x, next));
  }

  /** Two trees laid out one after the other from start, with their parent at be, above the objects x. */
  lemma Layout(x: map<Ref, Obj>, a: map<Ref, Obj>, ae: Ref, b: map<Ref, Obj>, be: Ref, start: Ref)
    requires start <= ae <= be
    requires forall k :: k in a ==> start <= k < ae
    requires forall k :: k in b ==> ae <= k < be
    requires Outside(x, start, be + 1)
    ensures Outside(x + b, start, ae) && Outside(x, ae, be)
    ensures Disjoint(x, a) && Disjoint(x, b) && Disjoint(a, b)
    ensures be !in x && be !in a && be !in b
  {
  }

  /**
    Releasing the root of a freshly built tree frees exactly the tree, whatever
    other objects x the heap holds.
  */
  lemma {:induction false} ReleaseValue(v: Value, start: Ref, x: map<Ref, Obj>, next: Ref)
    requires Storable(v)
    requires Outside(x, start, StoreValue(v, start).end)
    ensures Decref(Heap(x + StoreValue(v, start).objects, next), Some(StoreValue(v, start).root)) == Ok(Heap(x, next))
    decreases Size(v), 1
  {
    var t := StoreValue(v, start);
    match v
    case Int(n) => ReleaseLeaf(x, start, IntObj(n), next);
    case Atom(s) => ReleaseLeaf(x, start, TextObj(TAtom, Some(s)), next);
    case Identifier(s) => ReleaseLeaf(x, start, TextObj(TIdentifier, Some(s)), next);
    case Builtin(fn, e) => ReleaseLeaf(x, start, BuiltinObj(Some(fn), e), next);
    case List(c) => ReleaseCell(c, start, x, next);
    case FuncCall(None, args) =>
      var at := StoreCell(args, start);
      assert t == Join(map[], at.objects, at.end, CallObj(None, Some(at.root)));
      Layout(x, map[], start, at.objects, at.end, start);
      ReleaseCell(args, start, x, next);
      assert (x + at.objects) + map[] == x + at.objects;
      ReleaseParent(x, map[], at.objects, at.end, CallObj(None, Some(at.root)), next);
    case FuncCall(Some(f), args) =>
      var ft := StoreValue(f, start);
      var at := StoreCell(args, ft.end);
      assert t == Join(ft.objects, at.objects, at.end, CallObj(Some(ft.root), Some(at.root)));
      Layout(x, ft.objects, ft.end, at.objects, at.end, start);
      ReleaseValue(f, start, x + at.objects, next);
      ReleaseCell(args, ft.end, x, next);
      ReleaseParent(x, ft.objects, at.objects, at.end, CallObj(Some(ft.root), Some(at.root)), next);
  }

  lemma {:induction false} ReleaseCell(c: Cell, start: Ref, x: map<Ref, Obj>, next: Ref)
    requires StorableCells(c)
    requires Outside(x, start, StoreCell(c, start).end)
    ensures Decref(Heap(x + StoreCell(c, start).objects, next), Some(StoreCell(c, start).root)) == Ok(Heap(x, next))
    decreases CellSize(c), 0
  {
    var t := StoreCell(c, start);
    match c
    case Empty(None) => ReleaseLeaf(x, start, ListObj(None, None), next);
    case Empty(Some(n)) =>
      var nt := StoreCell(n, start);
      assert t == Join(map[], nt.objects, nt.end, ListObj(None, Some(nt.root)));
      Layout(x, map[], start, nt.objects, nt.end, start);
      ReleaseCell(n, start, x, next);
      assert (x + nt.objects) + map[] == x + nt.objects;
      ReleaseParent(x, map[], nt.objects, nt.end, ListObj(None, Some(nt.root)), next);
    case Cons(e, rest) =>
      var et := StoreValue(e, start);
      var rt := StoreCell(rest, et.end);
      assert t == Join(et.objects, rt.objects, rt.end, ListObj(Some(et.root), Some(rt.root)));
      Layout(x, et.objects, et.end, rt.objects, rt.end, start);
      ReleaseValue(e, start, x + rt.objects, next);
      ReleaseCell(rest, et.end, x, next);
      ReleaseParent(x, et.objects, rt.objects, rt.end, ListObj(Some(et.root), Some(rt.root)), next);
  }

  /**
    A value stored and then released leaves the live objects as they were:
    the objects a value is built from are freed exactly when the last
    reference to its root goes.
  */
  lemma StoreRelease(h: Heap, v: Value)
    requires Valid(h) && Storable(v)
    ensures var (h', root) := Store(h, v);
      Decref(h', Some(root)) == Ok(Heap(h.objects, h'.next))
  {
    var t := StoreValue(v, h.next);
    ReleaseValue(v, h.next, h.objects, t.end);
  }

  /**
    The value an object denotes, read back from the heap. Children are
    followed only to lower addresses, as every object is built after the
    objects it points to; a pointer that breaks this, a dangling pointer,
    or a shape the value model cannot hold (a list cell with a value and no
    successor, a call without an argument list, a text object without text)
    is an error.
  */
  function LoadValue(m: map<Ref, Obj>, r: Ref): (res: Result<Value, Fault>)
    ensures r !in m ==> res == Err(Dangling)
    ensures res.Ok? ==> r in m && TypeOf(res.value) == TagOf(m[r].payload)
    ensures res.Ok? && m[r].payload.IntObj? ==> res.value == Int(m[r].payload.n)
    ensures res.Ok? && m[r].payload.TextObj? ==> res.value.Atom? || res.value.Identifier?
    decreases r, 1
  {
    if r !in m then Err(Dangling)
    else
      match m[r].payload
      case IntObj(n) => Ok(Int(n))
      case TextObj(t, text) =>
        if text.None? then Err(NullValue)
        else if t == TAtom then Ok(Atom(text.value))
        else if t == TIdentifier then Ok(Identifier(text.value))
        else Err(NullValue)
      case BuiltinObj(fn, e) => if fn.None? then Err(NullValue) else Ok(Builtin(fn.value, e))
      case ListObj(_, _) =>
        var c :- LoadCell(m, r);
        Ok(List(c))
      case CallObj(f, a) =>
        if a.None? || a.value >= r || (f.Some? && f.value >= r) then Err(Dangling)
        else
          var args :- LoadCell(m, a.value);
          if f.None? then Ok(FuncCall(None, args))
          else
            var callee :- LoadValue(m, f.value);
            Ok(FuncCall(Some(callee), args))
  }

  function LoadCell(m: map<Ref, Obj>, r: Ref): (res: Result<Cell, Fault>)
    ensures res.Ok? ==> r in m && m[r].payload.ListObj?
    ensures res.Ok? ==> (res.value.Cons? <==> m[r].payload.value.Some?)
    ensures res.Ok? && res.value.Empty? ==> (res.value.next.Some? <==> m[r].payload.next.Some?)
    decreases r, 0
  {
    if r !in m || !m[r].payload.ListObj? then Err(Dangling)
    else
      match m[r].payload
      case ListObj(None, None) => Ok(Empty(None))
      case ListObj(None, Some(n)) =>
        if n >= r then Err(Dangling)
        else
          var next :- LoadCell(m, n);
          Ok(Empty(Some(next)))
      case ListObj(Some(v), None) => Err(NullValue)
      case ListObj(Some(v), Some(n)) =>
        if v >= r || n >= r then Err(Dangling)
        else
          var head :- LoadValue(m, v);
          var tail :- LoadCell(m, n);
          Ok(Cons(head, tail))
  }

  /** The objects of a parent over two disjoint trees, regrouped around either tree. */
  lemma Regroup(x: map<Ref, Obj>, a: map<Ref, Obj>, b: map<Ref, Obj>, root: Ref, o: Obj)
    requires Disjoint(x, a) && Disjoint(x, b) && Disjoint(a, b)
    requires root !in x && root !in a && root !in b
    ensures x + (a + b)[root := o] == (x + b)[root := o] + a
    ensures x + (a + b)[root := o] == (x + a)[root := o] + b
  {
    var l := x + (a + b)[root := o];
    var r1 := (x + b)[root := o] + a;
    var r2 := (x + a)[root := o] + b;
    assert l.Keys == r1.Keys == r2.Keys;
    forall k | k in l ensures l[k] == r1[k] == r2[k] {
    }
  }

  /** Two trees laid out one after the other from start, with their parent o at be, above the objects x. */
  lemma LayoutParent(x: map<Ref, Obj>, a: map<Ref, Obj>, ae: Ref, b: map<Ref, Obj>, be: Ref, start: Ref, o: Obj)
    requires start <= ae <= be
    requires forall k :: k in a ==> start <= k < ae
    requires forall k :: k in b ==> ae <= k < be
    requires Outside(x, start, be + 1)
    ensures Outside((x + b)[be := o], start, ae) && Outside((x + a)[be := o], ae, be)
    ensures x + (a + b)[be := o] == (x + b)[be := o] + a
    ensures x + (a + b)[be := o] == (x + a)[be := o] + b
  {
    Layout(x, a, ae, b, be, start);
    Regroup(x, a, b, be, o);
  }

  /** One reading step at a call object. */
  lemma LoadCall(m: map<Ref, Obj>, r: Ref, f: Option<Ref>, a: Ref, callee: Option<Value>, args: Cell)
    requires r in m && m[r].payload == CallObj(f, Some(a)) && a < r
    requires f.Some? <==> callee.Some?
    requires f.Some? ==> f.value < r && LoadValue(m, f.value) == Ok(callee.value)
    requires LoadCell(m, a) == Ok(args)
    ensures LoadValue(m, r) == Ok(FuncCall(callee, args))
  {
  }

  /** One reading step at a list cell object. */
  lemma LoadList(m: map<Ref, Obj>, r: Ref, v: Option<Ref>, n: Ref, head: Option<Value>, tail: Cell)
    requires r in m && m[r].payload == ListObj(v, Some(n)) && n < r
    requires v.Some? <==> head.Some?
    requires v.Some? ==> v.value < r && LoadValue(m, v.value) == Ok(head.value)
    requires LoadCell(m, n) == Ok(tail)
    ensures LoadCell(m, r) == Ok(if v.Some? then Cons(head.value, tail) else Empty(Some(tail)))
  {
  }

  /**
    A freshly built tree reads back as the value it was built from, whatever
    other objects x the heap holds.
  */
  lemma {:induction false} LoadStoredValue(v: Value, start: Ref, x: map<Ref, Obj>)
    requires Storable(v)
    requires Outside(x, start, StoreValue(v, start).end)
    ensures LoadValue(x + StoreValue(v, start).objects, StoreValue(v, start).root) == Ok(v)
    decreases Size(v), 2
  {
    var t := StoreValue(v, start);
    match v
    case Int(_) =>
    case Atom(_) =>
    case Identifier(_) =>
    case Builtin(_, _) =>
    case List(c) => LoadStoredCell(c, start, x);
    case FuncCall(f, args) => LoadStoredCall(f, args, start, x);
  }

  lemma {:induction false} LoadStoredCall(f: Option<Value>, args: Cell, start: Ref, x: map<Ref, Obj>)
    requires Storable(FuncCall(f, args))
    requires Outside(x, start, StoreValue(FuncCall(f, args), start).end)
    ensures LoadValue(x + StoreValue(FuncCall(f, args), start).objects, StoreValue(FuncCall(f, args), start).root)
            == Ok(FuncCall(f, args))
    decreases Size(FuncCall(f, args)), 1
  {
    if f.None? {
      LoadStoredBareCall(args, start, x);
    } else {
      LoadStoredFullCall(f.value, args, start, x);
    }
  }

  lemma {:induction false} LoadStoredBareCall(args: Cell, start: Ref, x: map<Ref, Obj>)
    requires StorableCells(args)
    requires Outside(x, start, StoreValue(FuncCall(None, args), start).end)
    ensures LoadValue(x + StoreValue(FuncCall(None, args), start).objects, StoreValue(FuncCall(None, args), start).root)
            == Ok(FuncCall(None, args))
    decreases Size(FuncCall(None, args)), 0
  {
    var t := StoreValue(FuncCall(None, args), start);
    var at := StoreCell(args, start);
    var o := Obj(1, CallObj(None, Some(at.root)));
    assert t == Join(map[], at.objects, at.end, o.payload);
    LayoutParent(x, map[], start, at.objects, at.end, start, o);
    assert (x + map[])[at.end := o] == x[at.end := o];
    LoadStoredCell(args, start, x[at.end := o]);
    LoadCall(x + t.objects, t.root, None, at.root, None, args);
  }

  lemma {:induction false} LoadStoredFullCall(f: Value, args: Cell, start: Ref, x: map<Ref, Obj>)
    requires Storable(f) && StorableCells(args)
    requires Outside(x, start, StoreValue(FuncCall(Some(f), args), start).end)
    ensures LoadValue(x + StoreValue(FuncCall(Some(f), args), start).objects, StoreValue(FuncCall(Some(f), args), start).root)
            == Ok(FuncCall(Some(f), args))
    decreases Size(FuncCall(Some(f), args)), 0
  {
    var t := StoreValue(FuncCall(Some(f), args), start);
    var ft := StoreValue(f, start);
    var at := StoreCell(args, ft.end);
    var o := Obj(1, CallObj(Some(ft.root), Some(at.root)));
    assert t == Join(ft.objects, at.objects, at.end, o.payload);
    LayoutParent(x, ft.objects, ft.end, at.objects, at.end, start, o);
    LoadStoredValue(f, start, (x + at.objects)[at.end := o]);
    LoadStoredCell(args, ft.end, (x + ft.objects)[at.end := o]);
    LoadCall(x + t.objects, t.root, Some(ft.root), at.root, Some(f), args);
  }

  lemma {:induction false} LoadStoredCell(c: Cell, start: Ref, x: map<Ref, Obj>)
    requires StorableCells(c)
    requires Outside(x, start, StoreCell(c, start).end)
    ensures LoadCell(x + StoreCell(c, start).objects, StoreCell(c, start).root) == Ok(c)
    decreases CellSize(c), 1
  {
    match c
    case Empty(None) =>
    case Empty(Some(n)) => LoadStoredLink(n, start, x);
    case Cons(e, rest) => LoadStoredCons(e, rest, start, x);
  }

  lemma {:induction false} LoadStoredLink(n: Cell, start: Ref, x: map<Ref, Obj>)
    requires StorableCells(n)
    requires Outside(x, start, StoreCell(Empty(Some(n)), start).end)
    ensures LoadCell(x + StoreCell(Empty(Some(n)), start).objects, StoreCell(Empty(Some(n)), start).root)
            == Ok(Empty(Some(n)))
    decreases CellSize(Empty(Some(n))), 0
  {
    var t := StoreCell(Empty(Some(n)), start);
    var nt := StoreCell(n, start);
    var o := Obj(1, ListObj(None, Some(nt.root)));
    assert t == Join(map[], nt.objects, nt.end, o.payload);
    LayoutParent(x, map[], start, nt.objects, nt.end, start, o);
    assert (x + map[])[nt.end := o] == x[nt.end := o];
    LoadStoredCell(n, start, x[nt.end := o]);
    LoadList(x + t.objects, t.root, None, nt.root, None, n);
  }

  lemma {:induction false} LoadStoredCons(e: Value, rest: Cell, start: Ref, x: map<Ref, Obj>)
    requires Storable(e) && StorableCells(rest)
    requires Outside(x, start, StoreCell(Cons(e, rest), start).end)
    ensures LoadCell(x + StoreCell(Cons(e, rest), start).objects, StoreCell(Cons(e, rest), start).root)
            == Ok(Cons(e, rest))
    decreases CellSize(Cons(e, rest)), 0
  {
    var t := StoreCell(Cons(e, rest), start);
    var et := StoreValue(e, start);
    var rt := StoreCell(rest, et.end);
    var o := Obj(1, ListObj(Some(et.root), Some(rt.root)));
    assert t == Join(et.objects, rt.objects, rt.end, o.payload);
    LayoutParent(x, et.objects, et.end, rt.objects, rt.end, start, o);
    LoadStoredValue(e, start, (x + rt.objects)[rt.end := o]);
    LoadStoredCell(rest, et.end, (x + et.objects)[rt.end := o]);
    LoadList(x + t.objects, t.root, Some(et.root), rt.root, Some(e), rest);
  }

  /** A value stored in the heap reads back as itself: the object layout represents the value faithfully. */
  lemma LoadStore(h: Heap, v: Value)
    requires Valid(h) && Storable(v)
    ensures LoadValue(Store(h, v).0.objects, Store(h, v).1) == Ok(v)
  {
    LoadStoredValue(v, h.next, h.objects);
  }

  /**
    lisp_scope_delete: every value of the table is decref'd, in the table's
    iteration order (given here as the sequence of its values).
  */
  function ScopeDelete(h: Heap, values: seq<Ref>): (res: Result<Heap, Fault>)
    ensures res.Ok? ==> res.value.next == h.next
    ensures res.Ok? ==> res.value.objects.Keys <= h.objects.Keys
    ensures res.Ok? ==> forall k :: k in res.value.objects ==> res.value.objects[k].payload == h.objects[k].payload
    decreases |values|
  {
    if |values| == 0 then Ok(h)
    else
      var h1 :- Decref(h, Some(values[0]));
      ScopeDelete(h1, values[1..])
  }

  /** Deleting a scope lowers counts as each of its decrefs does. */
  lemma {:induction false} ScopeDeleteLowers(h: Heap, values: seq<Ref>)
    ensures ScopeDelete(h, values).Ok? ==> CountsLowered(h, ScopeDelete(h, values).value)
    decreases |values|
  {
    if |values| > 0 {
      DecrefLowers(h, Some(values[0]));
      if Decref(h, Some(values[0])).Ok? {
        ScopeDeleteLowers(Decref(h, Some(values[0])).value, values[1..]);
      }
    }
  }

  /**
    Deleting a scope whose values are distinct and each referenced from
    somewhere else as well frees nothing and lowers each value's count by one.
  */
  lemma {:induction false} ScopeDeleteShared(h: Heap, values: seq<Ref>)
    requires forall i, j :: 0 <= i < j < |values| ==> values[i] != values[j]
    requires forall i :: 0 <= i < |values| ==> values[i] in h.objects && h.objects[values[i]].refcount >= 2
    ensures ScopeDelete(h, values).Ok?
    ensures var h' := ScopeDelete(h, values).value;
      h'.objects.Keys == h.objects.Keys &&
      (forall k :: k in h.objects && k !in values ==> h'.objects[k] == h.objects[k]) &&
      (forall k :: k in values ==> h'.objects[k].refcount == h.objects[k].refcount - 1)
    decreases |values|
  {
    if |values| > 0 {
      DecrefShared(h, values[0]);
      var h1 := Decref(h, Some(values[0])).value;
      var rest := values[1..];
      forall i | 0 <= i < |rest|
        ensures rest[i] in h1.objects && h1.objects[rest[i]].refcount >= 2
      {
        assert rest[i] == values[i + 1] != values[0];
      }
      ScopeDeleteShared(h1, rest);
      assert forall k :: k in values ==> k == values[0] || k in rest;
      assert values[0] !in rest;
    }
  }
}
