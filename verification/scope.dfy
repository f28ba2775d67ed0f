/**
  Scopes (src/scope.c, src/lisp.h:128-140): a hash table from names to values
  and a link to an enclosing scope. The table is a map; the hash and the key
  comparison it is built with are modelled on their own.
*/
module Scopes {
  import opened Wrappers
  import opened Values

  /** A scope: the table of bindings and the enclosing scope (never followed by the evaluator). */
  datatype Scope = Scope(table: map<string, Value>, up: Option<Scope>)

  /** lisp_scope_create: no parent and an empty table. */
  function Create(): (s: Scope)
    ensures s.up.None? && |s.table| == 0
    ensures forall name :: name !in s.table
  {
    Scope(map[], None)
  }

  /** A lookup in this scope's own table only. */
  function Lookup(s: Scope, name: string): (r: Option<Value>)
    ensures r.Some? <==> name in s.table
    ensures r.Some? ==> r.value == s.table[name]
  {
    if name in s.table then Some(s.table[name]) else None
  }

  /** ht_insert: bind name, replacing an earlier binding of the same name. */
  function Bind(s: Scope, name: string, v: Value): (r: Scope)
    ensures r.up == s.up
    ensures Lookup(r, name) == Some(v)
    ensures forall other :: other != name ==> Lookup(r, other) == Lookup(s, other)
  {
    Scope(s.table[name := v], s.up)
  }

  // ---------------------------------------------------------------------------
  // wchar_hash

  /** 2^32: unsigned int arithmetic wraps modulo this. */
  const Modulus: int := 0x1_0000_0000

  /** The hash as a polynomial in 31 over the characters, without wrap-around. */
  function Poly(s: string): nat {
    if |s| == 0 then 0 else Poly(s[..|s| - 1]) * 31 + s[|s| - 1] as nat
  }

  /** The unsigned wrap-around of (h << 5) - h + c. */
  function HashStep(h: nat, c: char): (r: nat)
    requires h < Modulus
    ensures r < Modulus
  {
    ((h * 32) % Modulus - h + c as int) % Modulus
  }

  /** The folded step agrees with the polynomial modulo 2^32. */
  lemma HashStepPoly(a: nat, c: char)
    ensures HashStep(a % Modulus, c) == (a * 31 + c as nat) % Modulus
  {
    var r := a % Modulus;
    var q := a / Modulus;
    assert a == q * Modulus + r;
    var k := (r * 32) / Modulus;
    assert (r * 32) % Modulus == r * 32 - k * Modulus;
    var x := r * 31 + c as int;
    assert HashStep(r, c) == (x - k * Modulus) % Modulus;
    ModShift(x, -k);
    assert a * 31 + c as nat == x + (31 * q) * Modulus;
    ModShift(x, 31 * q);
  }

  /** Adding a multiple of the modulus does not change the remainder. */
  lemma ModShift(x: int, k: int)
    ensures (x + k * Modulus) % Modulus == x % Modulus
  {
    var y := x + k * Modulus;
    var qx := x / Modulus;
    assert x == qx * Modulus + x % Modulus;
    assert y == (qx + k) * Modulus + x % Modulus;
  }

  /**
    wchar_hash: h := (h << 5) - h + c over the characters, in unsigned int.
    An empty key hashes to 0; the result is the polynomial in 31 modulo 2^32.
  */
  method Hash(key: string) returns (h: nat)
    ensures h < Modulus
    ensures h == Poly(key) % Modulus
    ensures |key| == 0 ==> h == 0
  {
    h := 0;
    var i := 0;
    while i < |key|
      invariant 0 <= i <= |key|
      invariant h == Poly(key[..i]) % Modulus
    {
      HashStepPoly(Poly(key[..i]), key[i]);
      assert key[..i + 1][..i] == key[..i];
      h := HashStep(h, key[i]);
      i := i + 1;
    }
    assert key[..i] == key;
  }

  // ---------------------------------------------------------------------------
  // data_compare_wstring

  /** wcscmp: the sign of the first differing character, or of the length difference. */
  function Compare(a: string, b: string): (r: int)
    ensures -1 <= r <= 1
  {
    if |a| == 0 && |b| == 0 then 0
    else if |a| == 0 then -1
    else if |b| == 0 then 1
    else if a[0] < b[0] then -1
    else if a[0] > b[0] then 1
    else Compare(a[1..], b[1..])
  }

  /** Keys compare equal exactly when they are the same string. */
  lemma {:induction false} CompareZeroIff(a: string, b: string)
    ensures Compare(a, b) == 0 <==> a == b
    decreases |a|
  {
    if |a| > 0 && |b| > 0 && a[0] == b[0] {
      CompareZeroIff(a[1..], b[1..]);
      if a[1..] == b[1..] {
        assert a == [a[0]] + a[1..] && b == [b[0]] + b[1..];
      }
    }
  }

  /** Swapping the keys flips the sign. */
  lemma {:induction false} CompareAntisymmetric(a: string, b: string)
    ensures Compare(a, b) == -Compare(b, a)
    decreases |a|
  {
    if |a| > 0 && |b| > 0 && a[0] == b[0] {
      CompareAntisymmetric(a[1..], b[1..]);
    }
  }

  /** Keys that compare equal hash equally, so the table finds a key under its own hash. */
  lemma EqualKeysHashEqual(a: string, b: string)
    requires Compare(a, b) == 0
    ensures Poly(a) % Modulus == Poly(b) % Modulus
  {
    CompareZeroIff(a, b);
  }
}
