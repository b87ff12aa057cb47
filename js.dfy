/** The slice of JavaScript value semantics that the library's stores and its
    request object rely on: truthiness, string conversion of property keys,
    the order in which `for (k in obj)` visits an object's own keys, and the
    comparisons applied to timestamps. */
module Js {

  datatype Option<T> = None | Some(value: T)

  /** A primitive JavaScript value. Numbers are integers here; fractions,
      NaN and the infinities are not represented (a NaN timestamp is
      `Time.NoTime` below). */
  datatype JsValue = Undefined | Null | Bool(b: bool) | Num(n: int) | Str(s: string)

  /** An argument that a method dereferences: `undefined`, `null` (reading a
      property of it throws a TypeError), or an object, given by the
      properties that the method reads from it. */
  datatype Arg<T> = Missing | NullArg | Object(props: T)

  datatype JsError =
    | TypeError                   // a property read on null
    | ReferenceError(name: string) // a call to an undeclared function
    | ThrownString(text: string)  // `throw 'some text'`

  /** How a call ended: it returned a truthy or a falsy value, or it threw. */
  datatype Completion = Returned(truthy: bool) | Threw(error: JsError)

  /** What `if (v)` accepts. */
  predicate Truthy(v: JsValue) {
    match v
    case Undefined => false
    case Null => false
    case Bool(b) => b
    case Num(n) => n != 0
    case Str(s) => s != ""
  }

  predicate IsDigit(c: char) { '0' <= c <= '9' }

  predicate AllDigits(s: string) { forall i | 0 <= i < |s| :: IsDigit(s[i]) }

  function DigitChar(d: nat): (c: char)
    requires d < 10
    ensures IsDigit(c) && c as int - '0' as int == d
  {
    ('0' as int + d) as char
  }

  /** The decimal spelling of n, as `String(n)` gives it. */
  function NatToString(n: nat): (s: string)
    ensures |s| >= 1 && AllDigits(s)
    decreases n
  {
    if n < 10 then [DigitChar(n)] else NatToString(n / 10) + [DigitChar(n % 10)]
  }

  /** The number a string of decimal digits denotes. */
  function DigitsValue(s: string): nat
    requires AllDigits(s)
    decreases |s|
  {
    if s == [] then 0 else DigitsValue(s[..|s| - 1]) * 10 + (s[|s| - 1] as int - '0' as int)
  }

  /** Reading back the decimal spelling of n gives n. */
  lemma {:induction false} NatToStringRoundTrip(n: nat)
    ensures DigitsValue(NatToString(n)) == n
  {
    if n >= 10 {
      NatToStringRoundTrip(n / 10);
      var s := NatToString(n / 10) + [DigitChar(n % 10)];
      assert s[..|s| - 1] == NatToString(n / 10);
    }
  }

  /** Distinct numbers get distinct decimal spellings, so distinct numeric ids
      are distinct property keys. */
  lemma NatToStringInjective(a: nat, b: nat)
    ensures NatToString(a) == NatToString(b) <==> a == b
  {
    NatToStringRoundTrip(a);
    NatToStringRoundTrip(b);
  }

  function IntToString(n: int): string {
    if n < 0 then "-" + NatToString(-n) else NatToString(n)
  }

  /** `String(v)`: the property key `obj[v]` uses, and what `'x' + v` appends. */
  function ToStr(v: JsValue): string {
    match v
    case Undefined => "undefined"
    case Null => "null"
    case Bool(b) => if b then "true" else "false"
    case Num(n) => IntToString(n)
    case Str(s) => s
  }

  /** `k == v` for a property key k (always a string). A number or boolean v
      is taken to equal only its canonical decimal spelling ("1"/"0" for a
      boolean); see README for the spellings JavaScript also accepts. */
  predicate LooseEqualsKey(k: string, v: JsValue) {
    match v
    case Undefined => false
    case Null => false
    case Bool(b) => k == (if b then "1" else "0")
    case Num(n) => k == IntToString(n)
    case Str(s) => k == s
  }

  /** The ids that pass an `if (id)` guard, told by their property keys: a
      number passes unless its key is "0", a string unless it is empty. */
  lemma TruthyIdKey(v: JsValue)
    ensures v.Num? ==> (Truthy(v) <==> ToStr(v) != "0")
    ensures v.Str? ==> (Truthy(v) <==> ToStr(v) != "")
    ensures v.Undefined? || v.Null? ==> !Truthy(v)
  {
    if v.Num? && v.n >= 0 {
      NatToStringInjective(v.n, 0);
      assert NatToString(0) == "0";
    }
  }

  /** For a number or string id, `k != id` on a property key k is false
      exactly for the id's own key. */
  lemma LooseEqualsOwnKey(k: string, v: JsValue)
    requires v.Num? || v.Str?
    ensures LooseEqualsKey(k, v) <==> k == ToStr(v)
  {
  }

  /** An array index: the canonical decimal spelling of an integer below 2^32 - 1. */
  predicate IsArrayIndex(k: string) {
    && |k| >= 1
    && AllDigits(k)
    && DigitsValue(k) < 0xFFFF_FFFF
    && NatToString(DigitsValue(k)) == k
  }

  /** Keys of a numeric id below 2^32 - 1 are array indexes. */
  lemma NumericKeyIsArrayIndex(n: nat)
    requires n < 0xFFFF_FFFF
    ensures IsArrayIndex(ToStr(Num(n)))
  {
    NatToStringRoundTrip(n);
  }

  predicate NoDuplicates(ks: seq<string>) {
    forall i, j | 0 <= i < j < |ks| :: ks[i] != ks[j]
  }

  /** The order `for (k in obj)` visits a plain object's own keys in: array
      indexes first, in ascending numeric order, then the other keys. */
  predicate ForInOrdered(ks: seq<string>) {
    forall i, j | 0 <= i < j < |ks| && IsArrayIndex(ks[j]) ::
      IsArrayIndex(ks[i]) && DigitsValue(ks[i]) < DigitsValue(ks[j])
  }

  /** r is ks with k inserted at position i. */
  predicate InsertedAt(r: seq<string>, ks: seq<string>, k: string, i: nat) {
    i <= |ks| && r == ks[..i] + [k] + ks[i..]
  }

  /** The key order after `obj[k] = …`: an existing key keeps its place, a
      new array index goes to its numeric place, any other new key goes last. */
  function InsertKey(ks: seq<string>, k: string): (r: seq<string>)
    ensures k in ks ==> r == ks
    ensures k !in ks && !IsArrayIndex(k) ==> r == ks + [k]
    ensures k !in ks && IsArrayIndex(k) ==> exists i: nat :: InsertedAt(r, ks, k, i)
    ensures forall x :: x in r <==> x in ks || x == k
    ensures NoDuplicates(ks) ==> NoDuplicates(r)
    ensures ForInOrdered(ks) ==> ForInOrdered(r)
  {
    if k in ks then ks
    else if IsArrayIndex(k) then InsertIndex(ks, k)
    else ks + [k]
  }

  function InsertIndex(ks: seq<string>, k: string): (r: seq<string>)
    requires IsArrayIndex(k) && k !in ks
    ensures |r| == |ks| + 1
    ensures exists i: nat :: InsertedAt(r, ks, k, i)
    ensures forall x :: x in r <==> x in ks || x == k
    ensures NoDuplicates(ks) ==> NoDuplicates(r)
    ensures ForInOrdered(ks) ==> ForInOrdered(r)
    decreases |ks|
  {
    if ks == [] || !IsArrayIndex(ks[0]) || DigitsValue(k) < DigitsValue(ks[0]) then
      assert InsertedAt([k] + ks, ks, k, 0);
      [k] + ks
    else
      var rest := InsertIndex(ks[1..], k);
      InsertAfterHead(ks, k, rest);
      InsertedAfterHead(ks, k, rest);
      [ks[0]] + rest
  }

  /** Inserting after the head: k's position moves one place on. */
  lemma InsertedAfterHead(ks: seq<string>, k: string, rest: seq<string>)
    requires ks != [] && exists i: nat :: InsertedAt(rest, ks[1..], k, i)
    ensures exists i: nat :: InsertedAt([ks[0]] + rest, ks, k, i)
  {
    var i: nat :| InsertedAt(rest, ks[1..], k, i);
    assert ks[..i + 1] == [ks[0]] + ks[1..][..i] && ks[i + 1..] == ks[1..][i..];
    assert InsertedAt([ks[0]] + rest, ks, k, i + 1);
  }

  /** The step of InsertIndex that keeps the head: k goes after ks[0], which
      is an array index of smaller value. */
  lemma InsertAfterHead(ks: seq<string>, k: string, rest: seq<string>)
    requires IsArrayIndex(k) && k !in ks && ks != [] && IsArrayIndex(ks[0])
    requires DigitsValue(k) >= DigitsValue(ks[0])
    requires forall x :: x in rest <==> x in ks[1..] || x == k
    requires ForInOrdered(ks[1..]) ==> ForInOrdered(rest)
    requires NoDuplicates(ks[1..]) ==> NoDuplicates(rest)
    ensures ForInOrdered(ks) ==> ForInOrdered([ks[0]] + rest)
    ensures NoDuplicates(ks) ==> NoDuplicates([ks[0]] + rest)
  {
    assert DigitsValue(ks[0]) < DigitsValue(k);
    var r := [ks[0]] + rest;
    if NoDuplicates(ks) {
      assert ks[0] !in ks[1..];
      assert NoDuplicates(rest);
      forall i, j | 0 <= i < j < |r| ensures r[i] != r[j] {
        if i > 0 { assert r[i] == rest[i - 1] && r[j] == rest[j - 1]; }
      }
    }
    if ForInOrdered(ks) {
      assert ForInOrdered(ks[1..]);
      forall i, j | 0 <= i < j < |r| && IsArrayIndex(r[j])
        ensures IsArrayIndex(r[i]) && DigitsValue(r[i]) < DigitsValue(r[j])
      {
        if i == 0 {
          if r[j] != k {
            assert r[j] in rest;
            var m :| 0 <= m < |ks[1..]| && ks[1..][m] == r[j];
            assert ks[m + 1] == r[j];
          }
        } else {
          assert r[i] == rest[i - 1] && r[j] == rest[j - 1];
        }
      }
    }
  }

  /** A timestamp as the comparison operators see it: an integer, or a value
      (undefined, NaN) that makes every `<`, `<=`, `>`, `>=` false. */
  datatype Time = NoTime | At(t: int)

  predicate TimeTruthy(x: Time) { x.At? && x.t != 0 }

  predicate TimeLt(a: Time, b: Time) { a.At? && b.At? && a.t < b.t }

  predicate TimeLe(a: Time, b: Time) { a.At? && b.At? && a.t <= b.t }
}
