/**
 * The parsed JSON documents the scripts pass around (`json.loads` results),
 * with the Python semantics the scripts rely on: truthiness, `isinstance(x,
 * (int, float))` (which accepts booleans), `dict.get`, the nested-key walk
 * `_get`, and the "first alias that is a list / is truthy" lookups.
 */
module JsonValues {
  import opened Wrappers

  /**
   * A Python float: a finite value, an infinity (`neg` for minus infinity),
   * or NaN. The sign of zero and rounding are not modelled.
   */
  datatype Float = Fin(v: real) | Inf(neg: bool) | NaN

  /** Float order: minus infinity, the finite values, plus infinity; every comparison that involves NaN is false. */
  predicate Lt(a: Float, b: Float) {
    && !a.NaN? && !b.NaN?
    && if a.Fin? && b.Fin? then a.v < b.v
       else (a == Inf(true) && b != Inf(true)) || (b == Inf(false) && a != Inf(false))
  }
  predicate Le(a: Float, b: Float) { Lt(a, b) || (!a.NaN? && a == b) }
  predicate Gt(a: Float, b: Float) { Lt(b, a) }
  predicate Ge(a: Float, b: Float) { Le(b, a) }

  /** `a - b`: NaN in, NaN out, and infinity minus the same infinity is NaN. */
  function Sub(a: Float, b: Float): Float {
    if a.NaN? || b.NaN? then NaN
    else if a.Fin? && b.Fin? then Fin(a.v - b.v)
    else if a.Inf? && b.Inf? then (if a.neg == b.neg then NaN else a)
    else if a.Inf? then a
    else Inf(!b.neg)
  }

  /** `a * k` for a constant `k`: an infinity times 0 is NaN, and a negative `k` flips its sign. */
  function Mul(a: Float, k: real): Float {
    match a
    case Fin(x) => Fin(x * k)
    case NaN => NaN
    case Inf(n) => if k == 0.0 then NaN else Inf(if k > 0.0 then n else !n)
  }

  /** `a / b`; Python raises ZeroDivisionError on a zero divisor, and callers guard against it. */
  function Div(a: Float, b: Float): Float
    requires b != Fin(0.0)
  {
    if a.NaN? || b.NaN? || (a.Inf? && b.Inf?) then NaN
    else if a.Fin? && b.Fin? then Fin(a.v / b.v)
    else if b.Inf? then Fin(0.0)
    else Inf(if b.v > 0.0 then a.neg else !a.neg)
  }

  /**
   * `(a - b) / b`, the relative distance every script computes against a
   * moving average: finite exactly when both operands are, NaN exactly when
   * either is NaN or the average is infinite.
   */
  function RelDist(a: Float, b: Float): (r: Float)
    requires b != Fin(0.0)
    ensures r.Fin? <==> a.Fin? && b.Fin?
    ensures r.Fin? ==> r.v * b.v == a.v - b.v
    ensures r.NaN? <==> a.NaN? || b.NaN? || b.Inf?
    ensures r.Inf? ==> a.Inf? && b.Fin? && (r.neg <==> (a.neg <==> b.v > 0.0))
  {
    Div(Sub(a, b), b)
  }

  datatype Json =
    | JNull
    | JBool(b: bool)
    | JNum(x: Float)
    | JStr(s: string)
    | JArr(items: seq<Json>)
    | JObj(fields: map<string, Json>)

  /** Python truthiness. NaN and the infinities are truthy; 0, "", [], {} and None are not. */
  predicate Truthy(j: Json) {
    match j
    case JNull => false
    case JBool(b) => b
    case JNum(x) => x != Fin(0.0)
    case JStr(s) => s != ""
    case JArr(a) => a != []
    case JObj(m) => m != map[]
  }

  /** `x or y`. */
  function Or(x: Json, y: Json): Json {
    if Truthy(x) then x else y
  }

  /**
   * `x or {}` used as a dict: its entries, or None when a later `.get` on it
   * would raise AttributeError.
   */
  function DictOrEmpty(x: Json): (r: Option<map<string, Json>>)
    ensures r.None? <==> Truthy(x) && !x.JObj?
    ensures r.Some? && x.JObj? ==> r.value == x.fields
    ensures r.Some? && !x.JObj? ==> r.value == map[]
  {
    if !Truthy(x) then Some(map[]) else if x.JObj? then Some(x.fields) else None
  }

  /** `isinstance(j, (int, float))`: True and False are ints in Python. */
  predicate IsNumber(j: Json) { j.JNum? || j.JBool? }

  /** The float value of a number; a boolean counts as 1 or 0. */
  function AsFloat(j: Json): Float
    requires IsNumber(j)
  {
    if j.JBool? then Fin(if j.b then 1.0 else 0.0) else j.x
  }

  /** A float stored back into a document. */
  function FromFloat(f: Float): Json { JNum(f) }

  /** `d.get(k)` on a dict: the value, or None when the key is missing. */
  function Field(m: map<string, Json>, k: string): Json {
    if k in m then m[k] else JNull
  }

  /** `x.get(k)` on a value `x` that may not be a dict: AttributeError unless it is one. */
  function GetAttr(x: Json, k: string): Result<Json> {
    if x.JObj? then Ok(Field(x.fields, k)) else Err("AttributeError")
  }

  // ---------------------------------------------------------------------------
  // The nested-key walk `_get(d, *ks, default)`.
  // ---------------------------------------------------------------------------

  /**
   * The value reached by following the keys `ks` from `d`, or None as soon as a
   * step meets something that is not a dict or a dict without the key.
   */
  function Walk(d: Json, ks: seq<string>): Option<Json>
    decreases |ks|
  {
    if ks == [] then Some(d)
    else if d.JObj? && ks[0] in d.fields then Walk(d.fields[ks[0]], ks[1..])
    else None
  }

  /** The functional reading of `_get`: the reached value, else the default. */
  function Lookup(d: Json, ks: seq<string>, default: Json): Json {
    Walk(d, ks).GetOr(default)
  }

  /** `_get`, as written: a cursor reassigned once per key, with an early return. */
  method Get(d: Json, ks: seq<string>, default: Json) returns (r: Json)
    ensures Walk(d, ks).Some? ==> r == Walk(d, ks).value
    ensures Walk(d, ks).None? ==> r == default
  {
    var cur := d;
    var i := 0;
    while i < |ks|
      invariant 0 <= i <= |ks|
      invariant Walk(d, ks) == Walk(cur, ks[i..])
    {
      if !cur.JObj? || ks[i] !in cur.fields {
        return default;
      }
      cur := cur.fields[ks[i]];
      i := i + 1;
    }
    return cur;
  }

  /** Walking `a + b` is walking `a`, then walking `b` from where `a` ended. */
  lemma {:induction false} WalkAppend(d: Json, a: seq<string>, b: seq<string>)
    ensures Walk(d, a + b) == (if Walk(d, a).Some? then Walk(Walk(d, a).value, b) else None)
    decreases |a|
  {
    if a == [] {
      assert a + b == b;
    } else {
      assert (a + b)[0] == a[0];
      assert (a + b)[1..] == a[1..] + b;
      if d.JObj? && a[0] in d.fields {
        WalkAppend(d.fields[a[0]], a[1..], b);
      }
    }
  }

  /**
   * `_get` gives up at the first failing step: once the prefix `ks[..i]` leads to
   * a value that is not a dict holding `ks[i]`, the default is returned whatever
   * the remaining keys are.
   */
  lemma StopsAtFirstFailure(d: Json, ks: seq<string>, i: nat, default: Json)
    requires i < |ks|
    requires Walk(d, ks[..i]).Some?
    requires !(Walk(d, ks[..i]).value.JObj? && ks[i] in Walk(d, ks[..i]).value.fields)
    ensures Lookup(d, ks, default) == default
  {
    assert ks == ks[..i] + ks[i..];
    WalkAppend(d, ks[..i], ks[i..]);
  }

  // ---------------------------------------------------------------------------
  // Alias lookups.
  // ---------------------------------------------------------------------------

  /** `k in m and isinstance(m[k], list)`. */
  predicate ListAt(m: map<string, Json>, k: string) { k in m && m[k].JArr? }

  /** The position in `keys` of the first key whose value in `m` is a list. */
  function FirstListKey(m: map<string, Json>, keys: seq<string>): (r: Option<nat>)
    ensures r.None? <==> forall i :: 0 <= i < |keys| ==> !ListAt(m, keys[i])
    ensures r.Some? ==> r.value < |keys| && ListAt(m, keys[r.value])
    ensures r.Some? ==> forall j :: 0 <= j < r.value ==> !ListAt(m, keys[j])
    decreases |keys|
  {
    if keys == [] then None
    else if ListAt(m, keys[0]) then Some(0)
    else
      var rest := FirstListKey(m, keys[1..]);
      if rest.None? then None else Some(rest.value + 1)
  }

  /** The list stored under the first of `keys` that holds a list, if any. */
  function FirstListUnder(m: map<string, Json>, keys: seq<string>): Option<seq<Json>> {
    var k := FirstListKey(m, keys);
    if k.None? then None else Some(m[keys[k.value]].items)
  }

  /** The position in `keys` of the first key whose value in `m` is truthy. */
  function FirstTruthyKey(m: map<string, Json>, keys: seq<string>): (r: Option<nat>)
    ensures r.None? <==> forall i :: 0 <= i < |keys| ==> !Truthy(Field(m, keys[i]))
    ensures r.Some? ==> r.value < |keys| && Truthy(Field(m, keys[r.value]))
    ensures r.Some? ==> forall j :: 0 <= j < r.value ==> !Truthy(Field(m, keys[j]))
    decreases |keys|
  {
    if keys == [] then None
    else if Truthy(Field(m, keys[0])) then Some(0)
    else
      var rest := FirstTruthyKey(m, keys[1..]);
      if rest.None? then None else Some(rest.value + 1)
  }

  /**
   * `m.get(k1) or m.get(k2) or ... or default`: the first truthy alias, else the
   * default (which is returned even when it is itself falsy).
   */
  function Alias(m: map<string, Json>, keys: seq<string>, default: Json): Json {
    var k := FirstTruthyKey(m, keys);
    if k.None? then default else Field(m, keys[k.value])
  }

  /**
   * Alias robustness: a document that fills one alias and leaves the others out
   * resolves to that alias's value, whichever alias it is.
   */
  lemma AliasSingle(m: map<string, Json>, keys: seq<string>, i: nat, default: Json)
    requires i < |keys|
    requires Truthy(Field(m, keys[i]))
    requires forall j :: 0 <= j < |keys| && j != i ==> keys[j] !in m
    ensures Alias(m, keys, default) == m[keys[i]]
  {
    var k := FirstTruthyKey(m, keys);
    assert k.Some? && k.value == i;
  }
}
