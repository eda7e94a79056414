/** JavaScript values as the managers receive them: parsed from a JSON request body
    or from a collection's JSON file, with `undefined` for a property that is absent. */
module Values {

  datatype Value =
    | Undefined
    | Null
    | Bool(b: bool)
    | Num(n: real)
    | NaN
    | Str(s: string)
    | Arr(items: seq<Value>)
    | Obj(entries: map<string, Value>)

  /** A JSON object: property name to value. */
  type Object = map<string, Value>

  /** JavaScript truthiness: `if (v)` takes the branch exactly when `Truthy(v)`.
      Arrays and objects are truthy even when empty. */
  predicate Truthy(v: Value)
  {
    match v
    case Undefined => false
    case Null => false
    case Bool(b) => b
    case Num(n) => n != 0.0
    case NaN => false
    case Str(s) => s != ""
    case Arr(_) => true
    case Obj(_) => true
  }

  /** `a === b`. Primitives compare by value and NaN equals nothing. An array or
      object equals only itself by reference; every one the managers compare
      comes from its own `JSON.parse`, so two of them are never the same reference. */
  predicate StrictEq(a: Value, b: Value)
  {
    match a
    case NaN => false
    case Arr(_) => false
    case Obj(_) => false
    case _ => a == b
  }

  /** `v === v`: every value but NaN, an array or an object. */
  predicate SelfEqual(v: Value)
  {
    !v.NaN? && !v.Arr? && !v.Obj?
  }

  lemma StrictEqSymmetric(a: Value, b: Value)
    ensures StrictEq(a, b) == StrictEq(b, a)
  {
  }

  /** `o[k]`: reading a property that is absent gives `undefined`. */
  function Get(o: Object, k: string): Value
  {
    if k in o then o[k] else Undefined
  }

  /** `{ ...target, ...patch }`: every property of `patch` overrides the one of `target`. */
  function Spread(target: Object, patch: Object): (r: Object)
    ensures r.Keys == target.Keys + patch.Keys
    ensures forall k :: Get(r, k) == if k in patch then patch[k] else Get(target, k)
  {
    target + patch
  }

  /** The value of a string of decimal digits. */
  function DecimalValue(s: string): (n: nat)
    requires forall i :: 0 <= i < |s| ==> '0' <= s[i] <= '9'
  {
    if s == [] then 0
    else DecimalValue(s[..|s| - 1]) * 10 + (s[|s| - 1] as int - '0' as int)
  }

  predicate IsDigits(s: string)
  {
    s != [] && forall i :: 0 <= i < |s| ==> '0' <= s[i] <= '9'
  }

  /** `Number(v)`. Strings are converted when empty or made of decimal digits
      only; every other string gives NaN here, so the last clause, that a
      converted non-empty string is non-negative, is a fact of this
      approximation and not of JavaScript, where `Number("-3")` is -3. README
      lists the string syntaxes this leaves out. */
  function ToNumber(v: Value): (r: Value)
    ensures r.Num? || r.NaN?
    ensures v.Num? ==> r == v
    ensures r.Num? && v.Str? && v.s != "" ==> r.n >= 0.0
  {
    match v
    case Undefined => NaN
    case Null => Num(0.0)
    case Bool(b) => Num(if b then 1.0 else 0.0)
    case Num(_) => v
    case NaN => NaN
    case Str(s) =>
      if s == "" then Num(0.0)
      else if IsDigits(s) then Num(DecimalValue(s) as real)
      else NaN
    case Arr(items) =>
      if items == [] then Num(0.0)
      else if |items| == 1 && items[0].Num? then items[0]
      else NaN
    case Obj(_) => NaN
  }
}
