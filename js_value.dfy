/** A value that may be missing: JavaScript's `undefined` / `null` on the
    outside of a value, or a thrown exception swallowed into `null`. */
module Optional {
  datatype Option<+T> = None | Some(value: T)
}

/** The JSON values `JSON.parse` produces, and the two JavaScript operations
    the authentication core applies to them: property access and truthiness. */
module JsValue {
  import opened Optional

  /** A parsed JSON value. Numbers are exact reals: the double-precision
      rounding of JavaScript numbers is not modelled. */
  datatype Json =
    | JNull
    | JBool(b: bool)
    | JNumber(n: real)
    | JString(s: string)
    | JArray(items: seq<Json>)
    | JObject(fields: map<string, Json>)

  /** The own member `key` of a value that is not `null` (on `null`
      JavaScript throws a TypeError, which every caller here checks for
      first): only objects have members, so on any other value this is
      `undefined`, written `None`. Properties inherited from a prototype are
      not read here; the one the core can reach, `sub` on a string, is
      modelled where the id claims are read (`Jwt.ReadClaim`). */
  function Get(v: Json, key: string): (r: Option<Json>)
    requires !v.JNull?
    ensures r.Some? <==> v.JObject? && key in v.fields
    ensures r.Some? ==> r.value == v.fields[key]
  {
    if v.JObject? && key in v.fields then Some(v.fields[key]) else None
  }

  /** The left operand of `??` is replaced when it is `null` or `undefined`. */
  predicate Nullish(x: Option<Json>) {
    x.None? || x.value.JNull?
  }

  /** JavaScript's ToBoolean on a JSON value: `null`, `false`, `0` and `""`
      are falsy, every array and object is truthy. */
  function Truthy(v: Json): (b: bool)
    ensures !b <==> v == JNull || v == JBool(false) || v == JNumber(0.0) || v == JString("")
  {
    match v
    case JNull => false
    case JBool(b) => b
    case JNumber(n) => n != 0.0
    case JString(s) => s != ""
    case JArray(_) => true
    case JObject(_) => true
  }

  /** ToBoolean of a possibly `undefined` value. */
  predicate TruthyOpt(x: Option<Json>) {
    x.Some? && Truthy(x.value)
  }
}
