/** The JavaScript values the core inspects: strings, integral numbers,
    booleans, `null` and `undefined`, with JavaScript's truthiness and its
    string conversion (as used by template literals). */
module JsValues {
  import opened JsStrings

  datatype Value =
    | Str(s: string)
    | Num(n: int)
    | Bool(b: bool)
    | Null
    | Undefined

  /** `!!v`: the empty string, 0, false, null and undefined are falsy. */
  predicate Truthy(v: Value) {
    match v
    case Str(s) => s != []
    case Num(n) => n != 0
    case Bool(b) => b
    case Null => false
    case Undefined => false
  }

  /** `v === null || v === undefined`, the test behind `??`. */
  predicate Nullish(v: Value) {
    v.Null? || v.Undefined?
  }

  /** `a || b` */
  function Or(a: Value, b: Value): (r: Value)
    ensures Truthy(a) ==> r == a
    ensures !Truthy(a) ==> r == b
  {
    if Truthy(a) then a else b
  }

  /** `a ?? b` */
  function Coalesce(a: Value, b: Value): (r: Value)
    ensures !Nullish(a) ==> r == a
    ensures Nullish(a) ==> r == b
  {
    if Nullish(a) then b else a
  }

  /** `String(v)`, the conversion a template literal applies. */
  function ToJsString(v: Value): string {
    match v
    case Str(s) => s
    case Num(n) => IntToDecimal(n)
    case Bool(b) => if b then "true" else "false"
    case Null => "null"
    case Undefined => "undefined"
  }
}
