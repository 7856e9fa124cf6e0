/** The JSON values that request bodies, the pending-change envelope and the columns hold. */
module Json {

  /** A JSON value; `undefined` (an absent key) reads as `Null`. Numbers are integers here. */
  datatype Value = Null | Bool(b: bool) | Num(n: int) | Str(s: string) | Arr(items: seq<Value>)

  /** A JSON object: the request body, the envelope, the record's columns. */
  type Object = map<string, Value>

  /** JavaScript truthiness of a value: `null`, `false`, `0` and `""` are falsy; arrays always truthy. */
  predicate Truthy(v: Value) {
    match v
    case Null => false
    case Bool(b) => b
    case Num(n) => n != 0
    case Str(s) => s != ""
    case Arr(_) => true
  }

  /** `o[k]`, reading an absent key as `Null`. */
  function Get(o: Object, k: string): Value {
    if k in o then o[k] else Null
  }

  /** The string a value holds, or "" for every non-string value (which the form paths never produce). */
  function TextOf(v: Value): string {
    if v.Str? then v.s else ""
  }
}
