/**
 * Values that reach the server as parsed JSON (Python's json module): the sync
 * batch and its entries, and the keyword arguments of a JSON reply.
 */
module Json {

  datatype Value =
    | Null                              // None
    | Bool(b: bool)                     // True / False (a subclass of int in Python)
    | Int(i: int)
    | Float(f: real)
    | Str(s: string)
    | List(items: seq<Value>)
    | Object(fields: map<string, Value>)

  /** Python's bool(v). */
  predicate Truthy(v: Value)
  {
    match v
    case Null => false
    case Bool(b) => b
    case Int(i) => i != 0
    case Float(f) => f != 0.0
    case Str(s) => s != ""
    case List(items) => items != []
    case Object(fields) => fields != map[]
  }

  /** isinstance(v, (str, int, float)); a JSON boolean passes because bool subclasses int. */
  predicate IsScalar(v: Value)
  {
    v.Str? || v.Int? || v.Float? || v.Bool?
  }
}
