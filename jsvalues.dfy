/** JavaScript values as the service sees them: fields of a parsed JSON request
    body, cells of an rqlite result row, and the `${value}` text that template
    literals produce from them. */
module JsValues {

  datatype Option<+T> = None | Some(value: T)

  /** A scalar JavaScript value. `Num` carries the text `String(n)` gives for the
      number (so `0` and `-0` are both "0"); parsed JSON never yields NaN. */
  datatype JsValue =
    | Undefined
    | Null
    | Bool(b: bool)
    | Num(text: string)
    | Str(s: string)

  /** The text a template literal `${v}` inserts for `v`. */
  function Render(v: JsValue): string {
    match v
    case Undefined => "undefined"
    case Null => "null"
    case Bool(b) => if b then "true" else "false"
    case Num(t) => t
    case Str(s) => s
  }

  /** A plain JavaScript object with scalar fields: a parsed request body, or
      an event record built from an rqlite row. */
  type JsObject = map<string, JsValue>

  /** `obj[name]`: `undefined` for a field the object does not have. */
  function Field(obj: JsObject, name: string): JsValue {
    if name in obj then obj[name] else Undefined
  }

  /** JavaScript truthiness, used by `!x` and `x || y`. */
  predicate Truthy(v: JsValue) {
    match v
    case Undefined => false
    case Null => false
    case Bool(b) => b
    case Num(t) => t != "0" && t != "NaN"
    case Str(s) => s != ""
  }

  /** Truthiness of a string that may be absent (a query parameter, a header,
      an environment variable). */
  predicate Present(o: Option<string>) {
    o.Some? && o.value != ""
  }

  /** `a || b` on values that are strings or undefined: `a` when it is a
      usable string, otherwise `b`; a usable string exactly when either
      operand is one. */
  function OrElse(a: Option<string>, b: Option<string>): (r: Option<string>)
    ensures Present(a) ==> r == a
    ensures !Present(a) ==> r == b
    ensures Present(r) <==> Present(a) || Present(b)
  {
    if Present(a) then a else b
  }

  /** `v || ''`. */
  function OrEmpty(v: JsValue): (r: JsValue)
    ensures Truthy(r) <==> Truthy(v)
    ensures Truthy(v) ==> r == v
    ensures !Truthy(v) ==> r == Str("")
  {
    if Truthy(v) then v else Str("")
  }
}
