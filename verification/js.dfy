/** The JavaScript values the renderers and the bootstrap script inspect:
    just enough of the language's value universe to state `typeof` tests,
    truthiness and what a `throw` can carry. */
module Js {

  import opened Wrappers

  /** The identity of a function object; what calling it does is supplied
      separately, as a parameter of the operation that calls it. */
  datatype FunctionRef = FunctionRef(id: nat)

  /** A JavaScript value. Objects and functions carry their own enumerable
      properties; numbers are modelled by an integer or `NaN`. */
  datatype JsValue =
    | Undefined
    | Null
    | Boolean(b: bool)
    | Number(n: int)
    | NaN
    | Str(s: string)
    | Object(props: map<string, JsValue>)
    | Function(ref: FunctionRef, fnProps: map<string, JsValue>)

  /** `typeof v === "function"` */
  predicate IsFunction(v: JsValue) {
    v.Function?
  }

  /** `typeof v === "string"` */
  predicate IsString(v: JsValue) {
    v.Str?
  }

  /** `!!v`: `undefined`, `null`, `false`, `0`, `NaN` and `""` are falsy. */
  predicate Truthy(v: JsValue) {
    match v
    case Undefined => false
    case Null => false
    case Boolean(b) => b
    case Number(n) => n != 0
    case NaN => false
    case Str(s) => s != []
    case Object(_) => true
    case Function(_, _) => true
  }

  /** What a `throw` can carry: an `Error` instance (whose `stack` may be
      `undefined`), any other value that has a string form (represented by
      it), or a value whose conversion to a string itself throws a
      `TypeError`, such as a symbol or an object without a prototype. */
  datatype Thrown =
    | ErrorInstance(message: string, stack: Option<string>)
    | OtherValue(text: string)
    | NoStringForm
}
