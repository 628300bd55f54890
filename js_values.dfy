/** The JavaScript values the modelled helpers can receive, the `typeof`
    operator on them, default parameters, and thrown errors.
    Numbers are modelled as mathematical integers. */
module JsValues {

  /** A tagged JavaScript value. `JsObject` stands for every value whose
      `typeof` is "object" other than null (plain objects, arrays, ...). */
  datatype JsValue =
    | JsUndefined
    | JsNull
    | JsBoolean(b: bool)
    | JsNumber(n: int)
    | JsString(s: string)
    | JsObject

  /** The result of the `typeof` operator (section 13.5.3 of ECMA-262). */
  function TypeOf(v: JsValue): (t: string)
    ensures t == "number" <==> v.JsNumber?
    ensures t == "string" <==> v.JsString?
    ensures t == "object" <==> (v.JsNull? || v.JsObject?)
  {
    match v
    case JsUndefined => "undefined"
    case JsNull => "object"
    case JsBoolean(_) => "boolean"
    case JsNumber(_) => "number"
    case JsString(_) => "string"
    case JsObject => "object"
  }

  /** A default parameter `p = d`: the default replaces the argument exactly
      when the argument is undefined, which is also what a caller that omits
      the argument passes. */
  function ApplyDefault(arg: JsValue, default: JsValue): JsValue {
    if arg.JsUndefined? then default else arg
  }

  /** An `Error` object thrown with a message. */
  datatype JsError = Error(message: string)

  /** The outcome of a call that either returns a value or throws. */
  datatype Result<T> = Ok(value: T) | Thrown(error: JsError)

  datatype Option<T> = None | Some(value: T)
}
