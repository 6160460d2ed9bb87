/**
 * JavaScript values as they cross the bridge. A number is an `Int` (the model does not
 * represent doubles); an object is represented by the text `String(value)` gives for it.
 */
module V8Values {

  datatype JsValue = Str(s: string) | Int(i: int) | Bool(b: bool) | Undefined | Object(text: string)

  /** `GetStringValue()`: the string of a string value, and the empty string for any other value. */
  function StringValue(v: JsValue): (r: string)
    ensures v.Str? ==> r == v.s
    ensures !v.Str? ==> r == ""
  {
    if v.Str? then v.s else ""
  }
}
