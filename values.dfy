/** The scalar values that flow through the query pipeline, with JavaScript's coercions. */
module JsValues {
  import opened Wrappers
  import JsStrings
  import Dict

  /** A JavaScript scalar: a string, an (integer) number, or `null`. */
  datatype Value = Str(s: string) | Num(n: int) | Null

  /** The bracketed-filter query and the form state are plain objects of such values. */
  type Query = Dict.Dict<string, Value>
  type State = Dict.Dict<string, Value>

  /** JavaScript truthiness; `None` (`undefined`) is falsy too. */
  predicate Truthy(v: Option<Value>) {
    match v
    case None => false
    case Some(Str(s)) => s != ""
    case Some(Num(n)) => n != 0
    case Some(Null) => false
  }

  /** `String(v)`, the coercion `includes` applies to its argument. */
  function TextOf(v: Value): string {
    match v
    case Str(s) => s
    case Num(n) => JsStrings.IntToString(n)
    case Null => "null"
  }

  /** `Number(v)`; `None` is NaN. `parse` stands for `Number` applied to a string. */
  function NumberOf(v: Option<Value>, parse: string -> Option<int>): Option<int> {
    match v
    case None => None
    case Some(Str(s)) => parse(s)
    case Some(Num(n)) => Some(n)
    case Some(Null) => Some(0)
  }

  /** `Number(v) || d`: the number, or `d` when it is 0 or NaN. */
  function NumberOr(v: Option<Value>, parse: string -> Option<int>, d: int): (r: int)
    ensures NumberOf(v, parse).Some? && NumberOf(v, parse).value != 0 ==> r == NumberOf(v, parse).value
    ensures !(NumberOf(v, parse).Some? && NumberOf(v, parse).value != 0) ==> r == d
  {
    match NumberOf(v, parse)
    case Some(n) => if n != 0 then n else d
    case None => d
  }

  /** A value on which string methods (`trim`, `toLowerCase`, `split`) can be called whenever it
      is truthy: calling them on a truthy number throws a TypeError. */
  predicate TextWhenTruthy(v: Option<Value>) {
    Truthy(v) ==> v.value.Str?
  }
}
