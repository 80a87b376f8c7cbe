/**
 * The JavaScript values that can arrive as fields of a request body's `data`
 * object, with the two JavaScript operations the controller applies to them:
 * truthiness (`if (x)`) and the default operator `x || y`.
 */
module Js {

  /** A JSON-decoded JavaScript value. Numbers are split by what the
      controller asks of them: an integral value, a non-integral finite value
      (or an infinity), and NaN. */
  datatype Value =
    | Undefined
    | Null
    | Bool(b: bool)
    | Int(n: int)
    | NonInteger
    | NaN
    | Str(s: string)

  /** JavaScript truthiness: `undefined`, `null`, `false`, `0`, `NaN` and the
      empty string are falsy, every other value is truthy. */
  predicate Truthy(v: Value)
    ensures Truthy(v) <==>
      v != Undefined && v != Null && v != Bool(false) && v != Int(0) && v != NaN && v != Str("")
  {
    match v
    case Undefined => false
    case Null => false
    case Bool(b) => b
    case Int(n) => n != 0
    case NonInteger => true
    case NaN => false
    case Str(s) => s != ""
  }

  /** `v || fallback`: the first operand when it is truthy, else the second. */
  function Or(v: Value, fallback: Value): (r: Value)
    ensures Truthy(v) ==> r == v
    ensures !Truthy(v) ==> r == fallback
  {
    if Truthy(v) then v else fallback
  }

  /** `v.length < k` for a value on which a property can be read (not
      `undefined` or `null`). Only strings have a length here; for any other
      value `.length` is `undefined`, and `undefined < k` is false. */
  predicate LengthBelow(v: Value, k: int)
    requires !v.Undefined? && !v.Null?
    ensures LengthBelow(v, k) ==> v.Str?
    ensures v.Str? ==> (LengthBelow(v, k) <==> |v.s| < k)
  {
    v.Str? && |v.s| < k
  }

  /** `Number.isInteger(v)`: true exactly for numbers with an integral value. */
  predicate IsInteger(v: Value)
    ensures IsInteger(v) <==> v.Int?
  {
    v.Int?
  }
}
