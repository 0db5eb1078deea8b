/**
 * JavaScript values as the routes see them: request-body fields, the
 * results of JSON.parse, the elements of arrays.  Only the operations the
 * routes apply to them are modelled: `String(x)`, truthiness, `x ?? y`,
 * `x || y` and reading a property.
 */
module Js {

  datatype Option<T> = None | Some(value: T)

  /** A JavaScript value.  Numbers and booleans are not interpreted: `Other`
      carries the text `String(x)` gives for them and whether they are truthy. */
  datatype JsValue =
    | Undefined
    | Null
    | Str(s: string)
    | Arr(items: seq<JsValue>)
    | Obj(fields: map<string, JsValue>)
    | Other(text: string, truthy: bool)

  /** `JSON.parse`, kept abstract: `None` where it throws a SyntaxError. */
  type Parser = string -> Option<JsValue>

  /** `v == null`: true of both null and undefined. */
  predicate IsNullish(v: JsValue) {
    v.Undefined? || v.Null?
  }

  /** `Boolean(v)`. */
  predicate Truthy(v: JsValue) {
    match v
    case Undefined => false
    case Null => false
    case Str(s) => s != ""
    case Arr(_) => true
    case Obj(_) => true
    case Other(_, t) => t
  }

  /** `a || b`: the first operand when it is truthy, else the second. */
  function Or(a: JsValue, b: JsValue): (r: JsValue)
    ensures r == a || r == b
    ensures Truthy(r) <==> Truthy(a) || Truthy(b)
    ensures Truthy(a) ==> r == a
    ensures !Truthy(a) ==> r == b
  {
    if Truthy(a) then a else b
  }

  /** `a ?? b`: the first operand unless it is null or undefined. */
  function Coalesce(a: JsValue, b: JsValue): (r: JsValue)
    ensures IsNullish(a) ==> r == b
    ensures !IsNullish(a) ==> r == a
  {
    if IsNullish(a) then b else a
  }

  /** `String(v)`.  An array is its elements' texts joined by commas, null and
      undefined elements giving the empty text; a plain object gives
      "[object Object]". */
  function ToString(v: JsValue): (r: string)
    ensures v.Str? ==> r == v.s
    decreases v, 1
  {
    match v
    case Undefined => "undefined"
    case Null => "null"
    case Str(s) => s
    case Arr(_) => ElementsText(v, 0)
    case Obj(_) => "[object Object]"
    case Other(text, _) => text
  }

  /** The comma-joined texts of `v.items[k..]`, as `Array.prototype.join` builds them. */
  function ElementsText(v: JsValue, k: nat): (r: string)
    requires v.Arr? && k <= |v.items|
    decreases v, 0, |v.items| - k
  {
    if k == |v.items| then ""
    else
      (if k > 0 then "," else "")
      + (if IsNullish(v.items[k]) then "" else ToString(v.items[k]))
      + ElementsText(v, k + 1)
  }

  /** Reading property `key` of `v`: a TypeError (`None`) on null and
      undefined, the field or undefined on a plain object, undefined on every
      other value (none of the keys the routes read is a property of strings,
      arrays, numbers or booleans). */
  function Get(v: JsValue, key: string): (r: Option<JsValue>)
    ensures r.None? <==> IsNullish(v)
    ensures v.Obj? && key in v.fields ==> r == Some(v.fields[key])
    ensures v.Obj? && key !in v.fields ==> r == Some(Undefined)
  {
    match v
    case Undefined => None
    case Null => None
    case Obj(fields) => Some(if key in fields then fields[key] else Undefined)
    case _ => Some(Undefined)
  }

  /** Reading a property of a value already known not to be null or undefined. */
  function Field(v: JsValue, key: string): (r: JsValue)
    requires !IsNullish(v)
    ensures Get(v, key) == Some(r)
  {
    Get(v, key).value
  }
}
