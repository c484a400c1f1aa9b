/**
 * The JavaScript values that frontmatter objects and feed items hold, the
 * truthiness and nullishness tests the code applies to them, and objects as
 * maps from property names to values (object spread is map union: the later
 * object wins on a shared key).
 */
module JsValues {

  /** Numbers are integers here; a Date carries its time value in milliseconds. */
  datatype JsValue =
    | Undefined
    | Null
    | Bool(b: bool)
    | Num(n: int)
    | Str(s: string)
    | Date(time: int)
    | Array(elements: seq<JsValue>)
    | Object   // any other object; always truthy

  type JsObject = map<string, JsValue>

  /** What `if (v)`, `v || d` and `.filter(v => v)` test. */
  predicate Truthy(v: JsValue) {
    match v
    case Undefined => false
    case Null => false
    case Bool(b) => b
    case Num(n) => n != 0
    case Str(s) => s != ""
    case Date(_) => true
    case Array(_) => true
    case Object => true
  }

  /** What `v ?? d` tests. */
  predicate Nullish(v: JsValue) {
    v.Undefined? || v.Null?
  }

  /** Reading property `k`; an absent property reads as `undefined`. */
  function Get(o: JsObject, k: string): JsValue {
    if k in o then o[k] else Undefined
  }

  /** `String(v)` and `${v}`: a string is itself; how another value renders is given as `otherText`. */
  function ToText(v: JsValue, otherText: JsValue -> string): string {
    if v.Str? then v.s else otherText(v)
  }
}
