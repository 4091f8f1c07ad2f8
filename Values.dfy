/** JSON-like values as the site generator receives them from its
    configuration file and from a post's front matter, and a JavaScript
    object whose properties are updated in place. */
module Values {

  /** A value: `null`, a boolean, a number (integers only), a string, an
      array or an object. A missing property is a key absent from the map. */
  datatype Value =
    | VNull
    | VBool(b: bool)
    | VNum(n: int)
    | VStr(s: string)
    | VArr(items: seq<Value>)
    | VObj(props: map<string, Value>)

  /** JavaScript truthiness: `null`, `false`, `0` and `''` are falsy;
      arrays and objects, even empty ones, are truthy. */
  predicate Truthy(v: Value) {
    match v
    case VNull => false
    case VBool(b) => b
    case VNum(n) => n != 0
    case VStr(s) => s != ""
    case VArr(_) => true
    case VObj(_) => true
  }

  /** `obj[key]` in a condition: an absent property is `undefined`, which is falsy. */
  predicate TruthyAt(m: map<string, Value>, key: string) {
    key in m && Truthy(m[key])
  }

  /** A plain object whose properties are assigned in place. */
  class JsObject {
    var props: map<string, Value>

    constructor (props: map<string, Value>)
      ensures this.props == props
    {
      this.props := props;
    }
  }
}
