/** The JavaScript values the handlers and the client pass around: what a
    JSON body, a stored Edge Config item or a property read can be, with the
    language's truthiness, its `||`, property access and `String()`.
    Numbers are integers (every number the core produces is one) plus `NaN`. */
module JsValue {
  import opened Text

  datatype JsVal =
    | Undefined
    | Null
    | Bool(b: bool)
    | Num(n: int)
    | NaN
    | Str(s: string)
    | Obj(fields: map<string, JsVal>)

  /** `undefined`, `null`, `false`, `0`, `NaN` and `''` are falsy; everything
      else, every object included, is truthy. */
  predicate Truthy(v: JsVal) {
    match v
    case Undefined => false
    case Null => false
    case Bool(b) => b
    case Num(n) => n != 0
    case NaN => false
    case Str(s) => s != ""
    case Obj(_) => true
  }

  predicate IsNullish(v: JsVal) {
    v.Undefined? || v.Null?
  }

  /** `a || b` */
  function Or(a: JsVal, b: JsVal): JsVal {
    if Truthy(a) then a else b
  }

  /** A fallback that is truthy makes `a || fallback` truthy, and a truthy
      `a` is kept as it is. */
  lemma OrTruthy(a: JsVal, fallback: JsVal)
    requires Truthy(fallback)
    ensures Truthy(Or(a, fallback))
    ensures Truthy(a) ==> Or(a, fallback) == a
  {
  }

  /** `v.key`: `None` is the TypeError thrown on `null` and `undefined`; an
      object gives its field or `undefined`; every other value gives
      `undefined` (no key the core reads is a built-in property). */
  function Member(v: JsVal, key: string): Option<JsVal> {
    match v
    case Undefined => None
    case Null => None
    case Obj(fields) => Some(if key in fields then fields[key] else Undefined)
    case _ => Some(Undefined)
  }

  /** `v?.key` */
  function OptionalMember(v: JsVal, key: string): JsVal {
    match Member(v, key)
    case None => Undefined
    case Some(x) => x
  }

  /** `String(v)` */
  function ToJsString(v: JsVal): string {
    match v
    case Undefined => "undefined"
    case Null => "null"
    case Bool(b) => if b then "true" else "false"
    case Num(n) => IntToString(n)
    case NaN => "NaN"
    case Str(s) => s
    case Obj(_) => "[object Object]"
  }

  /** `parseInt(v, 10)`: the argument is first converted by `String`. */
  function ParseIntValue(v: JsVal): Option<int> {
    ParseInt10(ToJsString(v))
  }

  /** A number or `NaN`, as `parseInt` returns it. */
  function NumberOf(o: Option<int>): JsVal {
    match o
    case None => NaN
    case Some(n) => Num(n)
  }

  /** `parseInt` gives back every integer it is handed, and no value but a
      string or a number can be read as a number. */
  lemma ParseIntValueOfNumber(v: JsVal)
    ensures v.Num? ==> ParseIntValue(v) == Some(v.n)
    ensures !v.Num? && !v.Str? ==> ParseIntValue(v).None?
  {
    match v
    case Num(n) => ParseIntOfIntToString(n);
    case Str(_) =>
    case _ =>
      var s := ToJsString(v);
      assert s[0] !in "+-" && !IsSpace(s[0]) && !IsDigit(s[0]);
      assert DropSpaces(s) == s;
  }
}
