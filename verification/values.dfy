/**
 * The JavaScript values that flow through the library: state values, route
 * parameters and pipeline records.  Numbers are integral (`NaN` is kept as its
 * own case because `parseInt` produces it); objects are plain records compared
 * by content.
 */
module Values {
  import Numbers

  datatype Value =
    | Undefined
    | Null
    | Bool(b: bool)
    | Num(n: int)
    | NaN
    | Str(s: string)
    | Obj(fields: map<string, Value>)

  /** A plain object used as a record of named values. */
  type Rec = map<string, Value>

  /** `record[key]`: a missing property reads as `undefined`. */
  function Field(r: Rec, key: string): Value {
    if key in r then r[key] else Undefined
  }

  /** `v == null` (loose comparison): `null` or `undefined`. */
  predicate IsNullish(v: Value) {
    v.Undefined? || v.Null?
  }

  /** `!!v` */
  predicate Truthy(v: Value) {
    match v
    case Undefined => false
    case Null => false
    case Bool(b) => b
    case Num(n) => n != 0
    case NaN => false
    case Str(s) => s != ""
    case Obj(_) => true
  }

  /** `l === r`: `NaN` is the one value that is not strictly equal to itself. */
  predicate StrictEquals(l: Value, r: Value) {
    l == r && !l.NaN?
  }

  /**
   * lodash `isEqual`: structural equality, under which `NaN` equals `NaN`.
   * With objects compared by content this is equality of the values.
   */
  predicate DeepEquals(l: Value, r: Value) {
    l == r
  }

  /** `v?.[key]`: `undefined` for a nullish `v` and for a property `v` lacks. */
  function OptionalProp(v: Value, key: string): (r: Value)
    ensures IsNullish(v) ==> r == Undefined
  {
    match v
    case Obj(fields) => Field(fields, key)
    case _ => Undefined
  }

  /** `String(v)` */
  function ToJsString(v: Value): string {
    match v
    case Undefined => "undefined"
    case Null => "null"
    case Bool(b) => if b then "true" else "false"
    case Num(n) => Numbers.IntToDecimal(n)
    case NaN => "NaN"
    case Str(s) => s
    case Obj(_) => "[object Object]"
  }
}
