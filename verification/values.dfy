/**
 * A model of the JavaScript values that flow through block properties.
 * Objects and blocks carry an identity number, so two of them are equal
 * exactly when they are the same one. Arrays carry none: they are their
 * items, and two arrays with the same items are equal, where the source's
 * identity comparison would tell two such arrays apart. Numbers are
 * modelled as reals (NaN and the infinities are not represented).
 */
module Values {

  type BlockId = nat

  datatype Value =
    | Undefined
    | Null
    | Bool(b: bool)
    | Num(n: real)
    | Str(s: string)
    | Arr(items: seq<Value>)
    | BlockRef(block: BlockId)
    | Obj(id: nat)

  /** The loose `v == null` test of the source: true for null and undefined only. */
  predicate IsNullish(v: Value) {
    v.Undefined? || v.Null?
  }

  /** JavaScript truthiness of a value. */
  predicate Truthy(v: Value) {
    match v
    case Undefined => false
    case Null => false
    case Bool(b) => b
    case Num(n) => n != 0.0
    case Str(s) => s != ""
    case _ => true
  }
}
