/** The JavaScript values the plugin reads and builds: Mongoose documents,
    search hits, option objects and the documents handed to Elasticsearch. */
module JsValue {

  datatype Option<+T> = None | Some(value: T)

  newtype byte = x: int | 0 <= x < 256

  /** The internal time value of a Date object: milliseconds since the epoch,
      or NaN for an invalid date. */
  datatype TimeValue = Time(ms: int) | NaN

  /** A JavaScript value. `Obj` is any object other than an array, an ObjectID
      or a Date (plain objects, sub-documents, buffers, ...), given by its own
      enumerable fields; a field that is absent reads as `Undefined`. */
  datatype Value =
    | Undefined
    | Null
    | Bool(b: bool)
    | Num(n: real)
    | Str(s: string)
    | ObjectId(bytes: seq<byte>)
    | Date(time: TimeValue)
    | Arr(elems: seq<Value>)
    | Obj(fields: map<string, Value>)

  /** Values for which `typeof v !== 'object' || v === null`. */
  predicate IsPrimitive(v: Value) {
    v.Undefined? || v.Null? || v.Bool? || v.Num? || v.Str?
  }

  /** The property read `v[key]` on a record. */
  function Get(v: Value, key: string): Value {
    if v.Obj? && key in v.fields then v.fields[key] else Undefined
  }

  /** Reading a property of `v` (`v.key`) does not throw: it throws a
      TypeError exactly on `undefined` and `null`. */
  predicate PropertyReadable(v: Value) {
    !v.Undefined? && !v.Null?
  }

  /** JavaScript truthiness (`if (v)`, `v || w`); NaN is not modelled. */
  predicate Truthy(v: Value) {
    match v
    case Undefined => false
    case Null => false
    case Bool(b) => b
    case Num(n) => n != 0.0
    case Str(s) => s != ""
    case _ => true
  }
}
