/**
 * Parsed JSON documents. Arrays hold records of the element type `E`: the
 * documents handled here are lists of sample records, and the readers never
 * look inside an element.
 */
module Json {

  import opened Wrappers

  datatype Value<E> =
    | Null
    | Bool(b: bool)
    | Number(n: real)
    | Text(s: string)
    | Array(items: seq<E>)
    | Object(fields: map<string, Value<E>>)

  /** JavaScript truthiness of a parsed value (`if (v)`). */
  predicate Truthy<E>(v: Value<E>) {
    match v
    case Null => false
    case Bool(b) => b
    case Number(n) => n != 0.0
    case Text(s) => s != ""
    case Array(_) => true
    case Object(_) => true
  }

  /** The value of the top-level `samples` key of an object document, if any. */
  function SamplesField<E>(v: Value<E>): Option<Value<E>> {
    if v.Object? && "samples" in v.fields then Some(v.fields["samples"]) else None
  }
}
