/**
 * The browser-local tier: the sample list kept as JSON text under one
 * `localStorage` key, read back tolerating two shapes and any corruption
 * (src/context/AudioSampleContext.jsx:37-63). `JSON.parse` and
 * `JSON.stringify` are parameters.
 */
module SampleStore {

  import opened Wrappers
  import opened Json
  import opened Samples

  /** `JSON.parse`: the parsed document, or `None` where it throws. */
  type Parser = string -> Option<Value<Sample>>

  /** `JSON.stringify`. */
  type Serializer = Value<Sample> -> string

  /**
   * `readStoredSamples`: `raw` is the stored text (`None` for a missing key).
   * A bare array or an object whose `samples` is an array yields that array;
   * a missing or empty entry, a parse error or any other document yields
   * the empty list. It never fails.
   */
  function ReadStoredSamples(raw: Option<string>, parse: Parser): (r: seq<Sample>)
    ensures raw.None? || raw == Some("") ==> r == []
    ensures raw.Some? && parse(raw.value).None? ==> r == []
    ensures r != [] ==>
      raw.Some? && parse(raw.value).Some? &&
      (parse(raw.value) == Some(Array(r)) || SamplesField(parse(raw.value).value) == Some(Array(r)))
  {
    if raw.None? || raw.value == "" then []
    else match parse(raw.value)
      case None => []
      case Some(doc) =>
        if doc.Array? then doc.items
        else match SamplesField(doc)
          case Some(Array(items)) => items
          case _ => []
  }

  /** Both historical shapes are read: a bare array, and an object wrapping it under `samples`. */
  lemma ReadsBothShapes(raw: string, parse: Parser, xs: seq<Sample>, others: map<string, Value<Sample>>)
    requires raw != ""
    requires parse(raw) == Some(Array(xs)) || parse(raw) == Some(Object(others["samples" := Array(xs)]))
    ensures ReadStoredSamples(Some(raw), parse) == xs
  {
  }

  /** Any document that is neither shape reads as the empty list. */
  lemma OtherShapesEmpty(raw: string, parse: Parser)
    requires raw != "" && parse(raw).Some?
    requires !parse(raw).value.Array?
    requires SamplesField(parse(raw).value).None? || !SamplesField(parse(raw).value).value.Array?
    ensures ReadStoredSamples(Some(raw), parse) == []
  {
  }

  /**
   * `persistSamples`: the new stored entry. A successful write stores the
   * list as a bare JSON array; a failed write (`setItem` throwing) is
   * swallowed and leaves the entry as it was.
   */
  function PersistSamples(stored: Option<string>, samples: seq<Sample>, stringify: Serializer, writeOk: bool): (r: Option<string>)
    ensures !writeOk ==> r == stored
    ensures writeOk ==> r == Some(stringify(Array(samples)))
  {
    if writeOk then Some(stringify(Array(samples))) else stored
  }

  /**
   * Store round trip: after a successful write, reading gives back the same
   * list, provided `JSON.parse` inverts `JSON.stringify` on it.
   */
  lemma PersistThenRead(stored: Option<string>, samples: seq<Sample>, stringify: Serializer, parse: Parser)
    requires stringify(Array(samples)) != ""
    requires parse(stringify(Array(samples))) == Some(Array(samples))
    ensures ReadStoredSamples(PersistSamples(stored, samples, stringify, true), parse) == samples
  {
  }
}
