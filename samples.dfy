/** The records of the browser-side voice-sample library. */
module Samples {

  import opened Wrappers
  import opened Text

  /**
   * One voice sample as the browser keeps it. `dataUrl` is the inline
   * `data:` URL copy of the audio and `url` the server location; either may
   * be missing (`null` or `undefined` in the source).
   */
  datatype Sample = Sample(
    id: string,
    name: string,
    size: int,
    mediaType: string,
    createdAt: string,
    dataUrl: Option<string>,
    url: Option<string>)

  /** A browser `File`: its bytes, its name and its media type (`type` in the source) (`""` when unknown). */
  datatype File = File(bytes: seq<byte>, name: string, mediaType: string)

  /** A character the File API allows in a media type: U+0020 to U+007E. */
  predicate PrintableAscii(c: char) {
    ' ' <= c <= '~'
  }

  /** A media type in the form a `File` keeps it: printable ASCII without capital letters. */
  predicate NormalType(t: string) {
    forall i :: 0 <= i < |t| ==> PrintableAscii(t[i]) && !('A' <= t[i] <= 'Z')
  }

  /**
   * The `type` the `File` constructor keeps of the one it is given: the
   * ASCII lower-cased type, or `""` when the type has a character outside
   * U+0020 to U+007E.
   */
  function FileType(t: string): (r: string)
    ensures NormalType(r)
    ensures (forall i :: 0 <= i < |t| ==> PrintableAscii(t[i])) ==> r == AsciiLower(t)
    ensures (exists i :: 0 <= i < |t| && !PrintableAscii(t[i])) ==> r == ""
  {
    if forall i :: 0 <= i < |t| ==> PrintableAscii(t[i]) then AsciiLower(t) else ""
  }

  /** A type already in normal form is kept as it is, so normalising twice is normalising once. */
  lemma FileTypeKeepsNormal(t: string)
    requires NormalType(t)
    ensures FileType(t) == t
    ensures FileType(FileType(t)) == FileType(t)
  {
    assert AsciiLower(t) == t;
  }

  /** JavaScript truthiness of an optional string: present and not empty. */
  predicate Present(o: Option<string>) {
    o.Some? && o.value != ""
  }

  /** The ids of a list of samples, in order. */
  function Ids(s: seq<Sample>): (r: seq<string>)
    ensures |r| == |s| && forall i :: 0 <= i < |s| ==> r[i] == s[i].id
  {
    seq(|s|, i requires 0 <= i < |s| => s[i].id)
  }
}
