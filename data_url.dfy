/**
 * The browser-side sample codec: `FileReader.readAsDataURL` writes a file
 * as an RFC 2397 `data:` URL with a base 64 payload, and `dataUrlToFile`
 * reads such a URL back into a `File`
 * (src/context/AudioSampleContext.jsx:8-28).
 */
module DataUrl {

  import opened Wrappers
  import opened Text
  import opened Base64
  import opened Samples

  /** Why a `File` could not be produced (an exception or rejection in the source). */
  datatype FileError =
    | InvalidBase64        // `atob` throws on a payload that is not base 64
    | FetchRejected        // the response to a fetch was not ok
    | NetworkFailure       // the fetch itself failed

  /**
   * `readAsDataURL` on a file with these bytes and media type. A file of
   * unknown type (`""`) is written as `application/octet-stream`, the
   * choice browser engines make.
   */
  function ReadAsDataUrl(bytes: seq<byte>, mime: string): string {
    "data:" + (if mime == "" then "application/octet-stream" else mime) + ";base64," + Encode(bytes)
  }

  /** `dataUrl.split(',')[0]`. */
  function Header(dataUrl: string): string {
    TakeUntil(dataUrl, ',')
  }

  /** `dataUrl.split(',')[1] || ''`: the text between the first and second comma, or `""` without a comma. */
  function Payload(dataUrl: string): string {
    var h := Header(dataUrl);
    if |h| == |dataUrl| then "" else TakeUntil(dataUrl[|h| + 1..], ',')
  }

  /**
   * The lazy `(.*?);` after a colon: the text up to the first `;`, provided
   * no line terminator (which `.` does not match) comes first.
   */
  function UpToSemicolon(t: string): (r: Option<string>)
    ensures r.Some? ==> |r.value| < |t| && t[..|r.value|] == r.value && t[|r.value|] == ';'
    ensures r.Some? ==> forall k :: 0 <= k < |r.value| ==> r.value[k] != ';' && !IsLineTerminator(r.value[k])
    ensures r.None? ==> forall k :: 0 <= k < |t| && t[k] == ';' ==> exists j :: 0 <= j < k && IsLineTerminator(t[j])
  {
    if t == [] then None
    else if t[0] == ';' then Some("")
    else if IsLineTerminator(t[0]) then None
    else match UpToSemicolon(t[1..])
         case None => None
         case Some(m) => Some([t[0]] + m)
  }

  /** `h.match(/:(.*?);/)?.[1]`: the leftmost colon from which the lazy group reaches a `;`. */
  function MimeMatch(h: string): (r: Option<string>)
    ensures ';' !in h ==> r.None?
    ensures r.Some? ==> ';' !in r.value
    decreases |h|
  {
    if h == [] then None
    else if h[0] == ':' && UpToSemicolon(h[1..]).Some? then UpToSemicolon(h[1..])
    else MimeMatch(h[1..])
  }

  /**
   * The media type `dataUrlToFile` gives its file: the explicit `type` if
   * given, else the mime of the `data:` header, else `audio/wav`.
   */
  function MediaType(dataUrl: string, mime: string): (r: string)
    ensures r != ""
    ensures mime != "" ==> r == mime
    ensures mime == "" && MimeMatch(Header(dataUrl)).Some? && MimeMatch(Header(dataUrl)).value != ""
            ==> r == MimeMatch(Header(dataUrl)).value
    ensures mime == "" && (MimeMatch(Header(dataUrl)).None? || MimeMatch(Header(dataUrl)).value == "")
            ==> r == "audio/wav"
  {
    HeaderType(Header(dataUrl), mime)
  }

  /** `type || mimeMatch?.[1] || 'audio/wav'` for the header `h`. */
  function HeaderType(h: string, mime: string): (r: string)
    ensures r != ""
    ensures mime != "" ==> r == mime
    ensures mime == "" && MimeMatch(h).Some? && MimeMatch(h).value != "" ==> r == MimeMatch(h).value
    ensures mime == "" && (MimeMatch(h).None? || MimeMatch(h).value == "") ==> r == "audio/wav"
  {
    if mime != "" then mime
    else match MimeMatch(h)
         case Some(m) => if m != "" then m else "audio/wav"
         case None => "audio/wav"
  }

  /** The byte each character becomes when stored into a `Uint8Array` (its code modulo 256). */
  function Uint8Bytes(bstr: string): (r: seq<byte>)
    ensures |r| == |bstr| && forall i :: 0 <= i < |bstr| ==> r[i] == bstr[i] as int % 256
    ensures forall i :: 0 <= i < |bstr| && bstr[i] as int < 256 ==> r[i] == bstr[i] as int
  {
    seq(|bstr|, i requires 0 <= i < |bstr| => bstr[i] as int % 256)
  }

  /**
   * What `dataUrlToFile(dataUrl, fileName, mime)` returns, or the error it
   * throws. The file holds exactly as many bytes as the decoded payload,
   * byte `i` being the code of character `i`.
   */
  function DecodeDataUrl(dataUrl: string, fileName: string, mime: string): (r: Result<File, FileError>)
    ensures r.Failure? <==> Atob(Payload(dataUrl)).None?
    ensures r.Failure? ==> r.error == InvalidBase64
    ensures r.Success? ==>
      var bstr := Atob(Payload(dataUrl)).value;
      && |r.value.bytes| == |bstr|
      && (forall i :: 0 <= i < |bstr| ==> r.value.bytes[i] == bstr[i] as int)
      && r.value.name == fileName
      && r.value.mediaType == FileType(MediaType(dataUrl, mime))
  {
    match Atob(Payload(dataUrl))
    case None => Failure(InvalidBase64)
    case Some(bstr) => Success(File(Uint8Bytes(bstr), fileName, FileType(MediaType(dataUrl, mime))))
  }

  /** The byte-copy loop of `dataUrlToFile`: a `Uint8Array` filled with the character codes. */
  method CopyCodes(bstr: string) returns (bytes: seq<byte>)
    ensures bytes == Uint8Bytes(bstr)
  {
    var n := |bstr|;
    var u8arr := new byte[n];
    for i := 0 to n
      invariant forall k :: 0 <= k < i ==> u8arr[k] == bstr[k] as int % 256
    {
      u8arr[i] := bstr[i] as int % 256;
    }
    bytes := u8arr[..];
  }

  /** `dataUrlToFile`: the payload decoded by `atob`, copied byte by byte into a file. */
  method DataUrlToFile(dataUrl: string, fileName: string, mime: string) returns (r: Result<File, FileError>)
    ensures r == DecodeDataUrl(dataUrl, fileName, mime)
  {
    var mediaType := FileType(MediaType(dataUrl, mime));
    var decoded := Atob(Payload(dataUrl));
    if decoded.None? {
      return Failure(InvalidBase64);
    }
    var bytes := CopyCodes(decoded.value);
    r := Success(File(bytes, fileName, mediaType));
  }

  /**
   * A header with no `;` (such as `data:audio/wav`) gives no regular
   * expression match, so without an explicit type the file is typed `audio/wav`.
   */
  lemma NoSemicolonFallback(dataUrl: string)
    requires ';' !in Header(dataUrl)
    ensures MediaType(dataUrl, "") == "audio/wav"
  {
  }

  /** A URL with no comma part decodes to a file of zero bytes. */
  lemma NoPayloadNoBytes(dataUrl: string, fileName: string, mime: string)
    requires ',' !in dataUrl
    ensures DecodeDataUrl(dataUrl, fileName, mime) == Success(File([], fileName, FileType(MediaType(dataUrl, mime))))
  {
    assert Payload(dataUrl) == "";
    assert RemoveWhitespace("") == "";
    assert Decode("") == Some([]);
  }

  lemma NoComma(b: seq<byte>)
    ensures ',' !in Encode(b)
  {
    var g := EncodeGroups(b);
    assert Encode(b) == g + Padding(|b|);
    forall i | 0 <= i < |Encode(b)| ensures Encode(b)[i] != ',' {
      if i < |g| { assert InAlphabet(g[i]); }
    }
  }

  /** `TakeUntil` stops at the first `c`. */
  lemma TakeUntilSplit(a: string, c: char, b: string)
    requires c !in a
    ensures TakeUntil(a + [c] + b, c) == a
  {
    if a != [] {
      assert (a + [c] + b)[1..] == a[1..] + [c] + b;
      TakeUntilSplit(a[1..], c, b);
    }
  }

  /** `TakeUntil` of text without `c` is the whole text. */
  lemma TakeUntilAll(a: string, c: char)
    requires c !in a
    ensures TakeUntil(a, c) == a
  {
    if a != [] {
      TakeUntilAll(a[1..], c);
    }
  }

  /** The header and payload of a URL written by `readAsDataURL`, when the media type has no comma. */
  lemma {:induction false} SplitWritten(bytes: seq<byte>, mime: string)
    requires ',' !in mime
    ensures var m := if mime == "" then "application/octet-stream" else mime;
            Header(ReadAsDataUrl(bytes, mime)) == "data:" + m + ";base64"
            && Payload(ReadAsDataUrl(bytes, mime)) == Encode(bytes)
  {
    var m := if mime == "" then "application/octet-stream" else mime;
    var h := "data:" + m + ";base64";
    var u := ReadAsDataUrl(bytes, mime);
    assert u == h + [','] + Encode(bytes);
    assert ',' !in h;
    TakeUntilSplit(h, ',', Encode(bytes));
    assert u[|h| + 1..] == Encode(bytes);
    NoComma(bytes);
    TakeUntilAll(Encode(bytes), ',');
  }

  /**
   * Codec round trip: decoding the data URL written for bytes `B` returns
   * `B` byte for byte, under the name and explicit type given.
   */
  lemma {:induction false} DataUrlRoundTrip(bytes: seq<byte>, mime: string, fileName: string, explicitType: string)
    requires ',' !in mime
    ensures DecodeDataUrl(ReadAsDataUrl(bytes, mime), fileName, explicitType).Success?
    ensures DecodeDataUrl(ReadAsDataUrl(bytes, mime), fileName, explicitType).value.bytes == bytes
    ensures DecodeDataUrl(ReadAsDataUrl(bytes, mime), fileName, explicitType).value.name == fileName
  {
    SplitWritten(bytes, mime);
    DecodeEncode(bytes);
    var r := DecodeDataUrl(ReadAsDataUrl(bytes, mime), fileName, explicitType);
    assert r.value.bytes == Uint8Bytes(BinaryString(bytes));
  }

  lemma {:induction false} UpToSemicolonOf(m: string, rest: string)
    requires ';' !in m && forall i :: 0 <= i < |m| ==> !IsLineTerminator(m[i])
    ensures UpToSemicolon(m + ";" + rest) == Some(m)
    decreases |m|
  {
    if m != [] {
      assert (m + ";" + rest)[1..] == m[1..] + ";" + rest;
      UpToSemicolonOf(m[1..], rest);
      assert [m[0]] + m[1..] == m;
    }
  }

  /** The regular expression search skips a prefix without colons. */
  lemma {:induction false} MimeMatchSkip(p: string, t: string)
    requires ':' !in p
    ensures MimeMatch(p + t) == MimeMatch(t)
    decreases |p|
  {
    if p != [] {
      assert (p + t)[0] == p[0] && p[0] != ':';
      assert (p + t)[1..] == p[1..] + t;
      MimeMatchSkip(p[1..], t);
    } else {
      assert p + t == t;
    }
  }

  /** The mime the regular expression finds after the first colon of a header. */
  lemma {:induction false} HeaderMime(pre: string, m: string, rest: string)
    requires ':' !in pre && ';' !in m && forall i :: 0 <= i < |m| ==> !IsLineTerminator(m[i])
    ensures MimeMatch(pre + ":" + m + ";" + rest) == Some(m)
  {
    var t := ":" + m + ";" + rest;
    assert pre + ":" + m + ";" + rest == pre + t;
    MimeMatchSkip(pre, t);
    assert t[1..] == m + ";" + rest;
    UpToSemicolonOf(m, rest);
  }

  /** The default media type has no `;` and no line terminator. */
  lemma OctetStreamPlain()
    ensures ';' !in "application/octet-stream"
    ensures forall i :: 0 <= i < |"application/octet-stream"| ==> !IsLineTerminator("application/octet-stream"[i])
    ensures NormalType("application/octet-stream")
  {
  }

  /** The header `readAsDataURL` writes, cut at its colon and its semicolon. */
  lemma WrittenHeaderShape(m: string)
    ensures "data:" + m + ";base64" == "data" + ":" + m + ";" + "base64"
  {
  }

  /**
   * The header of a URL written by `readAsDataURL` gives back its media type
   * when that type has no `;`, `,` or line terminator; a file of unknown type
   * comes back as `application/octet-stream`.
   */
  lemma {:induction false} MediaTypeRoundTrip(bytes: seq<byte>, mime: string)
    requires ',' !in mime && ';' !in mime
    requires forall i :: 0 <= i < |mime| ==> !IsLineTerminator(mime[i])
    ensures MediaType(ReadAsDataUrl(bytes, mime), "") == if mime == "" then "application/octet-stream" else mime
  {
    var m := if mime == "" then "application/octet-stream" else mime;
    var h := Header(ReadAsDataUrl(bytes, mime));
    assert h == "data" + ":" + m + ";" + "base64" by {
      SplitWritten(bytes, mime);
      WrittenHeaderShape(m);
    }
    assert MimeMatch(h) == Some(m) by {
      if mime == "" {
        OctetStreamPlain();
      }
      HeaderMime("data", m, "base64");
    }
  }

  /**
   * Type round trip: a file whose type is in the form a `File` keeps, with
   * no `;` or `,`, decodes from its data URL under that same type; a file of
   * unknown type comes back as `application/octet-stream`.
   */
  lemma {:induction false} DataUrlTypeRoundTrip(bytes: seq<byte>, mime: string, fileName: string)
    requires ',' !in mime && ';' !in mime && NormalType(mime)
    ensures DecodeDataUrl(ReadAsDataUrl(bytes, mime), fileName, "").Success?
    ensures DecodeDataUrl(ReadAsDataUrl(bytes, mime), fileName, "").value.mediaType ==
      if mime == "" then "application/octet-stream" else mime
  {
    assert forall i :: 0 <= i < |mime| ==> !IsLineTerminator(mime[i]);
    DataUrlRoundTrip(bytes, mime, fileName, "");
    MediaTypeRoundTrip(bytes, mime);
    var m := if mime == "" then "application/octet-stream" else mime;
    OctetStreamPlain();
    FileTypeKeepsNormal(m);
  }

  /*
   * A media type may itself hold a comma (`new File(parts, name, { type: 'a,b' })`
   * keeps it). `split(',')` then cuts the header inside the type, and the
   * payload handed to `atob` is the rest of the type.
   */

  /** As written: for a type `a,b`, `split(',')[1]` is the rest of the type followed by `;base64`. */
  lemma {:induction false} CommaTypeCutsPayload(bytes: seq<byte>, a: string, b: string)
    requires ',' !in a && ',' !in b
    ensures Payload(ReadAsDataUrl(bytes, a + [','] + b)) == b + ";base64"
  {
    var u := ReadAsDataUrl(bytes, a + [','] + b);
    var h := "data:" + a;
    var rest := b + ";base64";
    assert u == h + [','] + (rest + [','] + Encode(bytes));
    assert ',' !in rest;
    TakeUntilSplit(h, ',', rest + [','] + Encode(bytes));
    assert u[|h| + 1..] == rest + [','] + Encode(bytes);
    TakeUntilSplit(rest, ',', Encode(bytes));
  }

  /** `atob` throws on any text holding a `;`: it is outside the alphabet and survives whitespace and padding removal. */
  lemma {:induction false} SemicolonRejected(b: string, c: string)
    ensures Atob(b + [';'] + c).None?
  {
    var s := b + [';'] + c;
    assert s == b + ([';'] + c);
    assert [';'][1..] + c == c;
    RemoveWhitespaceAppend(b, [';'] + c);
    RemoveWhitespaceFirst([';'], c);
    var w := RemoveWhitespace(s);
    var k := |RemoveWhitespace(b)|;
    assert w == RemoveWhitespace(b) + ([';'] + RemoveWhitespace(c));
    assert w[k] == ';';
    var t := StripPadding(w);
    assert k < |t| && t[k] == w[k];
    assert !InAlphabet(t[k]);
  }

  /**
   * As written: every file whose type holds one comma fails to decode from
   * the data URL `readAsDataURL` writes for it, whatever its bytes.
   */
  lemma {:induction false} CommaTypeBreaksDecode(bytes: seq<byte>, a: string, b: string, fileName: string, mime: string)
    requires ',' !in a && ',' !in b
    ensures DecodeDataUrl(ReadAsDataUrl(bytes, a + [','] + b), fileName, mime) == Failure(InvalidBase64)
  {
    CommaTypeCutsPayload(bytes, a, b);
    assert b + ";base64" == b + [';'] + "base64";
    SemicolonRejected(b, "base64");
  }

  /** The smallest instance: an empty file of type `a,b`, whose payload as split is `b;base64`. */
  lemma CommaTypeExample()
    ensures DecodeDataUrl(ReadAsDataUrl([], "a,b"), "sample.wav", "") == Failure(InvalidBase64)
  {
    assert "a,b" == "a" + [','] + "b";
    CommaTypeBreaksDecode([], "a", "b", "sample.wav", "");
  }

  /** The header `dataUrl.split(',')` was meant to give: everything before the last comma. */
  function LastCommaHeader(dataUrl: string): string {
    var p := AfterLast(dataUrl, ',');
    if |p| == |dataUrl| then dataUrl else dataUrl[..|dataUrl| - |p| - 1]
  }

  /** The payload it was meant to give: everything after the last comma, or `""` without a comma. */
  function LastCommaPayload(dataUrl: string): string {
    var p := AfterLast(dataUrl, ',');
    if |p| == |dataUrl| then "" else p
  }

  /** `dataUrlToFile` with the URL split at its last comma, the one `readAsDataURL` writes before the payload. */
  function DecodeAtLastComma(dataUrl: string, fileName: string, mime: string): (r: Result<File, FileError>)
    ensures r.Failure? <==> Atob(LastCommaPayload(dataUrl)).None?
    ensures r.Failure? ==> r.error == InvalidBase64
    ensures r.Success? ==>
      var bstr := Atob(LastCommaPayload(dataUrl)).value;
      && |r.value.bytes| == |bstr|
      && (forall i :: 0 <= i < |bstr| ==> r.value.bytes[i] == bstr[i] as int)
      && r.value.name == fileName
      && r.value.mediaType == FileType(HeaderType(LastCommaHeader(dataUrl), mime))
  {
    match Atob(LastCommaPayload(dataUrl))
    case None => Failure(InvalidBase64)
    case Some(bstr) => Success(File(Uint8Bytes(bstr), fileName, FileType(HeaderType(LastCommaHeader(dataUrl), mime))))
  }

  /** Split at the last comma, a URL written by `readAsDataURL` gives its header and payload back whatever the media type. */
  lemma {:induction false} LastCommaSplitWritten(bytes: seq<byte>, mime: string)
    ensures var m := if mime == "" then "application/octet-stream" else mime;
            LastCommaHeader(ReadAsDataUrl(bytes, mime)) == "data:" + m + ";base64"
            && LastCommaPayload(ReadAsDataUrl(bytes, mime)) == Encode(bytes)
  {
    var m := if mime == "" then "application/octet-stream" else mime;
    var h := "data:" + m + ";base64";
    assert ReadAsDataUrl(bytes, mime) == h + [','] + Encode(bytes);
    NoComma(bytes);
    LastCommaSplit(h, Encode(bytes));
  }

  /** The split at the last comma undoes joining with a comma any header and comma-free payload. */
  lemma LastCommaSplit(h: string, p: string)
    requires ',' !in p
    ensures LastCommaHeader(h + [','] + p) == h && LastCommaPayload(h + [','] + p) == p
  {
    var u := h + [','] + p;
    AfterLastSplit(h, ',', p);
    assert u[..|u| - |p| - 1] == h;
  }

  /** Corrected codec round trip: the bytes come back for every media type, commas included. */
  lemma {:induction false} LastCommaRoundTrip(bytes: seq<byte>, mime: string, fileName: string, explicitType: string)
    ensures DecodeAtLastComma(ReadAsDataUrl(bytes, mime), fileName, explicitType).Success?
    ensures DecodeAtLastComma(ReadAsDataUrl(bytes, mime), fileName, explicitType).value.bytes == bytes
    ensures DecodeAtLastComma(ReadAsDataUrl(bytes, mime), fileName, explicitType).value.name == fileName
  {
    LastCommaSplitWritten(bytes, mime);
    DecodeEncode(bytes);
    var r := DecodeAtLastComma(ReadAsDataUrl(bytes, mime), fileName, explicitType);
    assert r.value.bytes == Uint8Bytes(BinaryString(bytes));
  }

  /** Corrected type round trip: a normal type with no `;` comes back, commas included. */
  lemma {:induction false} LastCommaTypeRoundTrip(bytes: seq<byte>, mime: string, fileName: string)
    requires ';' !in mime && NormalType(mime)
    ensures DecodeAtLastComma(ReadAsDataUrl(bytes, mime), fileName, "").Success?
    ensures DecodeAtLastComma(ReadAsDataUrl(bytes, mime), fileName, "").value.mediaType ==
      if mime == "" then "application/octet-stream" else mime
  {
    assert forall i :: 0 <= i < |mime| ==> !IsLineTerminator(mime[i]);
    LastCommaRoundTrip(bytes, mime, fileName, "");
    var m := if mime == "" then "application/octet-stream" else mime;
    var h := LastCommaHeader(ReadAsDataUrl(bytes, mime));
    assert h == "data" + ":" + m + ";" + "base64" by {
      LastCommaSplitWritten(bytes, mime);
      WrittenHeaderShape(m);
    }
    OctetStreamPlain();
    HeaderMime("data", m, "base64");
    FileTypeKeepsNormal(m);
  }
}
