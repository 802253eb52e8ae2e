/**
 * The server's voice library (backend/app.py:206-261, 606-663): a
 * `metadata.json` file listing the uploaded samples and a directory holding
 * their audio. `json.load`/`json.dump`, `secure_filename`, `uuid4` and the
 * clock are parameters.
 */
module VoiceCatalog {

  import opened Wrappers
  import opened Text
  import opened Json

  /** One catalog entry as written by an upload; `mediaType` is the `type` key. */
  datatype Record = Record(
    id: string,
    name: string,
    filename: string,
    size: int,
    mediaType: string,
    createdAt: string,
    url: string)

  /** An uploaded multipart file: the client's file name, the part's media type and the content. */
  datatype Upload = Upload(filename: string, mimetype: string, bytes: seq<byte>)

  /** The HTTP answers of the two routes modelled. */
  datatype Reply =
    | Rejected(status: int, message: string)                    // a JSON `{'error': message}` with this status
    | Created(record: Record)                                   // 201 with the new record
    | CouldNotSave                                              // 500 `Could not save voice sample: ...`
    | InternalError                                             // 500 from an exception nothing catches
    | Sent(bytes: seq<byte>, mimetype: string, downloadName: string)  // `send_file`

  /** `json.load` (`None` where it raises) and `json.dump`. */
  type MetaParser = string -> Option<Value<Record>>
  type MetaDumper = Value<Record> -> string

  /** The media extensions an upload may carry. */
  const Extensions: set<string> := {"wav", "mp3", "flac", "m4a", "ogg"}

  /** The position of the last `c` in `s`. */
  function LastIndexOf(s: string, c: char): (r: Option<nat>)
    ensures r.None? <==> c !in s
    ensures r.Some? ==> r.value < |s| && s[r.value] == c && c !in s[r.value + 1..]
    decreases |s|
  {
    if s == [] then None
    else if s[|s| - 1] == c then Some(|s| - 1)
    else
      var r := LastIndexOf(s[..|s| - 1], c);
      assert r.Some? ==> s[r.value + 1..] == s[..|s| - 1][r.value + 1..] + [s[|s| - 1]];
      assert c in s ==> c in s[..|s| - 1] by {
        if c in s {
          var i :| 0 <= i < |s| && s[i] == c;
          assert s[..|s| - 1][i] == c;
        }
      }
      r
  }

  /**
   * `allowed_file`: the name has a dot and the text after its last dot,
   * lower-cased, is one of the media extensions.
   */
  function AllowedFile(filename: string): bool {
    match LastIndexOf(filename, '.')
    case None => false
    case Some(i) => AsciiLower(filename[i + 1..]) in Extensions
  }

  /** The last `c` of `a + [c] + b` is the one after `a` when `b` has none. */
  lemma {:induction false} LastIndexOfSplit(a: string, c: char, b: string)
    requires c !in b
    ensures LastIndexOf(a + [c] + b, c) == Some(|a|)
    decreases |b|
  {
    var s := a + [c] + b;
    if b == [] {
      assert s[|s| - 1] == c;
    } else {
      var init := b[..|b| - 1];
      assert s[|s| - 1] == b[|b| - 1];
      assert s[..|s| - 1] == a + [c] + init;
      assert c !in init by {
        assert forall k :: 0 <= k < |init| ==> init[k] == b[k];
      }
      LastIndexOfSplit(a, c, init);
    }
  }

  /** A name `base.ext` with a dot-free `ext` is allowed exactly when `ext` is whitelisted. */
  lemma AllowedFileOf(base: string, ext: string)
    requires '.' !in ext
    ensures AllowedFile(base + ['.'] + ext) <==> AsciiLower(ext) in Extensions
  {
    LastIndexOfSplit(base, '.', ext);
    assert (base + ['.'] + ext)[|base| + 1..] == ext;
  }

  /** An allowed name splits at its last dot into a base and a whitelisted extension. */
  lemma AllowedFileSplit(filename: string)
    requires AllowedFile(filename)
    ensures exists base, ext :: filename == base + ['.'] + ext && '.' !in ext && AsciiLower(ext) in Extensions
  {
    var i := LastIndexOf(filename, '.').value;
    var base, ext := filename[..i], filename[i + 1..];
    assert filename == base + ['.'] + ext;
  }

  /** `allowed_file` accepts exactly the names `base.ext` with a dot-free, whitelisted `ext`. */
  lemma AllowedFileSpec(filename: string)
    ensures AllowedFile(filename) <==>
      exists base, ext :: filename == base + ['.'] + ext && '.' !in ext && AsciiLower(ext) in Extensions
  {
    if AllowedFile(filename) {
      AllowedFileSplit(filename);
    } else {
      forall base, ext | filename == base + ['.'] + ext && '.' !in ext
        ensures AsciiLower(ext) !in Extensions
      {
        AllowedFileOf(base, ext);
      }
    }
  }

  /** `Path(name).suffix`: from the last dot on, unless that dot starts or ends the name. */
  function Suffix(name: string): (r: string)
    ensures r == "" || (r[0] == '.' && 1 < |r| < |name| && r == name[|name| - |r|..] && '.' !in r[1..])
    ensures r != "" <==> LastIndexOf(name, '.').Some? && 0 < LastIndexOf(name, '.').value < |name| - 1
    ensures r != "" ==> r == name[LastIndexOf(name, '.').value..]
  {
    match LastIndexOf(name, '.')
    case None => ""
    case Some(i) => if 0 < i < |name| - 1 then name[i..] else ""
  }

  /** A name `base.ext` with a non-empty base and a non-empty, dot-free `ext` has the suffix `.ext`. */
  lemma SuffixOf(base: string, ext: string)
    requires base != "" && ext != "" && '.' !in ext
    ensures Suffix(base + ['.'] + ext) == ['.'] + ext
  {
    var name := base + ['.'] + ext;
    LastIndexOfSplit(base, '.', ext);
    assert 0 < |base| < |name| - 1;
    assert Suffix(name) == name[|base|..];
    assert name[|base|..] == ['.'] + ext;
  }

  /**
   * `read_voice_library`: a missing or unreadable file gives an empty list;
   * a list is taken as it is; an object gives its `samples` value, whatever
   * that is, or an empty list without the key; any other document gives an
   * empty list (its `.get` raises and is caught).
   */
  function DecodeLibrary(metadata: Option<string>, parse: MetaParser): (r: Value<Record>)
    ensures metadata.None? ==> r == Array([])
    ensures metadata.Some? && parse(metadata.value).None? ==> r == Array([])
    ensures metadata.Some? && parse(metadata.value).Some? ==>
      var doc := parse(metadata.value).value;
      && (doc.Array? ==> r == doc)
      && (doc.Object? && "samples" in doc.fields ==> r == doc.fields["samples"])
      && (!doc.Array? && !(doc.Object? && "samples" in doc.fields) ==> r == Array([]))
  {
    if metadata.None? then Array([])
    else match parse(metadata.value)
      case None => Array([])
      case Some(doc) =>
        if doc.Array? then doc
        else match SamplesField(doc)
          case Some(v) => v
          case None => Array([])
  }

  /** How `write_voice_library`'s write went: fully, not at all (`open` raised), or cut off after `written` characters. */
  datatype WriteOutcome = Written | NotOpened | CutOff(written: nat)

  /** The document `write_voice_library` writes: the list wrapped under `samples`. */
  function Wrapped(samples: seq<Record>): Value<Record> {
    Object(map["samples" := Array(samples)])
  }

  /**
   * The metadata file after `write_voice_library(samples)`. Errors are
   * swallowed: a file that could not be opened is left as it was, and a
   * dump cut off holds a prefix of the text.
   */
  function WrittenMetadata(metadata: Option<string>, samples: seq<Record>, dump: MetaDumper, outcome: WriteOutcome): (r: Option<string>)
    ensures outcome.NotOpened? ==> r == metadata
    ensures outcome.Written? ==> r == Some(dump(Wrapped(samples)))
    ensures outcome.CutOff? ==> r.Some? && |r.value| <= |dump(Wrapped(samples))| && r.value == dump(Wrapped(samples))[..|r.value|]
  {
    match outcome
    case Written => Some(dump(Wrapped(samples)))
    case NotOpened => metadata
    case CutOff(n) =>
      var text := dump(Wrapped(samples));
      Some(text[..if n < |text| then n else |text|])
  }

  /**
   * Write-then-read: a complete write of a list reads back as the same list,
   * provided `json.load` inverts `json.dump` on it.
   */
  lemma WriteThenRead(metadata: Option<string>, samples: seq<Record>, dump: MetaDumper, parse: MetaParser)
    requires parse(dump(Wrapped(samples))) == Some(Wrapped(samples))
    ensures DecodeLibrary(WrittenMetadata(metadata, samples, dump, Written), parse) == Array(samples)
  {
  }

  /**
   * The record `upload_voice_sample` creates for an upload saved under
   * `freshId` with sanitised name `filename`: stored as the id plus the
   * name's suffix (`.wav` without one), named by the form's `name`, the
   * sanitised name or `Voice Sample`, typed by the upload or `audio/wav`,
   * stamped `now` in UTC and served from `/api/voices/<id>/file`.
   */
  function NewRecord(freshId: string, filename: string, formName: Option<string>, upload: Upload, now: string): (r: Record)
    ensures r.id == freshId && r.size == |upload.bytes|
    ensures r.filename == freshId + (if Suffix(filename) != "" then Suffix(filename) else ".wav")
    ensures r.name == if formName.Some? && formName.value != "" then formName.value
                      else if filename != "" then filename else "Voice Sample"
    ensures r.mediaType == if upload.mimetype != "" then upload.mimetype else "audio/wav"
    ensures r.createdAt == now + "Z"
    ensures r.url == "/api/voices/" + freshId + "/file"
  {
    var extension := if Suffix(filename) != "" then Suffix(filename) else ".wav";
    Record(
      freshId,
      if formName.Some? && formName.value != "" then formName.value else if filename != "" then filename else "Voice Sample",
      freshId + extension,
      |upload.bytes|,
      if upload.mimetype != "" then upload.mimetype else "audio/wav",
      now + "Z",
      "/api/voices/" + freshId + "/file")
  }
  /** An upload named `base.ext` is stored under the id followed by `.ext`, so its extension is kept. */
  lemma StoredNameKeepsExtension(freshId: string, base: string, ext: string, formName: Option<string>, upload: Upload, now: string)
    requires base != "" && ext != "" && '.' !in ext
    ensures NewRecord(freshId, base + ['.'] + ext, formName, upload, now).filename == freshId + ['.'] + ext
  {
    SuffixOf(base, ext);
  }


  /** The position of the first record with id `id`. */
  function FirstMatch(xs: seq<Record>, id: string): (r: Option<nat>)
    ensures r.None? <==> forall i :: 0 <= i < |xs| ==> xs[i].id != id
    ensures r.Some? ==> r.value < |xs| && xs[r.value].id == id && forall j :: 0 <= j < r.value ==> xs[j].id != id
    decreases |xs|
  {
    if xs == [] then None
    else if xs[0].id == id then Some(0)
    else match FirstMatch(xs[1..], id)
      case None => None
      case Some(i) => Some(i + 1)
  }

  /** What the lookup loop of `get_voice_sample_file` finds. */
  datatype Lookup =
    | NotIterable          // iterating the library, or calling `.get` on an element, raises
    | NoRecord
    | Found(record: Record)

  /**
   * `next(s for s in samples if s.get('id') == voice_id)`: the first record
   * of a list with that id. An empty object or string iterates as nothing;
   * any other document that is not a list raises.
   */
  function FindRecord(lib: Value<Record>, voiceId: string): (r: Lookup)
    ensures lib.Array? ==> (r.NoRecord? <==> forall i :: 0 <= i < |lib.items| ==> lib.items[i].id != voiceId)
    ensures lib.Array? ==> !r.NotIterable?
    ensures lib.Array? && r.Found? ==>
      r.record.id == voiceId &&
      (exists i :: 0 <= i < |lib.items| && lib.items[i] == r.record && forall j :: 0 <= j < i ==> lib.items[j].id != voiceId)
    ensures !lib.Array? ==> !r.Found? && (r.NoRecord? <==> lib == Object(map[]) || lib == Text(""))
  {
    match lib
    case Array(xs) =>
      (match FirstMatch(xs, voiceId)
       case None => NoRecord
       case Some(i) => Found(xs[i]))
    case Object(f) => if f == map[] then NoRecord else NotIterable
    case Text(s) => if s == "" then NoRecord else NotIterable
    case _ => NotIterable
  }

  /**
   * A missing or unreadable metadata file reads as `[]`, so every lookup finds
   * nothing and the download answers 404, never 500.
   */
  lemma UnreadableLibraryFindsNothing(metadata: Option<string>, parse: MetaParser, voiceId: string)
    requires metadata.None? || parse(metadata.value).None?
    ensures FindRecord(DecodeLibrary(metadata, parse), voiceId) == NoRecord
  {
  }

  /** A record appended under a new id is the one a later lookup of that id finds. */
  lemma FindAppended(xs: seq<Record>, rec: Record)
    requires forall i :: 0 <= i < |xs| ==> xs[i].id != rec.id
    ensures FindRecord(Array(xs + [rec]), rec.id) == Found(rec)
  {
    var ys := xs + [rec];
    assert ys[|xs|].id == rec.id;
    var i := FirstMatch(ys, rec.id).value;
  }

  /** The server's library state: the metadata file's text (`None` when absent) and the audio files by name. */
  class VoiceLibrary {
    var metadata: Option<string>
    var files: map<string, seq<byte>>

    constructor(metadata0: Option<string>, files0: map<string, seq<byte>>)
      ensures metadata == metadata0 && files == files0
    {
      metadata := metadata0;
      files := files0;
    }

    /**
     * `POST /api/voices`. A request without the `voice` field or with an
     * empty file name is rejected with 400 and changes nothing. A failed
     * save answers 500 and changes nothing. Otherwise the file is stored
     * under the new record's file name; if the library reads as a list the
     * record is appended, the list written back and 201 returned, and if it
     * does not the append raises and 500 is returned with the file kept.
     */
    method UploadVoiceSample(voice: Option<Upload>, formName: Option<string>, freshId: string, now: string,
                             secure: string -> string, saveOk: bool,
                             parse: MetaParser, dump: MetaDumper, outcome: WriteOutcome)
      returns (reply: Reply)
      modifies this
      ensures voice.None? ==>
        reply == Rejected(400, "Voice file is required (field name: voice)") && unchanged(this)
      ensures voice.Some? && voice.value.filename == "" ==>
        reply == Rejected(400, "Voice file is required") && unchanged(this)
      ensures voice.Some? && voice.value.filename != "" && !saveOk ==>
        reply == CouldNotSave && unchanged(this)
      ensures voice.Some? && voice.value.filename != "" && saveOk ==>
        var rec := NewRecord(freshId, secure(voice.value.filename), formName, voice.value, now);
        var lib := DecodeLibrary(old(metadata), parse);
        && files == old(files)[rec.filename := voice.value.bytes]
        && (lib.Array? ==> reply == Created(rec) && metadata == WrittenMetadata(old(metadata), lib.items + [rec], dump, outcome))
        && (!lib.Array? ==> reply == CouldNotSave && metadata == old(metadata))
    {
      if voice.None? {
        return Rejected(400, "Voice file is required (field name: voice)");
      }
      var file := voice.value;
      if file.filename == "" {
        return Rejected(400, "Voice file is required");
      }
      var filename := secure(file.filename);
      var rec := NewRecord(freshId, filename, formName, file, now);
      if !saveOk {
        return CouldNotSave;
      }
      files := files[rec.filename := file.bytes];
      var lib := DecodeLibrary(metadata, parse);
      if !lib.Array? {
        return CouldNotSave;
      }
      metadata := WrittenMetadata(metadata, lib.items + [rec], dump, outcome);
      reply := Created(rec);
    }

    /**
     * `GET /api/voices/<voice_id>/file`: the file of the first record with
     * that id, typed by the record or `audio/wav` and named by the record or
     * `voice-sample.wav`. An unknown id or a missing file is a 404; a record
     * without a file name points at the directory itself, and sending that
     * raises.
     */
    method GetVoiceSampleFile(voiceId: string, parse: MetaParser) returns (reply: Reply)
      ensures match FindRecord(DecodeLibrary(metadata, parse), voiceId)
        case NotIterable => reply == InternalError
        case NoRecord => reply == Rejected(404, "Voice sample not found")
        case Found(rec) =>
          if rec.filename == "" then reply == InternalError
          else if rec.filename !in files then reply == Rejected(404, "Voice file missing on server")
          else reply == Sent(files[rec.filename],
                             if rec.mediaType != "" then rec.mediaType else "audio/wav",
                             if rec.name != "" then rec.name else "voice-sample.wav")
    {
      var lookup := FindRecord(DecodeLibrary(metadata, parse), voiceId);
      if lookup.NotIterable? {
        return InternalError;
      }
      if lookup.NoRecord? {
        return Rejected(404, "Voice sample not found");
      }
      var rec := lookup.record;
      if rec.filename == "" {
        reply := InternalError;
      } else if rec.filename !in files {
        reply := Rejected(404, "Voice file missing on server");
      } else {
        reply := Sent(files[rec.filename],
                      if rec.mediaType != "" then rec.mediaType else "audio/wav",
                      if rec.name != "" then rec.name else "voice-sample.wav");
      }
    }
  }

  /**
   * Upload then download: once an upload under a new id has been written
   * completely, asking for that id serves the uploaded bytes under the
   * record's type and name, provided `json.load` inverts `json.dump` on the
   * wrapped record lists the library writes.
   */
  method UploadThenFetch(lib: VoiceLibrary, upload: Upload, formName: Option<string>, freshId: string, now: string,
                         secure: string -> string, parse: MetaParser, dump: MetaDumper)
    returns (created: Reply, served: Reply)
    requires upload.filename != ""
    requires forall xs: seq<Record> :: parse(dump(Wrapped(xs))) == Some(Wrapped(xs))
    requires DecodeLibrary(lib.metadata, parse).Array?
    requires forall i :: 0 <= i < |DecodeLibrary(lib.metadata, parse).items| ==>
      DecodeLibrary(lib.metadata, parse).items[i].id != freshId
    modifies lib
    ensures created.Created? && created.record.id == freshId
    ensures served == Sent(upload.bytes, created.record.mediaType, created.record.name)
  {
    ghost var xs := DecodeLibrary(lib.metadata, parse).items;
    created := lib.UploadVoiceSample(Some(upload), formName, freshId, now, secure, true, parse, dump, Written);
    var rec := created.record;
    WriteThenRead(old(lib.metadata), xs + [rec], dump, parse);
    FindAppended(xs, rec);
    served := lib.GetVoiceSampleFile(freshId, parse);
  }
}
