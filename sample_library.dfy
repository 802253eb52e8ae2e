/**
 * The browser's voice-sample library: the state the `AudioSampleProvider`
 * component keeps (src/context/AudioSampleContext.jsx:65-174) and the
 * operations it offers. React state updates and effects become methods of
 * one object; the server and the browser's `FileReader`/`fetch` answer
 * through parameters.
 */
module SampleLibrary {

  import opened Wrappers
  import opened Text
  import opened Json
  import opened Samples
  import opened FirstOccurrence
  import opened DataUrl
  import opened SampleStore
  import opened SampleMerge

  /** The answer to a `fetch` of a sample's server URL. */
  datatype FetchReply =
    | NetworkError                      // `fetch` rejects
    | Response(ok: bool, blob: File)    // the status and the body as a blob

  /** The answer to `GET /api/voices`: `payload` is `None` where `res.json()` throws. */
  datatype ListReply =
    | Unreachable
    | Listed(ok: bool, payload: Option<Value<Sample>>)

  /** The answer to the upload `POST /api/voices`: `body` is `None` where `res.json()` throws or gives `null`. */
  datatype UploadReply =
    | UploadRejected                    // `fetch` rejects
    | Uploaded(ok: bool, body: Option<Sample>)

  /**
   * `fetchUrlToFile`: a file with the body's bytes and the given name, typed
   * by the blob's own type or else the caller's, as the `File` constructor
   * normalises it; a failed request or a status that is not ok is an error.
   */
  function FetchUrlToFile(reply: FetchReply, fileName: string, mime: string): (r: Result<File, FileError>)
    ensures reply.NetworkError? ==> r == Failure(NetworkFailure)
    ensures reply.Response? && !reply.ok ==> r == Failure(FetchRejected)
    ensures reply.Response? && reply.ok ==>
      r.Success? && r.value.bytes == reply.blob.bytes && r.value.name == fileName &&
      r.value.mediaType == FileType(if reply.blob.mediaType != "" then reply.blob.mediaType else mime)
  {
    match reply
    case NetworkError => Failure(NetworkFailure)
    case Response(ok, blob) =>
      if !ok then Failure(FetchRejected)
      else Success(File(blob.bytes, fileName, FileType(if blob.mediaType != "" then blob.mediaType else mime)))
  }

  /** `samples.find(item => item.id === id)`. */
  function FindFirst(s: seq<Sample>, id: string): (r: Option<Sample>)
    ensures r.None? <==> id !in Ids(s)
    ensures r.Some? ==> r.value in s && r.value.id == id
    ensures r.Some? ==> exists i :: 0 <= i < |s| && s[i] == r.value && forall j :: 0 <= j < i ==> s[j].id != id
  {
    if id in Ids(s) then
      var i := IndexOf(Ids(s), id);
      assert forall j :: 0 <= j < i ==> Ids(s)[..i][j] == s[j].id;
      Some(s[i])
    else None
  }

  /**
   * The name `addSample` gives a new sample: the trimmed custom name unless
   * that is blank, else the file's name, else `Voice Sample`; never empty.
   */
  function SampleName(customName: Option<string>, fileName: string): (r: string)
    ensures r != ""
    ensures customName.Some? && JsTrim(customName.value) != "" ==> r == JsTrim(customName.value)
    ensures (customName.None? || JsTrim(customName.value) == "") ==> r == if fileName != "" then fileName else "Voice Sample"
  {
    if customName.Some? && JsTrim(customName.value) != "" then JsTrim(customName.value)
    else if fileName != "" then fileName else "Voice Sample"
  }

  /** The name a rename gives: the trimmed new name, or the old one when that is blank. */
  function NewName(current: string, name: string): string {
    if JsTrim(name) != "" then JsTrim(name) else current
  }

  /** The list after `renameSample(id, name)`. */
  function Renamed(s: seq<Sample>, id: string, name: string): (r: seq<Sample>)
    ensures |r| == |s|
    ensures forall i :: 0 <= i < |s| && s[i].id != id ==> r[i] == s[i]
    ensures forall i :: 0 <= i < |s| && s[i].id == id ==> r[i] == s[i].(name := NewName(s[i].name, name))
  {
    seq(|s|, i requires 0 <= i < |s| => if s[i].id == id then s[i].(name := NewName(s[i].name, name)) else s[i])
  }

  /** The list after `deleteSample(id)`: the samples with another id, in order. */
  function Without(s: seq<Sample>, id: string): (r: seq<Sample>)
    ensures |r| <= |s|
    ensures forall i :: 0 <= i < |r| ==> r[i].id != id
    decreases |s|
  {
    if s == [] then []
    else
      var n := |s| - 1;
      if s[n].id == id then Without(s[..n], id) else Without(s[..n], id) + [s[n]]
  }

  /** Deleting keeps exactly the samples with another id, and the id is gone. */
  lemma {:induction false} WithoutMembers(s: seq<Sample>, id: string)
    ensures forall x :: x in Without(s, id) <==> x in s && x.id != id
    ensures id !in Ids(Without(s, id))
    decreases |s|
  {
    var r := Without(s, id);
    if s != [] {
      var n := |s| - 1;
      WithoutMembers(s[..n], id);
      assert s == s[..n] + [s[n]];
    }
    assert forall j :: 0 <= j < |r| ==> Ids(r)[j] == r[j].id;
  }

  /** Renaming keeps every id in its place. */
  lemma RenameKeepsIds(s: seq<Sample>, id: string, name: string)
    ensures Ids(Renamed(s, id, name)) == Ids(s)
  {
  }

  /** A blank new name changes nothing. */
  lemma RenameBlank(s: seq<Sample>, id: string, name: string)
    requires forall k :: 0 <= k < |name| ==> IsJsSpace(name[k])
    ensures Renamed(s, id, name) == s
  {
    StripEmpty(name, IsJsSpace);
  }

  /** Renaming an id that is not there changes nothing. */
  lemma RenameUnknown(s: seq<Sample>, id: string, name: string)
    requires id !in Ids(s)
    ensures Renamed(s, id, name) == s
  {
    assert forall i :: 0 <= i < |s| ==> Ids(s)[i] == s[i].id;
  }

  /** Renaming twice with the same name is renaming once. */
  lemma RenameIdempotent(s: seq<Sample>, id: string, name: string)
    ensures Renamed(Renamed(s, id, name), id, name) == Renamed(s, id, name)
  {
    var r := Renamed(s, id, name);
    var r2 := Renamed(r, id, name);
    forall i | 0 <= i < |s| ensures r2[i] == r[i] {
      if s[i].id == id {
        assert NewName(r[i].name, name) == r[i].name;
      }
    }
  }

  /** Deleting distributes over concatenation, so the samples kept stay in their order. */
  lemma {:induction false} WithoutAppend(a: seq<Sample>, b: seq<Sample>, id: string)
    ensures Without(a + b, id) == Without(a, id) + Without(b, id)
    decreases |b|
  {
    if b == [] {
      assert a + b == a;
    } else {
      var n := |b| - 1;
      assert (a + b)[..|a + b| - 1] == a + b[..n];
      assert (a + b)[|a + b| - 1] == b[n];
      WithoutAppend(a, b[..n], id);
    }
  }

  /** Deleting an id that is not there changes nothing. */
  lemma {:induction false} WithoutAbsent(s: seq<Sample>, id: string)
    requires id !in Ids(s)
    ensures Without(s, id) == s
    decreases |s|
  {
    if s != [] {
      var n := |s| - 1;
      var init := s[..n];
      assert Ids(s)[n] == s[n].id;
      assert Ids(init) == Ids(s)[..n];
      assert s[n].id != id;
      assert Without(s, id) == Without(init, id) + [s[n]];
      WithoutAbsent(init, id);
      assert s == init + [s[n]];
    }
  }

  /**
   * A sample deleted in the browser but still on the server comes back at
   * the next sync, as the server's record: the deleted inline copy does not.
   */
  lemma DeleteThenResync(server: seq<Sample>, prev: seq<Sample>, id: string)
    requires id in Ids(server)
    ensures id in Ids(Merged(server, Without(prev, id)))
    ensures forall i :: 0 <= i < |Merged(server, Without(prev, id))| && Merged(server, Without(prev, id))[i].id == id ==>
      Merged(server, Without(prev, id))[i] == LastWith(server, id)
  {
    var p := Without(prev, id);
    MergedMembers(server, p);
    MergedEntries(server, p);
  }

  /** The component's state: the sample list, the two readiness flags and the `localStorage` entry. */
  class AudioSampleProvider {
    var samples: seq<Sample>
    var isHydrated: bool
    var serverReady: bool
    /** The text stored under the `vaani_audio_samples_v1` key, `None` when there is none. */
    var stored: Option<string>

    /** The first render: the list is read from storage, and neither flag is set. */
    constructor(stored0: Option<string>, parse: Parser)
      ensures samples == ReadStoredSamples(stored0, parse)
      ensures !isHydrated && !serverReady && stored == stored0
    {
      samples := ReadStoredSamples(stored0, parse);
      isHydrated := false;
      serverReady := false;
      stored := stored0;
    }

    /** The mount effect: the list is read from storage again and the component is hydrated. */
    method Hydrate(parse: Parser)
      modifies this
      ensures samples == ReadStoredSamples(stored, parse) && isHydrated
      ensures serverReady == old(serverReady) && stored == old(stored)
    {
      samples := ReadStoredSamples(stored, parse);
      isHydrated := true;
    }

    /**
     * `syncFromServer`: an object reply whose `samples` is an array is
     * merged into the list; whatever happens, uploads are enabled afterwards.
     */
    method SyncFromServer(reply: ListReply)
      modifies this
      ensures serverReady
      ensures isHydrated == old(isHydrated) && stored == old(stored)
      ensures match reply
        case Listed(true, Some(Object(f))) =>
          if "samples" in f && f["samples"].Array? then samples == Merged(f["samples"].items, old(samples))
          else samples == old(samples)
        case _ => samples == old(samples)
    {
      if reply.Listed? && reply.ok && reply.payload.Some? {
        var doc := reply.payload.value;
        if doc.Object? && "samples" in doc.fields && Truthy(doc.fields["samples"]) && doc.fields["samples"].Array? {
          samples := Merge(doc.fields["samples"].items, samples);
        }
      }
      serverReady := true;
    }

    /** The persist effect: once hydrated, every state of the list is written to storage. */
    method PersistEffect(stringify: Serializer, writeOk: bool)
      modifies this
      ensures stored == if old(isHydrated) then PersistSamples(old(stored), samples, stringify, writeOk) else old(stored)
      ensures samples == old(samples) && isHydrated == old(isHydrated) && serverReady == old(serverReady)
    {
      if isHydrated {
        stored := PersistSamples(stored, samples, stringify, writeOk);
      }
    }

    /**
     * `addSample(file, customName)`. Without a file nothing happens. The
     * upload is attempted only once the server sync has finished, and
     * `posted` is the name sent with it. The new sample is the server's
     * record when the upload answered one, else a local record; it carries
     * the inline copy when the reader produced one and the server URL only
     * for a server record, and it is appended to the list.
     */
    method AddSample(file: Option<File>, customName: Option<string>, freshId: string, now: string,
                     upload: UploadReply, readerOk: bool)
      returns (r: Option<Sample>, posted: Option<string>)
      modifies this
      ensures file.None? ==> r.None? && posted.None? && samples == old(samples)
      ensures file.Some? ==>
        var f := file.value;
        var name := SampleName(customName, f.name);
        var fromServer := old(serverReady) && upload.Uploaded? && upload.ok && upload.body.Some?;
        var dataUrl := if readerOk then Some(ReadAsDataUrl(f.bytes, f.mediaType)) else None;
        && posted == (if old(serverReady) then Some(name) else None)
        && r.Some?
        && r.value == (if fromServer then upload.body.value.(dataUrl := dataUrl)
                       else Sample(freshId, name, |f.bytes|, f.mediaType, now, dataUrl, None))
        && samples == old(samples) + [r.value]
      ensures isHydrated == old(isHydrated) && serverReady == old(serverReady) && stored == old(stored)
    {
      if file.None? {
        return None, None;
      }
      var f := file.value;
      var name := SampleName(customName, f.name);
      var fallback := Sample(freshId, name, |f.bytes|, f.mediaType, now, None, None);
      var serverSample: Option<Sample> := None;
      posted := None;
      if serverReady {
        posted := Some(name);
        if upload.Uploaded? && upload.ok {
          serverSample := upload.body;
        }
      }
      var dataUrl: Option<string> := None;
      if readerOk {
        dataUrl := Some(ReadAsDataUrl(f.bytes, f.mediaType));
      }
      var sample: Sample;
      if serverSample.Some? {
        sample := serverSample.value.(dataUrl := dataUrl, url := serverSample.value.url);
      } else {
        sample := fallback.(dataUrl := dataUrl, url := None);
      }
      samples := samples + [sample];
      r := Some(sample);
    }

    /** `renameSample(id, name)`. */
    method RenameSample(id: string, name: string)
      modifies this
      ensures samples == Renamed(old(samples), id, name)
      ensures isHydrated == old(isHydrated) && serverReady == old(serverReady) && stored == old(stored)
    {
      samples := Renamed(samples, id, name);
    }

    /** `deleteSample(id)`. */
    method DeleteSample(id: string)
      modifies this
      ensures samples == Without(old(samples), id)
      ensures isHydrated == old(isHydrated) && serverReady == old(serverReady) && stored == old(stored)
    {
      samples := Without(samples, id);
    }

    /**
     * `getSampleFile(id)`: the first sample with that id is decoded from its
     * inline copy when it has one, else fetched from its server URL, and
     * `Success(None)` stands for the `null` an unknown id or a sample with
     * neither gives. `requested` is the URL fetched, if any.
     */
    method GetSampleFile(id: string, fetched: FetchReply) returns (r: Result<Option<File>, FileError>, requested: Option<string>)
      ensures id !in Ids(samples) ==> r == Success(None) && requested.None?
      ensures id in Ids(samples) ==>
        var s := FirstWith(samples, id);
        if Present(s.dataUrl) then
          requested.None? &&
          match DecodeDataUrl(s.dataUrl.value, s.name, s.mediaType)
          case Success(f) => r == Success(Some(f))
          case Failure(e) => r == Failure(e)
        else if Present(s.url) then
          requested == s.url &&
          match FetchUrlToFile(fetched, s.name, s.mediaType)
          case Success(f) => r == Success(Some(f))
          case Failure(e) => r == Failure(e)
        else r == Success(None) && requested.None?
    {
      requested := None;
      var found := FindFirst(samples, id);
      if found.None? {
        return Success(None), None;
      }
      var s := found.value;
      assert s == FirstWith(samples, id) by {
        var i := IndexOf(Ids(samples), id);
        assert Ids(samples)[i] == id;
        assert forall j :: 0 <= j < i ==> Ids(samples)[..i][j] == samples[j].id;
      }
      if Present(s.dataUrl) {
        var d := DataUrlToFile(s.dataUrl.value, s.name, s.mediaType);
        match d
        case Success(f) => r := Success(Some(f));
        case Failure(e) => r := Failure(e);
      } else if Present(s.url) {
        requested := s.url;
        match FetchUrlToFile(fetched, s.name, s.mediaType)
        case Success(f) => r := Success(Some(f));
        case Failure(e) => r := Failure(e);
      } else {
        r := Success(None);
      }
    }

    /**
     * The inline copy round trip: a file added while the reader works comes
     * back from `getSampleFile` with the same bytes, decoded locally, when
     * the new sample's id was not in the list before. Its type is the
     * sample's own type, normalised; a sample without one gets the type
     * written into the data URL, `application/octet-stream` for a file of
     * unknown type.
     */
    method AddThenGet(file: File, customName: Option<string>, freshId: string, now: string,
                      upload: UploadReply, fetched: FetchReply)
      returns (added: Option<Sample>, got: Result<Option<File>, FileError>, requested: Option<string>)
      requires ',' !in file.mediaType
      modifies this
      ensures added.Some?
      ensures added.value.id !in Ids(old(samples)) ==>
        got.Success? && got.value.Some? && got.value.value.bytes == file.bytes &&
        got.value.value.name == added.value.name && requested.None?
      ensures added.value.id !in Ids(old(samples)) && added.value.mediaType != "" ==>
        got.value.value.mediaType == FileType(added.value.mediaType)
      ensures added.value.id !in Ids(old(samples)) && added.value.mediaType == "" && ';' !in file.mediaType &&
              (forall i :: 0 <= i < |file.mediaType| ==> !IsLineTerminator(file.mediaType[i])) ==>
        got.value.value.mediaType ==
          if file.mediaType == "" then "application/octet-stream" else FileType(file.mediaType)
    {
      ghost var before := samples;
      var posted;
      added, posted := AddSample(Some(file), customName, freshId, now, upload, true);
      var sample := added.value;
      got, requested := GetSampleFile(sample.id, fetched);
      if sample.id !in Ids(before) {
        assert Ids(before + [sample])[|before|] == sample.id;
        FirstWithAppend(before, sample, sample.id);
        assert FirstWith(samples, sample.id) == sample;
        DataUrlRoundTrip(file.bytes, file.mediaType, sample.name, sample.mediaType);
        if sample.mediaType == "" && ';' !in file.mediaType &&
           forall i :: 0 <= i < |file.mediaType| ==> !IsLineTerminator(file.mediaType[i]) {
          MediaTypeRoundTrip(file.bytes, file.mediaType);
          OctetStreamPlain();
          FileTypeKeepsNormal("application/octet-stream");
        }
      }
    }
  }
}
