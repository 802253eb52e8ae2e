# Voice-sample library and voice catalog

This project models the voice-sample library of a text-to-speech web
application, along with the small amount of request handling on the server
that goes with it.

**The browser side** is the `AudioSampleProvider` React component in
`src/context/AudioSampleContext.jsx`. It keeps an ordered list of voice
samples. Each sample has an id, a name, a size, a media type and a creation
time. It may also hold an inline `data:` URL copy of its audio and a server
URL.

- The list is cached in `localStorage`.
- On mount, the list is reconciled once with the server catalog. A sample
  the server lists is replaced by the server's whole record, and only a
  missing inline copy is carried over from the local record. Local-only
  samples are kept.
- The component can add, rename and delete samples.
- It retrieves a sample's audio from the inline copy first and from the
  server second.
- The inline copy is made by the browser's `readAsDataURL` and read back by
  `dataUrlToFile`, which uses base 64 (section 4 of RFC 4648) inside an
  RFC 2397 `data:` URL.

**The server side** is in `backend/app.py`:

- the voice catalog: a `metadata.json` list of records plus a directory of
  audio files, with the upload and download routes;
- the extension whitelist;
- the text validation of the TTS route;
- the way the transcription route assembles Whisper's segments into a
  transcript.

The modules follow the program's structure:

- Shared modules:
  - `Wrappers`: Option and Result.
  - `Json`: parsed documents whose arrays hold records.
  - `Text`: characters, bytes, and the two languages' whitespace trimming.
- Browser modules:
  - `Samples`: the sample record and `File`.
  - `Base64`: encoding, and the forgiving decode that `atob` performs.
  - `DataUrl`: the codec.
  - `SampleStore`: the `localStorage` tier.
  - `FirstOccurrence`: the key order of a JavaScript `Map`.
  - `SampleMerge`: the reconciliation.
  - `SampleLibrary`: the component as the class `AudioSampleProvider`.
- Server modules:
  - `VoiceCatalog`: the catalog, with the class `VoiceLibrary` holding the
    metadata file and the audio files.
  - `SpeechRequests`: TTS text validation and transcript assembly.

Some things become parameters:

- the browser and network APIs: `fetch` replies, whether `FileReader`
  succeeds, `JSON.parse`/`JSON.stringify`, and `crypto.randomUUID` (given as
  a fresh id);
- the server's `json.load`/`json.dump`, `secure_filename`, `uuid4` and the
  clock;
- whether a file save or a metadata write succeeds.

Two things are stated as hypotheses of the round-trip lemmas:

- that the JSON parser inverts the serializer;
- that a generated id is new.

Three behaviours of the code are worth stating plainly:

- **The merged list is persisted.** Once the component is hydrated, the
  persist effect writes the merged list, server-only entries included.
- **`serverReady` is set even after a failure.** It is set after the sync
  attempt whether that attempt succeeded or failed, and it gates the upload.
- **Delete is local only.** It filters the in-memory list. A sample the
  server still holds comes back at the next sync, as the server's record
  (`SampleLibrary.DeleteThenResync`).

## Model

| member | source | states |
|---|---|---|
| Text.Strip | backend/app.py:447 | the stripped text is no longer than the input and is empty or neither starts nor ends with a space character; StripSlice states which characters it keeps |
| Text.StripSlice | backend/app.py:447 | the stripped text is the run of the input that starts after its leading spaces, character by character, and only spaces follow that run |
| Text.StripEmpty | src/context/AudioSampleContext.jsx:156 | stripping leaves nothing exactly when every character of the input is a space character (both directions) |
| Text.AsciiLower | backend/app.py:261 | same length; ASCII capitals become lower case and every other character is kept (a definition; AllowedFileOf and AllowedFileSpec state the whitelist verdict built on it) |
| Text.TakeUntil | src/context/AudioSampleContext.jsx:18 | the result is the longest prefix without the separator, and the separator follows it when the input is longer |
| Text.AfterLast | src/context/AudioSampleContext.jsx:18 | the result is the longest suffix without the separator, and the separator precedes it when the input is longer (the split at the last comma of the corrected decode) |
| Text.AfterLastSplit | src/context/AudioSampleContext.jsx:18 | whatever precedes a last separator, the text after it is what the split at the last separator gives |
| Base64.Value | src/context/AudioSampleContext.jsx:21 | an alphabet character's value is below 64 and maps back to that character |
| Base64.Quad | src/context/AudioSampleContext.jsx:13 | three bytes become four alphabet characters |
| Base64.EncodeGroups | src/context/AudioSampleContext.jsx:13 | the unpadded encoding uses only alphabet characters: four per full group of three bytes, then two or three for a final partial group |
| Base64.Encode | src/context/AudioSampleContext.jsx:13 | the unpadded groups followed by the `=` padding; its meaning is DecodeEncode, and PaddingOff and WhitespaceFree describe its shape |
| Base64.ShortTestVectors | src/context/AudioSampleContext.jsx:13 | `f`, `fo` and `foo` encode to `Zg==`, `Zm8=` and `Zm9v`, the test vectors of section 10 of RFC 4648 |
| Base64.FoobarTestVector | src/context/AudioSampleContext.jsx:13 | `foobar` encodes to `Zm9vYmFy`, the longest test vector of section 10 of RFC 4648 |
| Base64.GroupsLength | src/context/AudioSampleContext.jsx:13 | the unpadded text has 0, 2 or 3 characters beyond its last full group of four, for 0, 1 or 2 leftover bytes |
| Base64.RemoveWhitespace | src/context/AudioSampleContext.jsx:21 | what `atob` keeps contains no ASCII whitespace and only characters of the input; RemoveWhitespaceChar and RemoveWhitespaceAppend pin it down |
| Base64.RemoveWhitespaceChar | src/context/AudioSampleContext.jsx:21 | a single whitespace character is dropped and any other character kept |
| Base64.RemoveWhitespaceAppend | src/context/AudioSampleContext.jsx:21 | removal on a concatenation is the removal on each part, so with RemoveWhitespaceChar every non-whitespace character is kept, in order |
| Base64.Atob | src/context/AudioSampleContext.jsx:21 | `atob` succeeds exactly when the forgiving decode does, and then returns one character per decoded byte, whose code is that byte (so below 256) |
| Base64.FirstByte | src/context/AudioSampleContext.jsx:13-21 | the first byte of a group is rebuilt from its first two 6-bit values |
| Base64.SecondByte | src/context/AudioSampleContext.jsx:13-21 | the second byte of a group is rebuilt from its middle two 6-bit values |
| Base64.ThirdByte | src/context/AudioSampleContext.jsx:13-21 | the third byte of a group is rebuilt from its last two 6-bit values |
| Base64.QuadTriple | src/context/AudioSampleContext.jsx:13-21 | decoding the four characters of a full group gives back its three bytes |
| Base64.FullGroupStep | src/context/AudioSampleContext.jsx:13-21 | decoding the text of three or more bytes yields their first three bytes, then the decoding of the rest |
| Base64.PartialTwo | src/context/AudioSampleContext.jsx:13-21 | a final group of two bytes is written as three characters that decode to those two bytes |
| Base64.PartialOne | src/context/AudioSampleContext.jsx:13-21 | a final group of one byte is written as two characters that decode to that byte |
| Base64.GroupsRoundTrip | src/context/AudioSampleContext.jsx:13-21 | decoding the unpadded groups of any bytes gives back those bytes |
| Base64.PaddingOff | src/context/AudioSampleContext.jsx:21 | stripping the padding removes exactly the `=` characters the encoder appended |
| Base64.Decode | src/context/AudioSampleContext.jsx:21 | the forgiving decode: whitespace dropped, one or two final `=` removed at a multiple of four, rejected on a leftover single character or a character outside the alphabet; DecodeEncode states that it inverts Encode |
| Base64.WhitespaceFree | src/context/AudioSampleContext.jsx:21 | encoded text has no whitespace for `atob` to drop |
| Base64.DecodeEncode | src/context/AudioSampleContext.jsx:13-21 | for all bytes, decoding their base 64 text returns them, and `atob` returns their binary string |
| DataUrl.UpToSemicolon | src/context/AudioSampleContext.jsx:19 | in both directions: a match is a prefix of the text, followed by `;`, with no `;` or line terminator in it; no match means every `;` of the text has a line terminator before it |
| DataUrl.ReadAsDataUrl | src/context/AudioSampleContext.jsx:8-15 | the URL `readAsDataURL` produces: `data:`, the type (or `application/octet-stream`), `;base64,` and the base 64 text; DataUrlRoundTrip and DataUrlTypeRoundTrip give its meaning |
| DataUrl.Header | src/context/AudioSampleContext.jsx:18 | `split(',')[0]`: the text before the first comma (TakeUntil's contract) |
| DataUrl.Payload | src/context/AudioSampleContext.jsx:18-21 | the second piece of `split(',')`, or `''` when there is none: the text between the first and second comma, `""` without a comma; SplitWritten and NoPayloadNoBytes give its meaning |
| DataUrl.MimeMatch | src/context/AudioSampleContext.jsx:19 | the capture of `/:(.*?);/` at the leftmost colon where it matches: a header without `;` gives no match, and a match holds no `;`; HeaderMime and MimeMatchSkip give the matching case |
| DataUrl.HeaderType | src/context/AudioSampleContext.jsx:20 | the type chosen from a given header: the explicit type if non-empty, else the non-empty match, else `audio/wav`; never empty |
| DataUrl.NoSemicolonFallback | src/context/AudioSampleContext.jsx:19-20 | a URL whose header has no `;` (such as `data:audio/wav,…`) and no explicit type gives a file typed `audio/wav` |
| DataUrl.MediaType | src/context/AudioSampleContext.jsx:19-20 | the file type is the explicit type if non-empty, else the non-empty mime of the header, else `audio/wav`; it is never empty |
| DataUrl.Uint8Bytes | src/context/AudioSampleContext.jsx:22-26 | one byte per character, holding that character's code modulo 256 (the closed form CopyCodes is proved equal to) |
| DataUrl.DecodeDataUrl | src/context/AudioSampleContext.jsx:17-28 | it fails with InvalidBase64 exactly when `atob` of the payload throws; otherwise the file has as many bytes as the decoded payload, byte `i` is character code `i`, the name is as given and the type is the chosen type as the `File` constructor normalises it |
| DataUrl.CopyCodes | src/context/AudioSampleContext.jsx:22-26 | the byte-copy loop into a `Uint8Array` yields one byte per character, holding its code modulo 256 |
| DataUrl.DataUrlToFile | src/context/AudioSampleContext.jsx:17-28 | the method that decodes the payload and copies it into the file computes exactly `DecodeDataUrl` |
| DataUrl.NoPayloadNoBytes | src/context/AudioSampleContext.jsx:18-21 | a URL without a comma decodes to a file of zero bytes |
| DataUrl.NoComma | src/context/AudioSampleContext.jsx:13 | base 64 text contains no comma |
| DataUrl.TakeUntilSplit | src/context/AudioSampleContext.jsx:18 | splitting at the first comma finds the text before it |
| DataUrl.TakeUntilAll | src/context/AudioSampleContext.jsx:18 | text without a comma is one piece |
| DataUrl.SplitWritten | src/context/AudioSampleContext.jsx:13-21 | a URL from `readAsDataURL` splits into its `data:<mime>;base64` header and the base 64 text of the bytes |
| DataUrl.DataUrlRoundTrip | src/context/AudioSampleContext.jsx:8-28 | for any bytes and any media type without a comma, decoding the data URL written for the bytes gives back the same bytes under the given name |
| DataUrl.UpToSemicolonOf | src/context/AudioSampleContext.jsx:19 | the lazy group stops at the first `;` |
| DataUrl.MimeMatchSkip | src/context/AudioSampleContext.jsx:19 | the regular expression search skips a prefix without colons |
| DataUrl.HeaderMime | src/context/AudioSampleContext.jsx:19 | the mime found is the text between the first colon and the next `;` |
| DataUrl.MediaTypeRoundTrip | src/context/AudioSampleContext.jsx:8-20 | a written URL's header gives back the file's type when the type has no `;`, `,` or line break, and unknown types come back as `application/octet-stream` |
| DataUrl.DataUrlTypeRoundTrip | src/context/AudioSampleContext.jsx:8-28 | a file whose type is in the form a `File` keeps it, with no `;` or `,`, decodes from its data URL under that same type; a file of unknown type comes back as `application/octet-stream` |
| DataUrl.CommaTypeCutsPayload | src/context/AudioSampleContext.jsx:8-21 | as written, for a media type `a,b` the payload `split(',')[1]` is `b;base64`, part of the type |
| DataUrl.SemicolonRejected | src/context/AudioSampleContext.jsx:21 | `atob` throws on any text holding a `;` |
| DataUrl.CommaTypeBreaksDecode | src/context/AudioSampleContext.jsx:8-28 | as written, every file whose type holds one comma fails to decode from its own data URL, whatever its bytes |
| DataUrl.CommaTypeExample | src/context/AudioSampleContext.jsx:8-28 | as written, an empty file of type `a,b` fails to decode from its own data URL |
| DataUrl.DecodeAtLastComma | src/context/AudioSampleContext.jsx:17-28 | the corrected decode: the same contract as DecodeDataUrl with the URL split at its last comma |
| DataUrl.LastCommaSplit | src/context/AudioSampleContext.jsx:18 | splitting at the last comma undoes joining any header and comma-free payload with a comma |
| DataUrl.LastCommaSplitWritten | src/context/AudioSampleContext.jsx:8-21 | split at the last comma, a written URL gives its `data:<mime>;base64` header and the base 64 text of the bytes, for every media type |
| DataUrl.LastCommaRoundTrip | src/context/AudioSampleContext.jsx:8-28 | corrected: the bytes and name come back for every media type, commas included |
| DataUrl.LastCommaTypeRoundTrip | src/context/AudioSampleContext.jsx:8-28 | corrected: a normal type with no `;` comes back, commas included; unknown types come back as `application/octet-stream` |
| Samples.Ids | src/context/AudioSampleContext.jsx:165 | the ids of a list, position by position (a definition used by the lookup and merge contracts) |
| Samples.FileType | src/context/AudioSampleContext.jsx:27-34 | the type a `File` keeps is always in normal form: the ASCII-lower-cased type when every character is in U+0020 to U+007E, `""` otherwise |
| Samples.FileTypeKeepsNormal | src/context/AudioSampleContext.jsx:27-34 | a type already in normal form is kept, so normalising twice is normalising once |
| SampleStore.ReadStoredSamples | src/context/AudioSampleContext.jsx:37-54 | a missing or empty entry and a parse error give `[]`; a non-empty result is the parsed bare array or the parsed object's `samples` array; it never fails |
| SampleStore.ReadsBothShapes | src/context/AudioSampleContext.jsx:40-48 | a bare array and an object with a `samples` array, whatever its other keys, both read as that array |
| SampleStore.OtherShapesEmpty | src/context/AudioSampleContext.jsx:42-49 | any other parsed document reads as `[]` |
| SampleStore.PersistSamples | src/context/AudioSampleContext.jsx:56-63 | a successful write stores the bare JSON array; a failed write leaves the entry as it was |
| SampleStore.PersistThenRead | src/context/AudioSampleContext.jsx:37-63 | after a successful write, reading gives back the same list, provided the parser inverts the serializer |
| FirstOccurrence.IndexOf | src/context/AudioSampleContext.jsx:165 | the chosen position holds the element and no earlier position does |
| FirstOccurrence.IndexOfAppend | src/context/AudioSampleContext.jsx:83-93 | appending does not move a first occurrence, and a new element is first found at the end |
| FirstOccurrence.ExtendSpec | src/context/AudioSampleContext.jsx:83-94 | a `Map` fed keys has no repeated keys, keeps its earlier keys first, holds exactly the old and new keys, and lists the new ones in order of first appearance |
| FirstOccurrence.ExtendAppend | src/context/AudioSampleContext.jsx:84-93 | feeding keys in two runs gives the same order as one run over both |
| FirstOccurrence.ExtendCovered | src/context/AudioSampleContext.jsx:88 | keys already present change nothing |
| FirstOccurrence.ExtendFresh | src/context/AudioSampleContext.jsx:88-89 | new, distinct keys are appended as they come |
| FirstOccurrence.ExtendTwice | src/context/AudioSampleContext.jsx:87-94 | feeding the keys of an extension again adds nothing |
| SampleMerge.Put | src/context/AudioSampleContext.jsx:85-91 | `map.set` keeps the map well formed, gives the key its new value, keeps an old key in place and puts a new key last |
| SampleMerge.Values | src/context/AudioSampleContext.jsx:94 | `Array.from(map.values())` lists the entries in key order, so its ids are the keys |
| SampleMerge.LoadServer | src/context/AudioSampleContext.jsx:84-86 | the first loop builds a well-formed map |
| SampleMerge.AbsorbOne | src/context/AudioSampleContext.jsx:87-93 | one step of the second loop keeps the map well formed |
| SampleMerge.Absorb | src/context/AudioSampleContext.jsx:87-93 | the second loop keeps the map well formed |
| SampleMerge.Merged | src/context/AudioSampleContext.jsx:82-95 | the list `syncFromServer` installs: the values of the map after both loops; MergedIds, MergedEntry, MergedMembers, MergedOrder and MergeIdempotent give its meaning |
| SampleMerge.LoadServerLoop | src/context/AudioSampleContext.jsx:84-86 | the first `forEach`, setting each server sample under its id, builds exactly the map `LoadServer` describes |
| SampleMerge.AbsorbLoop | src/context/AudioSampleContext.jsx:87-93 | the second `forEach`, adding unknown local ids and filling missing inline copies, builds exactly the map `Absorb` describes |
| SampleMerge.Merge | src/context/AudioSampleContext.jsx:82-94 | the two loops filling a map, then taking its values, compute exactly the merged list |
| SampleMerge.LastIndex | src/context/AudioSampleContext.jsx:84-86 | the position of the last server sample with an id |
| SampleMerge.FirstUrlIndex | src/context/AudioSampleContext.jsx:90-91 | the first local sample with the id that has a usable `dataUrl`, and none before it; none at all when there is no such sample |
| SampleMerge.IdsSplit | src/context/AudioSampleContext.jsx:84 | the ids of a list are those of its prefix followed by the last id |
| SampleMerge.FirstWithAppend | src/context/AudioSampleContext.jsx:88-89 | appending does not change the first record of an id already present, and is the first record of a new id |
| SampleMerge.LoadServerSpec | src/context/AudioSampleContext.jsx:84-86 | after the first loop, the keys are the server ids, each once in order of first appearance, each holding its last server sample |
| SampleMerge.FirstUrlAppend | src/context/AudioSampleContext.jsx:90 | the first usable local `dataUrl` after appending one sample |
| SampleMerge.AbsorbStep | src/context/AudioSampleContext.jsx:87-93 | one more local sample keeps the second loop's description true |
| SampleMerge.AbsorbStepAt | src/context/AudioSampleContext.jsx:88-92 | the same, for the entry of one id |
| SampleMerge.AbsorbSpec | src/context/AudioSampleContext.jsx:87-93 | the second loop appends the unseen local ids in order of first appearance, and every entry is its base record backfilled with the first usable local `dataUrl` |
| SampleMerge.MergedIds | src/context/AudioSampleContext.jsx:82-94 | the merged ids are the server ids followed by the local ids, each kept once at its first appearance |
| SampleMerge.MergedEntries | src/context/AudioSampleContext.jsx:82-94 | every merged entry is the reference entry for its id |
| SampleMerge.MergedMembers | src/context/AudioSampleContext.jsx:82-94 | every id of either list appears in the merged list exactly once, and no other id does |
| SampleMerge.MergedOrder | src/context/AudioSampleContext.jsx:84-94 | the server ids come first in server order; after them come the local-only ids in order of first local appearance |
| SampleMerge.MergedEntry | src/context/AudioSampleContext.jsx:85-91 | an id on the server gets its last server record, otherwise its first local record; a record without a usable `dataUrl` takes the first usable local one, and nothing else is taken from the local copy |
| SampleMerge.UniqueEntry | src/context/AudioSampleContext.jsx:88-90 | in a list without repeated ids, an id's first record and first usable `dataUrl` are those of its only record |
| SampleMerge.ExpectedStable | src/context/AudioSampleContext.jsx:82-94 | merging the server list into a merged list reproduces each entry |
| SampleMerge.MergeIdempotent | src/context/AudioSampleContext.jsx:82-94 | merging the same server list into the merged list gives the merged list again |
| SampleMerge.MergedIdsStable | src/context/AudioSampleContext.jsx:82-94 | a second merge keeps the id order of the first |
| SampleLibrary.FetchUrlToFile | src/context/AudioSampleContext.jsx:30-35 | a network failure and a status that is not ok are errors; otherwise the file has the body's bytes, the given name, and the blob's type or else the caller's, as the `File` constructor normalises it |
| SampleLibrary.FindFirst | src/context/AudioSampleContext.jsx:165 | nothing is found exactly when the id is absent; otherwise the first sample with that id |
| SampleLibrary.SampleName | src/context/AudioSampleContext.jsx:116 | the new sample's name is never empty: the trimmed custom name when it is not blank, else the file name, else `Voice Sample` |
| SampleLibrary.Renamed | src/context/AudioSampleContext.jsx:154-158 | same length; samples with another id are unchanged; samples with the id get the trimmed name, or keep their own when the trimmed name is empty |
| SampleLibrary.Without | src/context/AudioSampleContext.jsx:160-162 | no kept sample has the id, and the list does not grow |
| SampleLibrary.WithoutMembers | src/context/AudioSampleContext.jsx:160-162 | the kept samples are exactly the samples with another id, and the id is gone (both directions) |
| SampleLibrary.RenameKeepsIds | src/context/AudioSampleContext.jsx:155-157 | renaming keeps every id in its place |
| SampleLibrary.RenameBlank | src/context/AudioSampleContext.jsx:156 | a name that is blank after trimming changes nothing |
| SampleLibrary.RenameUnknown | src/context/AudioSampleContext.jsx:155-157 | renaming an unknown id changes nothing |
| SampleLibrary.RenameIdempotent | src/context/AudioSampleContext.jsx:155-157 | renaming twice with the same name is renaming once |
| SampleLibrary.WithoutAppend | src/context/AudioSampleContext.jsx:161 | delete distributes over concatenation, so the kept samples stay in order |
| SampleLibrary.WithoutAbsent | src/context/AudioSampleContext.jsx:161 | deleting an unknown id changes nothing |
| SampleLibrary.DeleteThenResync | src/context/AudioSampleContext.jsx:75-104 | a sample deleted locally but still on the server is back after the next sync, as the server's last record for that id |
| SampleLibrary.AudioSampleProvider.constructor | src/context/AudioSampleContext.jsx:66-68 | the first render reads the list from storage, with neither flag set |
| SampleLibrary.AudioSampleProvider.Hydrate | src/context/AudioSampleContext.jsx:70-73 | the mount effect rereads storage and sets `isHydrated`, and nothing else changes |
| SampleLibrary.AudioSampleProvider.SyncFromServer | src/context/AudioSampleContext.jsx:75-104 | an ok object reply with a `samples` array replaces the list by the merge with the previous list; any failure leaves it unchanged; `serverReady` is set in every case |
| SampleLibrary.AudioSampleProvider.PersistEffect | src/context/AudioSampleContext.jsx:106-110 | once hydrated, the current list is written to storage, and a failed write is swallowed; before that, storage is untouched |
| SampleLibrary.AudioSampleProvider.AddSample | src/context/AudioSampleContext.jsx:112-152 | no file changes nothing; otherwise exactly one record is appended and the old entries are kept; the name is the trimmed custom name, else the file name, else `Voice Sample`; the upload is posted only when `serverReady`; a server record (with its URL) is used only after an ok answer with a body; the inline copy is absent when encoding failed |
| SampleLibrary.AudioSampleProvider.RenameSample | src/context/AudioSampleContext.jsx:154-158 | the list becomes `Renamed` of the old list, and the flags and storage are unchanged |
| SampleLibrary.AudioSampleProvider.DeleteSample | src/context/AudioSampleContext.jsx:160-162 | the list becomes `Without` of the old list, and the flags and storage are unchanged |
| SampleLibrary.AudioSampleProvider.GetSampleFile | src/context/AudioSampleContext.jsx:164-174 | an unknown id gives `null`; the first sample with the id is decoded from its inline copy when it has one, with no fetch; otherwise its URL is fetched and a failed or not-ok fetch is an error; a sample with neither gives `null` |
| SampleLibrary.AudioSampleProvider.AddThenGet | src/context/AudioSampleContext.jsx:112-174 | a file whose media type has no comma, added while the reader works, comes back from `getSampleFile` with the same bytes and name, decoded locally with no fetch, when its id was new; its type is the sample's own type normalised, or, for a sample without one, the file's type (`application/octet-stream` when unknown) when that has no `;` or line break |
| VoiceCatalog.LastIndexOf | backend/app.py:261 | the position of the last occurrence, with none after it; none exactly when the character is absent |
| VoiceCatalog.LastIndexOfSplit | backend/app.py:261 | `rsplit('.', 1)` splits at the last dot |
| VoiceCatalog.AllowedFile | backend/app.py:260-261 | `allowed_file`: a dot, and the lower-cased text after the last one whitelisted; AllowedFileSpec states this in both directions |
| VoiceCatalog.AllowedFileSplit | backend/app.py:260-261 | an allowed name splits at a dot into a base and a dot-free extension whose lower-cased form is whitelisted |
| VoiceCatalog.AllowedFileOf | backend/app.py:242-261 | `base.ext` with a dot-free `ext` is allowed exactly when the lower-cased `ext` is `wav`, `mp3`, `flac`, `m4a` or `ogg` |
| VoiceCatalog.AllowedFileSpec | backend/app.py:260-261 | a name is allowed exactly when it is `base.ext` with a dot-free `ext` whose lower-cased form is whitelisted (both directions) |
| VoiceCatalog.Suffix | backend/app.py:621 | `Path.suffix` is empty, or it starts at the last dot, is a proper end of the name, and has no other dot; it is non-empty exactly when the last dot is neither the first nor the last character, and then it is the text from that dot |
| VoiceCatalog.SuffixOf | backend/app.py:621 | `base.ext` with a non-empty base and a non-empty dot-free `ext` has suffix `.ext` |
| VoiceCatalog.DecodeLibrary | backend/app.py:209-220 | a missing or unreadable file gives `[]`; a list is taken as is; an object gives its `samples` value, or `[]` without that key; any other document gives `[]` |
| VoiceCatalog.VoiceLibrary.constructor | backend/app.py:205-207 | the library starts from the given metadata file contents and audio files |
| VoiceCatalog.WrittenMetadata | backend/app.py:222-228 | a complete write stores the list wrapped under `samples`; a file that could not be opened is left as it was; a write cut off holds a prefix of the text |
| VoiceCatalog.WriteThenRead | backend/app.py:209-228 | a list written completely reads back as the same list, provided the loader inverts the dumper |
| VoiceCatalog.NewRecord | backend/app.py:620-635 | the stored name is the id plus the suffix (`.wav` without one); the name is the form name, else the sanitised file name, else `Voice Sample`; the type is the upload's or `audio/wav`; the size is the byte count; the URL is `/api/voices/<id>/file` |
| VoiceCatalog.StoredNameKeepsExtension | backend/app.py:620-623 | an upload sanitised to `base.ext` is stored as `<id>.ext` |
| VoiceCatalog.FirstMatch | backend/app.py:650 | the first position with the id, with none before it; none exactly when no record has it |
| VoiceCatalog.FindRecord | backend/app.py:649-652 | in a list, the first record with the id, or none exactly when no record has it; an empty object or string finds nothing; any other document raises |
| VoiceCatalog.FindAppended | backend/app.py:638-652 | a record appended under a new id is what a later lookup of that id finds |
| VoiceCatalog.VoiceLibrary.UploadVoiceSample | backend/app.py:611-645 | a missing `voice` field or an empty file name gives 400 and changes nothing; a failed save gives 500 and changes nothing; otherwise the file is stored under the record's name, and a list library gets exactly one record appended at the end with 201 returned, while a library that is not a list gives 500 with the file kept |
| VoiceCatalog.UnreadableLibraryFindsNothing | backend/app.py:209-220 | a missing or unreadable metadata file reads as `[]`, so every lookup finds no record (a 404, not a 500) |
| VoiceCatalog.VoiceLibrary.GetVoiceSampleFile | backend/app.py:647-663 | the first record with the id is served, typed by the record or `audio/wav` and named by the record or `voice-sample.wav`; an unknown id and a missing file give 404, and so does any id when the metadata file is missing or unreadable, since the library then reads as `[]`; a `samples` value that is not a list (other than an empty object or string) or a record without a file name gives 500 |
| VoiceCatalog.UploadThenFetch | backend/app.py:611-663 | once an upload under a new id has been written completely, fetching that id serves the uploaded bytes under the record's type and name, provided the loader inverts the dumper on wrapped record lists |
| SpeechRequests.CheckTtsText | backend/app.py:447-452 | the text stripped of whitespace (empty when missing) is rejected with 400 `Text is required` when empty and with 400 `Text too long (max 10000 characters)` when longer than 10000 characters; it is accepted, stripped, exactly when neither holds |
| SpeechRequests.CheckTtsTextStable | backend/app.py:447-452 | accepted text has no surrounding whitespace, so checking it again accepts it unchanged |
| SpeechRequests.SeedToApply | backend/app.py:474-475 | a seed is applied exactly when it is non-zero |
| SpeechRequests.TranscriptionOptions | backend/app.py:339-346 | voice-activity filtering and beam size 5 always; the language only when non-empty; the task only when it is `transcribe` or `translate` |
| SpeechRequests.StrippedTextsAt | backend/app.py:352-353 | the stripped text of each segment, in order |
| SpeechRequests.Assembled | backend/app.py:350-363 | the `assembled_segments` list; AssembledAt states its entries |
| SpeechRequests.Spoken | backend/app.py:352-355 | the `collected_text` list; SpokenEmpty and SpokenBare state its meaning |
| SpeechRequests.JoinSpaces | backend/app.py:366 | `' '.join(parts)`; JoinedIsStripped states what it gives on stripped parts |
| SpeechRequests.AssembledAt | backend/app.py:350-363 | every segment, empty ones included, appears in order with its text stripped |
| SpeechRequests.NonEmptyEmpty | backend/app.py:354-355 | no text is collected exactly when every stripped text is empty |
| SpeechRequests.NonEmptyBare | backend/app.py:354-355 | texts kept from empty-or-unpadded texts are all unpadded |
| SpeechRequests.SpokenEmpty | backend/app.py:352-355 | nothing is collected exactly when every segment is whitespace only |
| SpeechRequests.SpokenBare | backend/app.py:352-355 | every collected text is non-empty with no surrounding whitespace |
| SpeechRequests.JoinedIsStripped | backend/app.py:366 | joining unpadded parts with single spaces gives an unpadded text, or `""` for no parts |
| SpeechRequests.TranscriptText | backend/app.py:350-366 | the transcript text is empty exactly when every segment is whitespace only, and it has no surrounding whitespace |
| SpeechRequests.PrefixStep | backend/app.py:352-363 | one more segment appends its stripped copy to the segment list, and its stripped text to the collected texts exactly when that text is not empty |
| SpeechRequests.AssembleTranscript | backend/app.py:336-371 | the loop keeps every segment in order with its text stripped; the text is the stripped non-empty segment texts joined by single spaces; language, probability and duration come from the recording info |

## Left out

- Asynchrony: the React effects, the `await` points, and a sync racing an
  upload or the persist effect are modelled as sequential method calls.
- React plumbing: the closures `addSample` and `getSampleFile` capture are
  modelled as reads of the object's current fields.
- The server-side-rendering guard (`typeof window === 'undefined'`) is left
  out, and the model assumes a browser. The `console.warn` logging is left out.
- Browser and network APIs become parameters: `fetch`, `FileReader`,
  `localStorage`, `JSON.parse`/`JSON.stringify`, `crypto.randomUUID` and
  `Date`. The `File` constructor is modelled: it keeps the bytes and the
  name, and normalises the type (`Samples.FileType`). Whether `FileReader`
  succeeds is a boolean, and a fetch or list reply is a datatype.
- The `Date.now()`/`Math.random()` fallback id is covered by the fresh-id
  parameter.
- SampleLibrary.AudioSampleProvider.SyncFromServer: when `samples` is truthy
  but not an array, it leaves the list unchanged. In the source, `forEach`
  throws inside the state updater, outside the `try`.
- JSON records are typed in the model. A stored list, a server list or an
  upload body whose elements are not sample records, or whose fields are not
  strings, is not represented. The same goes for a server metadata list whose
  elements are not objects, where `.get` raises. A sample field that is
  `undefined` is represented as `""`. So the default arguments `sample.wav`
  and `audio/wav` of `dataUrlToFile`/`fetchUrlToFile` are not represented
  separately from an empty name or type.
- SampleLibrary.AudioSampleProvider.AddSample: `res.json()` on an ok upload
  answer yields either a sample record or nothing. A non-object body spread
  into the sample is not modelled.
- VoiceCatalog.AllowedFile: lower-cases with ASCII rules, not Python's full
  Unicode `lower()`. The two agree on whether the result is one of the five
  lower-case ASCII extensions.
- DataUrl.ReadAsDataUrl: a file of unknown type is written as
  `data:application/octet-stream;base64,…`, the choice browser engines make.
  The File API text instead writes such a URL without a media type; under
  that reading `MediaType` would give `audio/wav` for it.
- VoiceCatalog.Suffix: takes the suffix of the whole stored name. Python's
  `Path.suffix` looks only at the last path component, so the two differ on
  a name containing `/` (`a.b/c`). `secure_filename` never leaves a `/` in a
  name, but the model leaves that function unconstrained.
- `secure_filename` is an arbitrary function. The file store is a map from
  stored name to bytes. Path joining, `Path.exists` on arbitrary names and
  the storage directory's location are not modelled.
- VoiceCatalog.VoiceLibrary.UploadVoiceSample: a failed save is a boolean
  and leaves no partial file. The `Could not save voice sample` message is
  not modelled beyond its 500 status. The record's `size` is the length of
  the uploaded bytes, which `stat()` reports for a complete save.
- The other TTS parameters (`exaggeration`, `temperature`, `cfg_weight`,
  `min_p`, `top_p`, `repetition_penalty`, `language`, the reference audio)
  are float or model inputs and are not modelled. `int(seed)` raising on a
  malformed value is not modelled either.
- Whisper inference, model loading, audio generation, `save_audio_to_wav`,
  MongoDB, Flask routing and the other routes of `backend/app.py` are not
  part of this model, and neither are the UI components.

## Findings

`DecodeDataUrl`, and the sample library built on it, keep the split at the
first comma, as the code does. `DecodeAtLastComma` is the corrected decode,
and its round trips are proved.

| source | as written | input that shows it | evidently intended | confidence | as-written member | corrected member |
|---|---|---|---|---|---|---|
| src/context/AudioSampleContext.jsx:18 | `dataUrl.split(',')` takes the text between the first and second comma as the payload | a file of type `a,b` (which the `File` constructor keeps) is written as `data:a,b;base64,…`, so `atob` is given `b;base64` and throws | the payload is the text after the last comma, since base 64 never holds a comma, so every file decodes from its own data URL | not executed; low, since audio types seldom hold a comma | DataUrl.CommaTypeBreaksDecode | DataUrl.LastCommaRoundTrip |
