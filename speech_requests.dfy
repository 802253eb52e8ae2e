/**
 * The request handling around the speech models in backend/app.py: the text
 * validation of `POST /api/tts/generate` (447-452, 474-475) and the way
 * `transcribe_audio_file` passes options to Whisper and assembles its
 * segments into a transcript (336-371). The models themselves are parameters.
 */
module SpeechRequests {

  import opened Wrappers
  import opened Text

  /** A JSON error answer with its status. */
  datatype Rejection = Rejection(status: int, message: string)

  const MaxTextLength := 10000

  /**
   * The text check of `generate_tts`: the `text` form field (missing reads
   * as empty) with surrounding whitespace removed is required and at most
   * 10000 characters long.
   */
  function CheckTtsText(text: Option<string>): (r: Result<string, Rejection>)
    ensures var t := PyStrip(text.GetOr(""));
      && (t == [] ==> r == Failure(Rejection(400, "Text is required")))
      && (|t| > MaxTextLength ==> r == Failure(Rejection(400, "Text too long (max 10000 characters)")))
      && (r.Success? <==> 0 < |t| <= MaxTextLength)
      && (r.Success? ==> r.value == t)
  {
    var t := PyStrip(text.GetOr(""));
    if t == [] then Failure(Rejection(400, "Text is required"))
    else if |t| > MaxTextLength then Failure(Rejection(400, "Text too long (max 10000 characters)"))
    else Success(t)
  }

  /** Accepted text has no surrounding whitespace, so checking it again accepts it unchanged. */
  lemma CheckTtsTextStable(text: Option<string>)
    requires CheckTtsText(text).Success?
    ensures var t := CheckTtsText(text).value;
      && 0 < |t| <= MaxTextLength
      && !IsPySpace(t[0]) && !IsPySpace(t[|t| - 1])
      && CheckTtsText(Some(t)) == Success(t)
  {
    var t := CheckTtsText(text).value;
    StripUnchanged(t, IsPySpace);
  }

  /** The seed `generate_tts` fixes before generation: only a non-zero one is applied. */
  function SeedToApply(seed: int): (r: Option<int>)
    ensures r.Some? <==> seed != 0
    ensures r.Some? ==> r.value == seed
  {
    if seed != 0 then Some(seed) else None
  }

  /** The keyword arguments `transcribe_audio_file` passes to Whisper. */
  datatype WhisperOptions = WhisperOptions(vadFilter: bool, beamSize: int, language: Option<string>, task: Option<string>)

  /**
   * Voice-activity filtering and beam size 5 always; the language only when
   * one is given, the task only when it is `transcribe` or `translate`.
   */
  function TranscriptionOptions(language: Option<string>, task: string): (r: WhisperOptions)
    ensures r.vadFilter && r.beamSize == 5
    ensures r.language.Some? <==> language.Some? && language.value != ""
    ensures r.language.Some? ==> r.language == language
    ensures r.task.Some? <==> task in {"transcribe", "translate"}
    ensures r.task.Some? ==> r.task.value == task
  {
    WhisperOptions(
      true, 5,
      if language.Some? && language.value != "" then language else None,
      if task == "transcribe" || task == "translate" then Some(task) else None)
  }

  /** One recognised segment, as Whisper yields it and as the transcript lists it. */
  datatype Segment = Segment(id: int, start: real, end: real, text: string, avgLogProb: real, noSpeechProb: real)

  /** What Whisper reports about the whole recording. */
  datatype AudioInfo = AudioInfo(language: string, languageProbability: real, duration: real)

  datatype Transcript = Transcript(
    text: string,
    segments: seq<Segment>,
    language: string,
    languageProbability: real,
    duration: real)

  /** `' '.join(parts)`. */
  function JoinSpaces(parts: seq<string>): string
    decreases |parts|
  {
    if parts == [] then ""
    else if |parts| == 1 then parts[0]
    else JoinSpaces(parts[..|parts| - 1]) + " " + parts[|parts| - 1]
  }

  /** A non-empty text that neither starts nor ends with whitespace. */
  predicate Bare(t: string) {
    t != "" && !IsPySpace(t[0]) && !IsPySpace(t[|t| - 1])
  }

  /** What `strip()` leaves is empty or bare. */
  lemma StrippedBare(s: string)
    ensures PyStrip(s) == "" || Bare(PyStrip(s))
  {
  }

  /** The segment texts with surrounding whitespace removed, in order. */
  function StrippedTexts(segments: seq<Segment>): (r: seq<string>)
    ensures |r| == |segments|
    decreases |segments|
  {
    if segments == [] then []
    else StrippedTexts(segments[..|segments| - 1]) + [PyStrip(segments[|segments| - 1].text)]
  }

  lemma {:induction false} StrippedTextsAt(segments: seq<Segment>)
    ensures forall i :: 0 <= i < |segments| ==> StrippedTexts(segments)[i] == PyStrip(segments[i].text)
    decreases |segments|
  {
    if segments != [] {
      var n := |segments| - 1;
      var init := segments[..n];
      StrippedTextsAt(init);
      forall i | 0 <= i < n ensures StrippedTexts(segments)[i] == PyStrip(segments[i].text) {
        assert StrippedTexts(segments)[i] == StrippedTexts(init)[i];
        assert init[i] == segments[i];
      }
    }
  }

  /** The `segments` list of the transcript: every segment, in order, with its text stripped. */
  function Assembled(segments: seq<Segment>): (r: seq<Segment>)
    ensures |r| == |segments|
    decreases |segments|
  {
    if segments == [] then []
    else
      var last := segments[|segments| - 1];
      Assembled(segments[..|segments| - 1]) + [last.(text := PyStrip(last.text))]
  }

  lemma {:induction false} AssembledAt(segments: seq<Segment>)
    ensures forall i :: 0 <= i < |segments| ==> Assembled(segments)[i] == segments[i].(text := PyStrip(segments[i].text))
    decreases |segments|
  {
    if segments != [] {
      var n := |segments| - 1;
      var init := segments[..n];
      AssembledAt(init);
      forall i | 0 <= i < n ensures Assembled(segments)[i] == segments[i].(text := PyStrip(segments[i].text)) {
        assert Assembled(segments)[i] == Assembled(init)[i];
        assert init[i] == segments[i];
      }
    }
  }

  /** The non-empty texts of `xs`, in order. */
  function NonEmpty(xs: seq<string>): (r: seq<string>)
    ensures |r| <= |xs|
    decreases |xs|
  {
    if xs == [] then []
    else
      var n := |xs| - 1;
      if xs[n] != "" then NonEmpty(xs[..n]) + [xs[n]] else NonEmpty(xs[..n])
  }

  /** The texts the transcript is made of: the stripped segment texts that are not empty. */
  function Spoken(segments: seq<Segment>): seq<string> {
    NonEmpty(StrippedTexts(segments))
  }

  /** Nothing is left exactly when every text is empty. */
  lemma {:induction false} NonEmptyEmpty(xs: seq<string>)
    ensures NonEmpty(xs) == [] <==> forall i :: 0 <= i < |xs| ==> xs[i] == ""
    decreases |xs|
  {
    if xs != [] {
      var n := |xs| - 1;
      NonEmptyEmpty(xs[..n]);
      assert forall i :: 0 <= i < n ==> xs[..n][i] == xs[i];
    }
  }

  /** Keeping the non-empty texts of texts that are empty or bare leaves only bare ones. */
  lemma {:induction false} NonEmptyBare(xs: seq<string>)
    requires forall i :: 0 <= i < |xs| ==> xs[i] == "" || Bare(xs[i])
    ensures forall k :: 0 <= k < |NonEmpty(xs)| ==> Bare(NonEmpty(xs)[k])
    decreases |xs|
  {
    if xs != [] {
      var n := |xs| - 1;
      assert forall i :: 0 <= i < n ==> xs[..n][i] == xs[i];
      NonEmptyBare(xs[..n]);
    }
  }

  /** A segment whose text is whitespace only. */
  predicate Silent(s: Segment) {
    PyStrip(s.text) == ""
  }

  /** Nothing is spoken exactly when every segment is silent. */
  lemma SpokenEmpty(segments: seq<Segment>)
    ensures Spoken(segments) == [] <==> forall i :: 0 <= i < |segments| ==> Silent(segments[i])
  {
    StrippedTextsAt(segments);
    NonEmptyEmpty(StrippedTexts(segments));
  }

  /** Every spoken text is bare. */
  lemma SpokenBare(segments: seq<Segment>)
    ensures forall k :: 0 <= k < |Spoken(segments)| ==> Bare(Spoken(segments)[k])
  {
    var texts := StrippedTexts(segments);
    StrippedTextsAt(segments);
    forall i | 0 <= i < |texts| ensures texts[i] == "" || Bare(texts[i]) {
      StrippedBare(segments[i].text);
    }
    NonEmptyBare(texts);
  }

  /** Joining non-empty parts that have no surrounding whitespace gives a text without any. */
  lemma {:induction false} JoinedIsStripped(parts: seq<string>)
    requires forall k :: 0 <= k < |parts| ==> Bare(parts[k])
    ensures parts == [] ==> JoinSpaces(parts) == ""
    ensures parts != [] ==> Bare(JoinSpaces(parts))
    decreases |parts|
  {
    if |parts| > 1 {
      var init := parts[..|parts| - 1];
      JoinedIsStripped(init);
      assert init[0] == parts[0];
    }
  }

  /**
   * The transcript's text: the spoken segment texts joined by single spaces.
   * That join is this body (JoinSpaces over Spoken, itself the reference
   * definition of `' '.join(...)`); the ensures add what it means for the
   * result: empty exactly for silence, and already stripped.
   */
  function TranscriptText(segments: seq<Segment>): (r: string)
    ensures r == "" <==> forall i :: 0 <= i < |segments| ==> Silent(segments[i])
    ensures PyStrip(r) == r
  {
    var parts := Spoken(segments);
    SpokenEmpty(segments);
    SpokenBare(segments);
    JoinedIsStripped(parts);
    StripUnchanged(JoinSpaces(parts), IsPySpace);
    JoinSpaces(parts)
  }

  /** What one more segment adds to the two lists the loop builds. */
  lemma PrefixStep(segments: seq<Segment>, i: nat)
    requires i < |segments|
    ensures var text := PyStrip(segments[i].text);
      && Assembled(segments[..i + 1]) == Assembled(segments[..i]) + [segments[i].(text := text)]
      && Spoken(segments[..i + 1]) == if text != "" then Spoken(segments[..i]) + [text] else Spoken(segments[..i])
  {
    var p := segments[..i + 1];
    assert p[..i] == segments[..i];
    var texts := StrippedTexts(p);
    assert texts[..i] == StrippedTexts(segments[..i]);
  }

  /**
   * The loop of `transcribe_audio_file`: every segment is kept, in order,
   * with its text stripped; the stripped non-empty texts are collected and
   * joined by single spaces, and the joined text stripped once more.
   */
  method AssembleTranscript(segments: seq<Segment>, info: AudioInfo) returns (t: Transcript)
    ensures |t.segments| == |segments|
    ensures forall i :: 0 <= i < |segments| ==> t.segments[i] == segments[i].(text := PyStrip(segments[i].text))
    ensures t.text == TranscriptText(segments)
    ensures t.language == info.language && t.languageProbability == info.languageProbability && t.duration == info.duration
  {
    var assembled: seq<Segment> := [];
    var collected: seq<string> := [];
    for i := 0 to |segments|
      invariant assembled == Assembled(segments[..i])
      invariant collected == Spoken(segments[..i])
    {
      var segment := segments[i];
      var text := PyStrip(segment.text);
      PrefixStep(segments, i);
      if text != "" {
        collected := collected + [text];
      }
      assembled := assembled + [segment.(text := text)];
    }
    assert segments[..|segments|] == segments;
    AssembledAt(segments);
    var joined := JoinSpaces(collected);
    SpokenBare(segments);
    JoinedIsStripped(collected);
    StripUnchanged(joined, IsPySpace);
    t := Transcript(PyStrip(joined), assembled, info.language, info.languageProbability, info.duration);
  }
}
