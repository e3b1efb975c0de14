/**
 * The request path of `recognize_audio` in `app.py`: the upload-suffix allowlist
 * and the reshaping of the recogniser's output into sentence records with
 * default speakers, a speaker set and a total duration. The transcoder, the
 * recogniser, the hash, the uuid and the clock are inputs. Times stay in the
 * recogniser's integer milliseconds.
 */
module Recognition {
  import opened Wrappers
  import opened Text

  /** The accepted audio suffixes, lower case, in the order the error message lists them. */
  const AllowedFormats: seq<string> := ["wav", "mp3", "m4a", "flac", "aac", "ogg"]

  /** The detail of the 400 answer for an unsupported suffix. */
  const UnsupportedDetail: string := "Unsupported file format. Supported formats: " + "wav, mp3, m4a, flac, aac, ogg"

  /** `filename.split(".")[-1]`: the text after the last dot, or the whole name when there is none. */
  function LastSegment(name: string): (r: string)
    ensures '.' !in r && EndsWith(name, r)
    ensures r == name || name[|name| - |r| - 1] == '.'
  {
    if |name| == 0 then ""
    else if name[|name| - 1] == '.' then ""
    else
      var front := name[..|name| - 1];
      var init := LastSegment(front);
      var r := init + [name[|name| - 1]];
      assert front[|front| - |init|..] == init;
      assert name[|name| - |r|..] == front[|front| - |init|..] + [name[|name| - 1]];
      assert init != front ==> name[|name| - |r| - 1] == front[|front| - |init| - 1];
      r
  }

  /** The outcome of the format check: the accepted (lower-cased) suffix, or an HTTP error. */
  datatype UploadCheck = Accepted(suffix: string) | Rejected(status: nat, detail: string)

  /** The checks `recognize_audio` makes before touching the file. */
  function CheckUpload(filename: string): (r: UploadCheck)
    ensures filename == "" ==> r == Rejected(400, "No file uploaded")
    ensures r.Rejected? ==> r.status == 400
    ensures r.Accepted? ==> r.suffix in AllowedFormats
  {
    if filename == "" then Rejected(400, "No file uploaded")
    else
      var suffix := Lower(LastSegment(filename));
      if suffix in AllowedFormats then Accepted(suffix) else Rejected(400, UnsupportedDetail)
  }

  /** Lower-casing a tail is the tail of the lower-cased name. */
  lemma {:induction false} LowerTail(s: string, k: nat)
    requires k <= |s|
    ensures Lower(s[k..]) == Lower(s)[k..]
  {
  }

  /** None of the accepted formats contains a dot. */
  lemma {:induction false} FormatsDotFree()
    ensures forall f :: f in AllowedFormats ==> '.' !in f
  {
  }

  /** Accepted names end, lower-cased, in one of the formats, whole or after a dot. */
  lemma {:induction false} CheckUploadSound(filename: string)
    requires filename != ""
    ensures CheckUpload(filename).Accepted? ==>
      exists f :: f in AllowedFormats && (Lower(filename) == f || EndsWith(Lower(filename), "." + f))
  {
    if !CheckUpload(filename).Accepted? {
      return;
    }
    var seg := LastSegment(filename);
    var low := Lower(filename);
    var k := |filename| - |seg|;
    LowerTail(filename, k);
    var f := Lower(seg);
    assert f == low[k..];
    if seg != filename {
      assert low[k - 1] == '.';
      assert low[k - 1..] == "." + f;
    }
  }

  /** Names that end, lower-cased, in one of the formats, whole or after a dot, are accepted. */
  lemma {:induction false} CheckUploadComplete(filename: string, f: string)
    requires filename != "" && f in AllowedFormats
    requires Lower(filename) == f || EndsWith(Lower(filename), "." + f)
    ensures CheckUpload(filename).Accepted?
  {
    var low := Lower(filename);
    FormatsDotFree();
    var k := |low| - |f|;
    assert low[k..] == f;
    assert forall i :: k <= i < |low| ==> low[i] in f;
    if low != f {
      assert low[k - 1] == '.';
    }
    LastSegmentIs(filename, k);
    LowerTail(filename, k);
  }

  /**
   * The allowlist, stated without splitting: a non-empty name is accepted exactly when,
   * lower-cased, it is one of the six formats or ends in a dot followed by one of them.
   */
  lemma {:induction false} CheckUploadIff(filename: string)
    requires filename != ""
    ensures CheckUpload(filename).Accepted? <==>
      exists f :: f in AllowedFormats && (Lower(filename) == f || EndsWith(Lower(filename), "." + f))
  {
    CheckUploadSound(filename);
    if exists f :: f in AllowedFormats && (Lower(filename) == f || EndsWith(Lower(filename), "." + f)) {
      var f :| f in AllowedFormats && (Lower(filename) == f || EndsWith(Lower(filename), "." + f));
      CheckUploadComplete(filename, f);
    }
  }

  /** When a dot (or the start of the name) precedes a dot-free tail, that tail is the last segment. */
  lemma {:induction false} LastSegmentIs(name: string, k: nat)
    requires k <= |name|
    requires k == 0 || name[k - 1] == '.'
    requires forall i :: k <= i < |name| ==> name[i] != '.'
    ensures LastSegment(name) == name[k..]
    decreases |name|
  {
    if |name| > k {
      LastSegmentIs(name[..|name| - 1], k);
      assert name[..|name| - 1][k..] == name[k..|name| - 1];
    }
  }

  /** A `.txt` upload is refused with 400. */
  lemma {:induction false} TextFileRejected()
    ensures CheckUpload("invalid_audio.txt") == Rejected(400, UnsupportedDetail)
  {
    assert LastSegment("invalid_audio.txt") == "txt" by {
      LastSegmentIs("invalid_audio.txt", 14);
    }
  }

  /** One `sentence_info` entry of the recogniser; absent keys are `None`. */
  datatype RawSentence = RawSentence(text: Option<string>, start: Option<int>, end: Option<int>, spk: Option<string>)

  /** One recogniser result: its `text` and its optional `sentence_info` list. */
  datatype RawResult = RawResult(text: Option<string>, sentenceInfo: Option<seq<RawSentence>>)

  /** A sentence record of the response. */
  datatype Shaped = Shaped(text: string, start: int, end: int, speaker: string)

  /** What happened after the format check: a failing stage, or the recogniser's results. */
  datatype Pipeline =
    | SaveFailed                        // writing the upload to the temp directory failed
    | TranscodeFailed                   // hashing or transcoding failed
    | RecognitionFailed(message: string) // the recogniser (or reshaping) raised
    | Recognised(results: seq<RawResult>)

  /** The answer of `recognize_audio`. */
  datatype Response =
    | NoSpeech
    | Recognized(resultId: string, text: string, sentences: seq<Shaped>, speakers: set<string>,
                 totalDuration: int, audioHash: string, filename: string, timestamp: string)
    | HttpError(status: nat, detail: string)

  /** `f"Speaker_{i % 2 + 1}"`. */
  function DefaultSpeaker(i: nat): string
  {
    "Speaker_" + NatToString(i % 2 + 1)
  }

  /** Default speakers alternate by index parity. */
  lemma {:induction false} DefaultSpeakerParity(i: nat)
    ensures DefaultSpeaker(i) == if i % 2 == 0 then "Speaker_1" else "Speaker_2"
  {
  }

  /** The record for entry `i`: its text (default empty), times (default 0), speaker (default by parity). */
  function ShapeEntry(i: nat, raw: RawSentence): Shaped
  {
    Shaped(raw.text.GetOr(""), raw.start.GetOr(0), raw.end.GetOr(0), raw.spk.GetOr(DefaultSpeaker(i)))
  }

  /** The loop over `sentence_info`: one record per entry, in order, collecting the speaker set. */
  method ShapeSentences(info: seq<RawSentence>) returns (sentences: seq<Shaped>, speakers: set<string>)
    ensures |sentences| == |info|
    ensures forall i :: 0 <= i < |info| ==> sentences[i] == ShapeEntry(i, info[i])
    ensures forall p :: p in speakers <==> exists i :: 0 <= i < |sentences| && sentences[i].speaker == p
  {
    sentences := [];
    speakers := {};
    for i := 0 to |info|
      invariant |sentences| == i
      invariant forall j :: 0 <= j < i ==> sentences[j] == ShapeEntry(j, info[j])
      invariant forall p :: p in speakers <==> exists j :: 0 <= j < i && sentences[j].speaker == p
    {
      var s := ShapeEntry(i, info[i]);
      speakers := speakers + {s.speaker};
      sentences := sentences + [s];
    }
  }

  /** The end times of the records, in order. */
  function EndsOf(ss: seq<Shaped>): (xs: seq<int>)
    ensures |xs| == |ss| && forall i :: 0 <= i < |ss| ==> xs[i] == ss[i].end
  {
    seq(|ss|, i requires 0 <= i < |ss| => ss[i].end)
  }

  /** The records made from one result: one per `sentence_info` entry, or a single full-text fallback. */
  predicate ShapedFrom(raw: RawResult, text: string, sentences: seq<Shaped>)
  {
    match raw.sentenceInfo
    case Some(info) =>
      if info != [] then
        |sentences| == |info| && forall i :: 0 <= i < |info| ==> sentences[i] == ShapeEntry(i, info[i])
      else sentences == [Shaped(text, 0, 0, "Speaker_1")]
    case None => sentences == [Shaped(text, 0, 0, "Speaker_1")]
  }

  /** `speakers` holds exactly the speakers of the records. */
  ghost predicate IsSpeakerSet(sentences: seq<Shaped>, speakers: set<string>)
  {
    forall p :: p in speakers <==> exists i :: 0 <= i < |sentences| && sentences[i].speaker == p
  }

  /** `total` is the largest end time of the (non-empty) records. */
  predicate IsTotalDuration(sentences: seq<Shaped>, total: int)
  {
    && (forall i :: 0 <= i < |sentences| ==> sentences[i].end <= total)
    && (exists i :: 0 <= i < |sentences| && sentences[i].end == total)
  }

  /** Reshaping the first result: its text, its records, the speaker set and the total duration. */
  method ShapeResult(raw: RawResult) returns (text: string, sentences: seq<Shaped>, speakers: set<string>, total: int)
    ensures text == raw.text.GetOr("")
    ensures ShapedFrom(raw, text, sentences)
    ensures IsSpeakerSet(sentences, speakers)
    ensures IsTotalDuration(sentences, total)
  {
    text := raw.text.GetOr("");
    if raw.sentenceInfo.Some? && raw.sentenceInfo.value != [] {
      sentences, speakers := ShapeSentences(raw.sentenceInfo.value);
    } else {
      sentences := [Shaped(text, 0, 0, "Speaker_1")];
      speakers := {"Speaker_1"};
      assert sentences[0].speaker == "Speaker_1";
    }
    var ends := EndsOf(sentences);
    total := MaxOrZero(ends);
    assert forall i :: 0 <= i < |sentences| ==> ends[i] in ends;
  }

  /**
   * `recognize_audio`: the format check, the failing stages as 500s, an empty result list
   * as "no speech", and otherwise the reshaped first result.
   */
  method RecognizeAudio(filename: string, pipeline: Pipeline, resultId: string, timestamp: string, audioHash: string)
    returns (r: Response)
    ensures CheckUpload(filename).Rejected? ==>
      r == HttpError(CheckUpload(filename).status, CheckUpload(filename).detail)
    ensures CheckUpload(filename).Accepted? && pipeline == SaveFailed ==> r == HttpError(500, "Failed to save audio file")
    ensures CheckUpload(filename).Accepted? && pipeline == TranscodeFailed ==> r == HttpError(500, "Failed to process audio file")
    ensures CheckUpload(filename).Accepted? && pipeline.RecognitionFailed? ==>
      r == HttpError(500, "Recognition failed: " + pipeline.message)
    ensures CheckUpload(filename).Accepted? && pipeline == Recognised([]) ==> r == NoSpeech
    ensures r.Recognized? <==> CheckUpload(filename).Accepted? && pipeline.Recognised? && pipeline.results != []
    ensures r.Recognized? ==>
      var first := pipeline.results[0];
      && r.text == first.text.GetOr("")
      && r.resultId == resultId && r.timestamp == timestamp && r.audioHash == audioHash && r.filename == filename
      && ShapedFrom(first, r.text, r.sentences)
      && IsSpeakerSet(r.sentences, r.speakers)
      && IsTotalDuration(r.sentences, r.totalDuration)
  {
    var check := CheckUpload(filename);
    if check.Rejected? {
      return HttpError(check.status, check.detail);
    }
    match pipeline {
      case SaveFailed => return HttpError(500, "Failed to save audio file");
      case TranscodeFailed => return HttpError(500, "Failed to process audio file");
      case RecognitionFailed(message) => return HttpError(500, "Recognition failed: " + message);
      case Recognised(results) =>
        if |results| == 0 {
          return NoSpeech;
        }
        var text, sentences, speakers, total := ShapeResult(results[0]);
        return Recognized(resultId, text, sentences, speakers, total, audioHash, filename, timestamp);
    }
  }
}
