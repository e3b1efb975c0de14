/**
 * The record store behind the `/api/save_result`, `/api/export`, `/api/update_result`,
 * `/api/upload_audio` and `/api/results` handlers of `app.py`. The `results/`
 * directory is a map from file name to content; the clock is a parameter.
 * An HTTP error raised inside a handler's `try` block is caught by its generic
 * handler and answered as 500 with the original status and detail in the text.
 */
module Store {
  import opened Wrappers
  import opened Text
  import opened JsonValue
  import opened ResultFiles

  /** A handler's answer: a success body, or an HTTP status with its detail text. */
  datatype Reply<T> = Ok(body: T) | HttpError(status: nat, detail: string)

  datatype SavedBody = SavedBody(resultId: Json, filePath: string)
  datatype DownloadBody = DownloadBody(path: string, filename: string, mediaType: string)
  datatype UpdatedBody = UpdatedBody(resultId: string)
  datatype UploadedBody = UploadedBody(audioPath: string)
  datatype DeletedBody = DeletedBody(resultId: string, message: string, deletedFiles: seq<string>)
  datatype ListingBody = ListingBody(results: seq<Entry>, totalCount: nat)

  /**
   * The detail of the 500 answered when the sort compares keys of different kinds
   * (the operand type names Python appends are not modelled).
   */
  const ListFailure: string := "Failed to list results: '<' not supported between instances"

  /** Python's `str(n)` for an integer. */
  function IntToString(n: int): (r: string)
    ensures r != ""
  {
    if n < 0 then "-" + NatToString(-n) else NatToString(n)
  }

  /** Python's `str(v)` for the scalar JSON values a `result_id` can be; `None` for lists and objects. */
  function ScalarText(v: Json): Option<string>
  {
    match v
    case JStr(s) => Some(s)
    case JNum(n) => Some(IntToString(n))
    case JBool(b) => Some(if b then "True" else "False")
    case _ => None
  }

  /** The name of a result's JSON file inside `results/`. */
  function ResultFile(id: string): string
  {
    id + ".json"
  }

  /** The extensions `delete_result` looks for, in the order it tries them. */
  const AudioExts: seq<string> := [".wav", ".mp3", ".m4a", ".flac", ".aac", ".ogg"]

  /** Index of the last occurrence of `c` in `s`, or -1 (Python's `str.rfind`). */
  function RFind(s: string, c: char): (k: int)
    ensures -1 <= k < |s|
    ensures k >= 0 ==> s[k] == c
    ensures forall i :: k < i < |s| ==> s[i] != c
  {
    if |s| == 0 then -1
    else if s[|s| - 1] == c then |s| - 1
    else RFind(s[..|s| - 1], c)
  }

  /**
   * The extension `os.path.splitext` reports: from the last dot of the last path
   * component to the end, provided that component has a character other than a dot
   * before it; otherwise empty.
   */
  function SplitExt(p: string): (e: string)
    ensures e == "" || (e[0] == '.' && EndsWith(p, e) && '.' !in e[1..] && '/' !in e)
  {
    var sep := RFind(p, '/');
    var dot := RFind(p, '.');
    if dot > sep && exists k :: sep + 1 <= k < dot && p[k] != '.' then
      assert forall i :: dot < i < |p| ==> p[i] != '.' && p[i] != '/';
      p[dot..]
    else ""
  }

  /** The last `c` of `s` is at `k` when nothing after `k` is a `c`. */
  lemma {:induction false} RFindAt(s: string, c: char, k: nat)
    requires k < |s| && s[k] == c
    requires forall i :: k < i < |s| ==> s[i] != c
    ensures RFind(s, c) == k
    decreases |s|
  {
    if k < |s| - 1 {
      RFindAt(s[..|s| - 1], c, k);
    }
  }

  /**
   * Position `d` starts an extension found from `k`: `d` is a dot, nothing after it is a
   * dot or a `/`, and `k` is a non-dot character before `d` in the same path component.
   */
  predicate ExtensionAt(p: string, d: int, k: int)
  {
    && 0 <= k < d < |p| && p[d] == '.' && p[k] != '.'
    && (forall i :: d < i < |p| ==> p[i] != '.' && p[i] != '/')
    && (forall i :: k <= i < d ==> p[i] != '/')
  }

  /**
   * `splitext` stated without `rfind`: the extension is non-empty exactly when the last
   * path component has a dot with a non-dot character before it, and it then runs from
   * the last dot to the end.
   */
  lemma {:induction false} SplitExtIff(p: string)
    ensures SplitExt(p) != "" <==> exists d, k :: ExtensionAt(p, d, k)
    ensures forall d, k :: ExtensionAt(p, d, k) ==> SplitExt(p) == p[d..]
  {
    var sep := RFind(p, '/');
    var dot := RFind(p, '.');
    if SplitExt(p) != "" {
      var k :| sep + 1 <= k < dot && p[k] != '.';
      assert ExtensionAt(p, dot, k);
    }
    forall d, k | ExtensionAt(p, d, k) ensures SplitExt(p) == p[d..] {
      RFindAt(p, '.', d);
      assert sep < k by {
        assert forall i :: k <= i < |p| ==> p[i] != '/';
      }
    }
  }

  /** In a name without a `/`, the last dot with a non-dot character before it starts the extension. */
  lemma {:induction false} SplitExtAt(p: string, dot: nat, k: nat)
    requires '/' !in p
    requires k < dot < |p| && p[dot] == '.' && p[k] != '.'
    requires forall i :: dot < i < |p| ==> p[i] != '.'
    ensures SplitExt(p) == p[dot..]
  {
    RFindAt(p, '.', dot);
    assert RFind(p, '/') == -1;
  }

  /** The extension of an ordinary file name. */
  lemma {:induction false} SplitExtPlain()
    ensures SplitExt("interview.MP3") == ".MP3"
    ensures SplitExt("archive.tar.gz") == ".gz"
  {
    SplitExtAt("interview.MP3", 9, 0);
    SplitExtAt("archive.tar.gz", 11, 0);
  }

  /** A dot-file, a name without a dot and a dot only in a directory name give no extension. */
  lemma {:induction false} SplitExtNone()
    ensures SplitExt(".bashrc") == ""
    ensures SplitExt("recording") == ""
    ensures SplitExt("take.1/rec") == ""
  {
    RFindAt(".bashrc", '.', 0);
    RFindAt("take.1/rec", '.', 4);
    RFindAt("take.1/rec", '/', 6);
  }

  /** `f"{result_id}_audio{ext}"`: the name an audio file of a result is stored under. */
  function AudioName(id: string, ext: string): string
  {
    id + "_audio" + ext
  }

  /** `f"{result_id}_audio{ext}"` for an upload: the `splitext` extension, `.wav` for a nameless upload. */
  function AudioFile(id: string, filename: string): (name: string)
    ensures filename == "" ==> name == AudioName(id, ".wav")
    ensures filename != "" ==> name == AudioName(id, SplitExt(filename))
  {
    AudioName(id, if filename != "" then SplitExt(filename) else ".wav")
  }

  /** The audio files `delete_result` removes for a result, whatever is stored. */
  function AudioCandidates(id: string, exts: seq<string>): set<string>
  {
    set e | e in exts :: AudioName(id, e)
  }

  /** Two names with the same `{id}_audio` prefix are equal exactly when their extensions are. */
  lemma {:induction false} AudioNameCancel(id: string, a: string, b: string)
    ensures AudioName(id, a) == AudioName(id, b) <==> a == b
  {
    var p := id + "_audio";
    if p + a == p + b {
      assert a == (p + a)[|p|..];
      assert b == (p + b)[|p|..];
    }
  }

  /** An audio name is never the result's JSON file. */
  lemma {:induction false} AudioIsNotJson(id: string, e: string)
    ensures AudioName(id, e) != ResultFile(id)
  {
    assert AudioName(id, e)[|id|] == '_';
    assert ResultFile(id)[|id|] == '.';
  }

  /**
   * Deletion removes an uploaded file exactly when its extension is one of the six
   * lower-case ones (a nameless upload is stored as `.wav` and so is always removed).
   */
  lemma {:induction false} DeleteFindsUpload(id: string, filename: string)
    ensures AudioFile(id, filename) in AudioCandidates(id, AudioExts) <==>
      filename == "" || SplitExt(filename) in AudioExts
  {
    var ext := if filename != "" then SplitExt(filename) else ".wav";
    if AudioFile(id, filename) in AudioCandidates(id, AudioExts) {
      var e :| e in AudioExts && AudioName(id, e) == AudioFile(id, filename);
      AudioNameCancel(id, e, ext);
    }
    if ext in AudioExts {
      assert AudioFile(id, filename) == AudioName(id, ext);
    }
  }

  /** An upload with an upper-case extension survives the deletion of its result. */
  lemma {:induction false} UpperCaseUploadSurvivesDelete(id: string)
    ensures AudioFile(id, "interview.MP3") !in AudioCandidates(id, AudioExts)
  {
    SplitExtPlain();
    DeleteFindsUpload(id, "interview.MP3");
  }

  /**
   * The `results/` paths of the audio files present for `id`, tried in the order of
   * `exts` (the accumulation loop of `delete_result`).
   */
  function PresentAudio(files: map<string, StoredFile>, id: string, exts: seq<string>): seq<string>
  {
    if exts == [] then []
    else
      var name := AudioName(id, exts[|exts| - 1]);
      PresentAudio(files, id, exts[..|exts| - 1]) + (if name in files then ["results/" + name] else [])
  }

  /** The reported audio paths are exactly the present candidates. */
  lemma {:induction false} PresentAudioMembers(files: map<string, StoredFile>, id: string, exts: seq<string>)
    ensures forall p :: p in PresentAudio(files, id, exts) <==>
      exists e :: e in exts && AudioName(id, e) in files && p == "results/" + AudioName(id, e)
  {
    if exts != [] {
      var init := exts[..|exts| - 1];
      var last := exts[|exts| - 1];
      var name := AudioName(id, last);
      var tail := if name in files then ["results/" + name] else [];
      PresentAudioMembers(files, id, init);
      assert exts == init + [last];
      forall p
        ensures p in PresentAudio(files, id, exts) <==>
          exists e :: e in exts && AudioName(id, e) in files && p == "results/" + AudioName(id, e)
      {
        assert PresentAudio(files, id, exts) == PresentAudio(files, id, init) + tail;
        if p in PresentAudio(files, id, init) {
          var e :| e in init && AudioName(id, e) in files && p == "results/" + AudioName(id, e);
          assert e in exts;
        } else if p in tail {
          assert last in exts;
        }
        if exists e :: e in exts && AudioName(id, e) in files && p == "results/" + AudioName(id, e) {
          var e :| e in exts && AudioName(id, e) in files && p == "results/" + AudioName(id, e);
          if e !in init {
            assert e == last;
          }
        }
      }
    }
  }

  /**
   * One round of the deletion loop: the `i`-th candidate is untouched by the earlier
   * rounds, and trying it extends the candidates and the reported paths by it.
   */
  lemma {:induction false} DeleteStep(files: map<string, StoredFile>, id: string, i: nat)
    requires i < |AudioExts|
    ensures var name := AudioName(id, AudioExts[i]);
      && (name in files - ({ResultFile(id)} + AudioCandidates(id, AudioExts[..i])) <==> name in files)
      && AudioCandidates(id, AudioExts[..i + 1]) == AudioCandidates(id, AudioExts[..i]) + {name}
      && PresentAudio(files, id, AudioExts[..i + 1]) ==
           PresentAudio(files, id, AudioExts[..i]) + (if name in files then ["results/" + name] else [])
  {
    var name := AudioName(id, AudioExts[i]);
    AudioIsNotJson(id, AudioExts[i]);
    forall e | e in AudioExts[..i]
      ensures AudioName(id, e) != name
    {
      AudioNameCancel(id, e, AudioExts[i]);
    }
    assert AudioExts[..i + 1] == AudioExts[..i] + [AudioExts[i]];
    assert AudioExts[..i + 1][..i] == AudioExts[..i];
  }

  /** The message of a successful deletion. */
  function DeleteMessage(audio: seq<string>): string
  {
    "Result deleted successfully" + (if audio != [] then ", audio files deleted: " + Join(audio, ", ") else "")
  }

  /** The directory `results/`, one entry per file name. */
  class ResultStore {
    var files: map<string, StoredFile>

    constructor (initial: map<string, StoredFile>)
      ensures files == initial
    {
      files := initial;
    }

    /**
     * `save_result`: a falsy or missing `result_id` is a 400 raised inside the `try`,
     * so it reaches the client as 500; otherwise the body is stored as `{result_id}.json`.
     */
    method SaveResult(data: map<string, Json>) returns (reply: Reply<SavedBody>)
      modifies this
      ensures !("result_id" in data && PyTruthy(data["result_id"])) ==>
        reply == HttpError(500, "Failed to save result: 400: Missing result_id") && files == old(files)
      ensures reply.Ok? <==> "result_id" in data && PyTruthy(data["result_id"]) && ScalarText(data["result_id"]).Some?
      ensures reply.Ok? ==>
        var name := ResultFile(ScalarText(data["result_id"]).value);
        files == old(files)[name := JsonDoc(data)] && reply.body == SavedBody(data["result_id"], "results/" + name)
      ensures reply.HttpError? ==> reply.status == 500 && files == old(files)
    {
      if !("result_id" in data && PyTruthy(data["result_id"])) {
        return HttpError(500, "Failed to save result: 400: Missing result_id");
      }
      var id := data["result_id"];
      match ScalarText(id) {
        case None =>
          return HttpError(500, "Failed to save result: unsupported result_id");
        case Some(text) =>
          var name := ResultFile(text);
          files := files[name := JsonDoc(data)];
          return Ok(SavedBody(id, "results/" + name));
      }
    }

    /**
     * `list_results`: one entry per `.json` name of the directory listing `listing`
     * (a parameter standing for `os.listdir`), in listing order, then sorted newest
     * first; a 500 when the sort meets keys Python cannot compare.
     */
    method ListResults(listing: seq<string>, stats: map<string, Stat>) returns (reply: Reply<ListingBody>)
      requires forall n :: n in listing ==> n in files && n in stats
      ensures reply.Ok? <==> Sortable(Entries(listing, stats, files))
      ensures reply.Ok? ==>
        var es := Entries(listing, stats, files);
        reply.body == ListingBody(SortNewestFirst(es), |es|)
      ensures reply.HttpError? ==> reply == HttpError(500, ListFailure)
    {
      var results: seq<Entry> := [];
      for i := 0 to |listing|
        invariant results == Entries(listing[..i], stats, files)
      {
        var name := listing[i];
        assert listing[..i + 1] == listing[..i] + [name];
        EntriesSnoc(listing[..i], name, stats, files);
        if EndsWith(name, ".json") {
          results := results + [Summarize(name[..|name| - 5], stats[name], files[name])];
        }
      }
      assert listing[..|listing|] == listing;
      if !Sortable(results) {
        return HttpError(500, ListFailure);
      }
      var sorted := SortNewestFirst(results);
      return Ok(ListingBody(sorted, |sorted|));
    }

    /** `export_result`: the stored file as a download, or the 404 answered as 500. */
    method ExportResult(id: string) returns (reply: Reply<DownloadBody>)
      ensures reply.Ok? <==> ResultFile(id) in files
      ensures reply.Ok? ==>
        reply.body == DownloadBody("results/" + id + ".json", "astromao_result_" + id + ".json", "application/json")
      ensures reply.HttpError? ==> reply == HttpError(500, "Failed to export result: 404: Result not found")
    {
      if ResultFile(id) !in files {
        return HttpError(500, "Failed to export result: 404: Result not found");
      }
      return Ok(DownloadBody("results/" + id + ".json", "astromao_result_" + id + ".json", "application/json"));
    }

    /**
     * `update_result`: the body is written over `{result_id}.json` with `updated_timestamp`
     * set to `now`; it creates the file when there was none.
     */
    method UpdateResult(id: string, data: map<string, Json>, now: string) returns (reply: Reply<UpdatedBody>)
      modifies this
      ensures reply == Ok(UpdatedBody(id))
      ensures ResultFile(id) in files && files[ResultFile(id)].JsonDoc?
      ensures
        var doc := files[ResultFile(id)].fields;
        && doc.Keys == data.Keys + {"updated_timestamp"}
        && doc["updated_timestamp"] == JStr(now)
        && forall k :: k in data && k != "updated_timestamp" ==> doc[k] == data[k]
      ensures forall n :: n != ResultFile(id) ==> (n in files <==> n in old(files))
      ensures forall n :: n != ResultFile(id) && n in files ==> files[n] == old(files)[n]
    {
      files := files[ResultFile(id) := JsonDoc(data["updated_timestamp" := JStr(now)])];
      return Ok(UpdatedBody(id));
    }

    /** `upload_audio_for_result`: the bytes are stored under the derived audio name. */
    method UploadAudio(id: string, filename: string, content: seq<bv8>) returns (reply: Reply<UploadedBody>)
      modifies this
      ensures reply == Ok(UploadedBody(AudioFile(id, filename)))
      ensures files == old(files)[AudioFile(id, filename) := Bytes(content)]
    {
      var ext := if filename != "" then SplitExt(filename) else ".wav";
      var name := AudioName(id, ext);
      files := files[name := Bytes(content)];
      return Ok(UploadedBody(name));
    }

    /**
     * `delete_result`: the JSON file and every `{id}_audio{ext}` file for the six
     * lower-case extensions are removed; the paths removed are reported JSON first,
     * then the audio files in extension order. A missing result is a 404 answered as 500.
     */
    method DeleteResult(id: string) returns (reply: Reply<DeletedBody>)
      modifies this
      ensures ResultFile(id) !in old(files) ==>
        reply == HttpError(500, "Failed to delete result: 404: Result not found") && files == old(files)
      ensures ResultFile(id) in old(files) ==>
        var audio := PresentAudio(old(files), id, AudioExts);
        && files == old(files) - ({ResultFile(id)} + AudioCandidates(id, AudioExts))
        && reply == Ok(DeletedBody(id, DeleteMessage(audio), ["results/" + ResultFile(id)] + audio))
    {
      var json := ResultFile(id);
      if json !in files {
        return HttpError(500, "Failed to delete result: 404: Result not found");
      }
      files := files - {json};
      var deleted: seq<string> := [];
      for i := 0 to |AudioExts|
        invariant files == old(files) - ({json} + AudioCandidates(id, AudioExts[..i]))
        invariant deleted == PresentAudio(old(files), id, AudioExts[..i])
      {
        var name := AudioName(id, AudioExts[i]);
        DeleteStep(old(files), id, i);
        if name in files {
          files := files - {name};
          deleted := deleted + ["results/" + name];
        }
      }
      assert AudioExts[..|AudioExts|] == AudioExts;
      assert deleted == PresentAudio(old(files), id, AudioExts);
      var message := "Result deleted successfully";
      if deleted != [] {
        message := message + (", audio files deleted: " + Join(deleted, ", "));
      }
      assert message == DeleteMessage(deleted);
      return Ok(DeletedBody(id, message, ["results/" + json] + deleted));
    }
  }
}
