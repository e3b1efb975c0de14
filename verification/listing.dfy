/**
 * The files under `results/` and the summaries `list_results` in `app.py` builds
 * from them: the preview truncated to 100 characters, the per-file fallback entry
 * for unreadable files, and the newest-first order by `timestamp` (falling back to
 * the creation time). The directory listing and the `stat` data are inputs.
 */
module ResultFiles {
  import opened Wrappers
  import opened Text
  import opened JsonValue

  /** What a file under `results/` holds: a JSON object, another JSON value, or raw bytes. */
  datatype StoredFile = JsonDoc(fields: map<string, Json>) | OtherJson(value: Json) | Bytes(content: seq<bv8>)

  /** `os.stat` of a file: its creation time (already in ISO form) and its size. */
  datatype Stat = Stat(createdTime: string, size: nat)

  /** One element of the `results` list. */
  datatype Entry =
    | Summary(resultId: string, filename: Json, originalFilename: Json, audioHash: Json, textPreview: Json,
              speakersCount: nat, sentencesCount: nat, totalDuration: Json, timestamp: Json, fileSize: nat)
    | Unreadable(resultId: string, createdTime: string, fileSize: nat)

  /** The number of characters kept before the ellipsis. */
  const PreviewLength := 100

  /** `text[:100] + "..."` when `text` is longer than 100 characters, `text` otherwise. */
  function TextPreview(text: string): string
  {
    if |text| > PreviewLength then text[..PreviewLength] + "..." else text
  }

  /** A short text is its own preview; a long one keeps its first 100 characters and gains an ellipsis. */
  lemma {:induction false} TextPreviewShape(text: string)
    ensures |text| <= PreviewLength ==> TextPreview(text) == text
    ensures |TextPreview(text)| <= PreviewLength + 3
    ensures |text| > PreviewLength ==>
      |TextPreview(text)| == PreviewLength + 3 && TextPreview(text)[..PreviewLength] == text[..PreviewLength]
      && TextPreview(text)[PreviewLength..] == "..."
  {
  }

  /** `dict.get(key, default)`. */
  function Get(d: map<string, Json>, key: string, default: Json): Json
  {
    if key in d then d[key] else default
  }

  /** Python's `len(v)` of a decoded JSON value; `None` where `len` raises. */
  function PyLen(v: Json): Option<nat>
  {
    match v
    case JStr(s) => Some(|s|)
    case JArr(items) => Some(|items|)
    case JObj(fields) => Some(|fields|)
    case _ => None
  }

  /**
   * The `text_preview` expression on the decoded `text` value: strings are previewed,
   * short lists and objects pass through, and everything else raises (`None`).
   */
  function Preview(v: Json): Option<Json>
  {
    match v
    case JStr(s) => Some(JStr(TextPreview(s)))
    case JArr(items) => if |items| > PreviewLength then None else Some(v)
    case JObj(fields) => if |fields| > PreviewLength then None else Some(v)
    case _ => None
  }

  /**
   * The entry for result `id`: a summary of a readable JSON object, or the fallback
   * entry when the file is not a JSON object or a field expression raises.
   */
  function Summarize(id: string, stat: Stat, file: StoredFile): (e: Entry)
    ensures e.resultId == id
    ensures e.Summary? <==>
      file.JsonDoc? && Preview(Get(file.fields, "text", JStr(""))).Some?
      && PyLen(Get(file.fields, "speakers", JArr([]))).Some? && PyLen(Get(file.fields, "sentences", JArr([]))).Some?
    ensures e.Summary? ==> e.fileSize == stat.size && e.filename == e.originalFilename
    ensures e.Summary? ==> (var d := file.fields;
      && e.filename == Get(d, "filename", JStr("unknown"))
      && e.audioHash == Get(d, "audio_hash", JStr(""))
      && Preview(Get(d, "text", JStr(""))) == Some(e.textPreview)
      && PyLen(Get(d, "speakers", JArr([]))) == Some(e.speakersCount)
      && PyLen(Get(d, "sentences", JArr([]))) == Some(e.sentencesCount)
      && e.totalDuration == Get(d, "total_duration", JNum(0))
      && e.timestamp == Get(d, "timestamp", JStr(stat.createdTime)))
    ensures e.Unreadable? ==> e == Unreadable(id, stat.createdTime, stat.size)
  {
    match file
    case JsonDoc(d) =>
      var preview := Preview(Get(d, "text", JStr("")));
      var speakers := PyLen(Get(d, "speakers", JArr([])));
      var sentences := PyLen(Get(d, "sentences", JArr([])));
      if preview.Some? && speakers.Some? && sentences.Some? then
        Summary(id, Get(d, "filename", JStr("unknown")), Get(d, "filename", JStr("unknown")),
                Get(d, "audio_hash", JStr("")), preview.value, speakers.value, sentences.value,
                Get(d, "total_duration", JNum(0)), Get(d, "timestamp", JStr(stat.createdTime)), stat.size)
      else Unreadable(id, stat.createdTime, stat.size)
    case _ => Unreadable(id, stat.createdTime, stat.size)
  }

  /**
   * A stored result as `save_result` writes it (string text, list-valued speakers and
   * sentences, each possibly absent) is always summarised: the preview of its text,
   * the lengths of its two lists, its duration (0 when absent) and its timestamp,
   * which falls back to the file's creation time.
   */
  lemma {:induction false} SummaryOfStoredResult(id: string, stat: Stat, d: map<string, Json>)
    requires "text" in d ==> d["text"].JStr?
    requires "speakers" in d ==> d["speakers"].JArr?
    requires "sentences" in d ==> d["sentences"].JArr?
    ensures var e := Summarize(id, stat, JsonDoc(d));
      && e.Summary?
      && e.textPreview == JStr(TextPreview(if "text" in d then d["text"].s else ""))
      && e.speakersCount == (if "speakers" in d then |d["speakers"].items| else 0)
      && e.sentencesCount == (if "sentences" in d then |d["sentences"].items| else 0)
      && e.totalDuration == (if "total_duration" in d then d["total_duration"] else JNum(0))
      && e.timestamp == (if "timestamp" in d then d["timestamp"] else JStr(stat.createdTime))
      && e.fileSize == stat.size
  {
  }

  /** A stored text longer than 100 characters is listed with its first 100 characters and `...`. */
  lemma {:induction false} LongTextPreviewed(id: string, stat: Stat, d: map<string, Json>)
    requires "text" in d && d["text"].JStr? && |d["text"].s| > PreviewLength
    requires "speakers" in d ==> d["speakers"].JArr?
    requires "sentences" in d ==> d["sentences"].JArr?
    ensures Summarize(id, stat, JsonDoc(d)).Summary?
    ensures Summarize(id, stat, JsonDoc(d)).textPreview == JStr(d["text"].s[..PreviewLength] + "...")
  {
    SummaryOfStoredResult(id, stat, d);
  }

  /** The summaries of the `.json` names among `names`, in listing order, with `.json` dropped from the id. */
  function Entries(names: seq<string>, stats: map<string, Stat>, files: map<string, StoredFile>): seq<Entry>
    requires forall n :: n in names ==> n in stats && n in files
  {
    if names == [] then []
    else
      var n := names[|names| - 1];
      var rest := Entries(names[..|names| - 1], stats, files);
      if EndsWith(n, ".json") then rest + [Summarize(n[..|n| - 5], stats[n], files[n])] else rest
  }

  /** Listing one more name adds its entry at the end when it is a `.json` name. */
  lemma {:induction false} EntriesSnoc(names: seq<string>, n: string, stats: map<string, Stat>, files: map<string, StoredFile>)
    requires forall m :: m in names ==> m in stats && m in files
    requires n in stats && n in files
    ensures forall m :: m in names + [n] ==> m in stats && m in files
    ensures Entries(names + [n], stats, files) ==
      Entries(names, stats, files) + (if EndsWith(n, ".json") then [Summarize(n[..|n| - 5], stats[n], files[n])] else [])
  {
    assert (names + [n])[..|names|] == names;
  }

  /** Every `.json` name is listed once, under its id; nothing else is listed. */
  lemma {:induction false} EntriesIds(names: seq<string>, stats: map<string, Stat>, files: map<string, StoredFile>)
    requires forall n :: n in names ==> n in stats && n in files
    ensures forall e :: e in Entries(names, stats, files) ==> e.resultId + ".json" in names
    ensures forall n :: n in names && EndsWith(n, ".json") ==>
      exists e :: e in Entries(names, stats, files) && e.resultId + ".json" == n
    ensures |Entries(names, stats, files)| <= |names|
  {
    if names != [] {
      var init := names[..|names| - 1];
      var n := names[|names| - 1];
      var rest := Entries(init, stats, files);
      EntriesIds(init, stats, files);
      assert names == init + [n];
      forall m | m in names && EndsWith(m, ".json")
        ensures exists e :: e in Entries(names, stats, files) && e.resultId + ".json" == m
      {
        if m in init {
          var e :| e in rest && e.resultId + ".json" == m;
          assert e in Entries(names, stats, files);
        } else {
          assert m == n;
          var e := Summarize(n[..|n| - 5], stats[n], files[n]);
          assert n[..|n| - 5] + ".json" == n;
          assert e in Entries(names, stats, files);
        }
      }
    }
  }

  /** Python's `a <= b` on strings: code-point lexicographic order. */
  predicate LexLe(a: string, b: string)
  {
    if |a| == 0 then true
    else if |b| == 0 then false
    else if a[0] != b[0] then a[0] < b[0]
    else LexLe(a[1..], b[1..])
  }

  /** Any two strings are ordered one way or the other. */
  lemma {:induction false} LexTotal(a: string, b: string)
    ensures LexLe(a, b) || LexLe(b, a)
    decreases |a|
  {
    if |a| > 0 && |b| > 0 && a[0] == b[0] {
      LexTotal(a[1..], b[1..]);
    }
  }

  /** The string order is transitive. */
  lemma {:induction false} LexTrans(a: string, b: string, c: string)
    requires LexLe(a, b) && LexLe(b, c)
    ensures LexLe(a, c)
    decreases |a|
  {
    if |a| > 0 && |b| > 0 && |c| > 0 && a[0] == b[0] && b[0] == c[0] {
      LexTrans(a[1..], b[1..], c[1..]);
    }
  }

  /** The sort key: `x.get("timestamp", x.get("created_time", ""))`. */
  function SortKey(e: Entry): Json
  {
    match e
    case Summary(_, _, _, _, _, _, _, _, timestamp, _) => timestamp
    case Unreadable(_, createdTime, _) => JStr(createdTime)
  }

  /** Keys Python can order among themselves: all strings, or all integers. */
  predicate Orderable(es: seq<Entry>)
  {
    (forall i :: 0 <= i < |es| ==> SortKey(es[i]).JStr?) || (forall i :: 0 <= i < |es| ==> SortKey(es[i]).JNum?)
  }

  /** A list Python's sort accepts: it never compares when there is at most one element. */
  predicate Sortable(es: seq<Entry>)
  {
    |es| <= 1 || Orderable(es)
  }

  /** `a <= b` on two keys of the same kind. */
  predicate KeyLe(a: Json, b: Json)
  {
    if a.JStr? && b.JStr? then LexLe(a.s, b.s)
    else if a.JNum? && b.JNum? then a.n <= b.n
    else false
  }

  predicate SameKind(a: Json, b: Json)
  {
    (a.JStr? && b.JStr?) || (a.JNum? && b.JNum?)
  }

  lemma {:induction false} KeyTotal(a: Json, b: Json)
    requires SameKind(a, b)
    ensures KeyLe(a, b) || KeyLe(b, a)
  {
    if a.JStr? {
      LexTotal(a.s, b.s);
    }
  }

  lemma {:induction false} KeyTrans(a: Json, b: Json, c: Json)
    requires KeyLe(a, b) && KeyLe(b, c)
    ensures KeyLe(a, c)
  {
    if a.JStr? {
      LexTrans(a.s, b.s, c.s);
    }
  }

  /** Every key of `es` has the kind of `k`. */
  predicate KeysLike(es: seq<Entry>, k: Json)
  {
    forall i :: 0 <= i < |es| ==> SameKind(SortKey(es[i]), k)
  }

  /**
   * Inserts `x` before the first element whose key is not greater than its own: `x`
   * stays ahead of the equal keys that followed it in the input.
   */
  function Insert(x: Entry, r: seq<Entry>): (s: seq<Entry>)
    requires KeysLike(r, SortKey(x))
    ensures multiset(s) == multiset(r) + multiset{x}
    ensures |s| == |r| + 1
  {
    if r == [] then [x]
    else if !KeyLe(SortKey(r[0]), SortKey(x)) then
      assert r == [r[0]] + r[1..];
      [r[0]] + Insert(x, r[1..])
    else [x] + r
  }

  /** A tail of a sortable list is sortable. */
  lemma {:induction false} OrderableTail(es: seq<Entry>)
    requires Sortable(es) && es != []
    ensures Sortable(es[1..])
  {
    if |es| > 1 {
      assert forall i :: 0 <= i < |es| - 1 ==> es[1..][i] == es[i + 1];
    }
  }

  /** Any list drawn from an orderable list has keys of the kind of each of its elements. */
  lemma {:induction false} OrderableKeysLike(es: seq<Entry>, r: seq<Entry>, k: nat)
    requires Orderable(es) && multiset(r) <= multiset(es) && k < |es|
    ensures KeysLike(r, SortKey(es[k]))
  {
    forall i | 0 <= i < |r|
      ensures SameKind(SortKey(r[i]), SortKey(es[k]))
    {
      assert r[i] in multiset(r);
      assert r[i] in es;
    }
  }

  /** Newest first: each key is not greater than the one before it. */
  predicate NewestFirst(s: seq<Entry>)
  {
    forall i :: 0 < i < |s| ==> KeyLe(SortKey(s[i]), SortKey(s[i - 1]))
  }

  /**
   * `results.sort(key=..., reverse=True)`: descending by key, elements with equal keys
   * in their listing order.
   */
  function SortNewestFirst(es: seq<Entry>): (s: seq<Entry>)
    requires Sortable(es)
    ensures multiset(s) == multiset(es)
    ensures |s| == |es|
  {
    if es == [] then []
    else
      OrderableTail(es);
      var rest := SortNewestFirst(es[1..]);
      SortStep(es, rest);
      Insert(es[0], rest)
  }

  /** One step of the sort: the sorted tail takes the head's key kind, and head plus tail is the whole list. */
  lemma {:induction false} SortStep(es: seq<Entry>, rest: seq<Entry>)
    requires Sortable(es) && es != [] && multiset(rest) == multiset(es[1..])
    ensures KeysLike(rest, SortKey(es[0]))
    ensures multiset(es) == multiset(rest) + multiset{es[0]}
  {
    assert es == [es[0]] + es[1..];
    if |es| > 1 {
      OrderableKeysLike(es, rest, 0);
    } else {
      assert rest == [] by {
        assert |multiset(rest)| == 0;
      }
    }
  }

  /** Inserting into a newest-first list keeps it newest first. */
  lemma {:induction false} InsertNewestFirst(x: Entry, r: seq<Entry>)
    requires KeysLike(r, SortKey(x)) && NewestFirst(r)
    ensures NewestFirst(Insert(x, r))
    ensures r != [] ==> Insert(x, r)[0] == x || Insert(x, r)[0] == r[0]
  {
    if r != [] {
      var s := Insert(x, r);
      if !KeyLe(SortKey(r[0]), SortKey(x)) {
        var t := Insert(x, r[1..]);
        InsertNewestFirst(x, r[1..]);
        assert s == [r[0]] + t;
        KeyTotal(SortKey(r[0]), SortKey(x));
        if |r| > 1 {
          assert KeyLe(SortKey(r[1]), SortKey(r[0]));
        }
      }
    }
  }

  /** The sorted list is newest first. */
  lemma {:induction false} SortIsNewestFirst(es: seq<Entry>)
    requires Sortable(es)
    ensures NewestFirst(SortNewestFirst(es))
  {
    if es != [] {
      OrderableTail(es);
      SortIsNewestFirst(es[1..]);
      SortStep(es, SortNewestFirst(es[1..]));
      InsertNewestFirst(es[0], SortNewestFirst(es[1..]));
    }
  }

  /** Newest first holds between any two positions, not only neighbours. */
  lemma {:induction false} NewestFirstPairs(s: seq<Entry>, i: nat, j: nat)
    requires NewestFirst(s) && i <= j < |s|
    ensures i == j || KeyLe(SortKey(s[j]), SortKey(s[i]))
    decreases j - i
  {
    if i < j - 1 {
      NewestFirstPairs(s, i, j - 1);
      KeyTrans(SortKey(s[j]), SortKey(s[j - 1]), SortKey(s[i]));
    }
  }
}
