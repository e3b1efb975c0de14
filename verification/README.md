# Transcript editing and result store: a Dafny model

This project models the two pieces of hand-written logic in the speech recognition web
service that sit around its speech models.

- **The browser client's transcript editing model** (`static/js/main.js`) covers:
  - validating an imported result file, and the default it fills in for `total_duration`;
  - merging the selected sentences, merging a sentence into its predecessor, and the
    merge-and-retranslate variant;
  - editing one sentence's text, then rolling it back when the translation or the sync fails;
  - the lookup of the sentence playing at a time;
  - the `MM:SS.cc` / `HH:MM:SS.cc` time format.

  The displayed result (`currentResult`) is the class `Transcript.Result`, whose methods
  overwrite its fields as the client does. Validation, formatting and the shape of each
  restructured list are functions, with lemmas about them.
- **The server's result shaping and record store** (`app.py`) covers:
  - the upload-suffix allowlist of `recognize_audio`;
  - reshaping the recogniser's `sentence_info` into sentence records with default speakers,
    a speaker set and a total duration;
  - the `list_results` summaries, their 100-character preview and the newest-first sort;
  - the audio file name rule of `upload_audio_for_result`, and which files `delete_result` removes;
  - the status codes the handlers actually answer with. HTTP errors raised inside `try`
    blocks arrive as 500.

  The `results/` directory is the class `Store.ResultStore`, holding a map from file name
  to content.

Modules:

- `Wrappers`: `Option`.
- `JsonValue`: decoded JSON values, and JavaScript and Python truthiness.
- `Text`: joining, distinct-in-order, min/max, decimal digits and `padStart`, `trim` and ASCII
  lower-casing.
- `TimeFormat`: the time format and its parser.
- `Transcript`: the client model.
- `Recognition`: the recognition request path.
- `ResultFiles`: the listing entries and the sort.
- `Store`: the store handlers.

Conventions of the model:

- Times are integers: centiseconds in the client and the recogniser's milliseconds on the server.
- `confirm()` answers, translation outcomes, the recogniser's output, uuids, clocks, hashes and
  the directory listing are parameters.

## Model

| member | source | states |
|---|---|---|
| `TimeFormat.FieldsRecompose` | static/js/main.js:12-15 | for a non-negative time, hours, minutes, seconds and centiseconds recompose the time, and minutes and seconds are below 60 |
| `TimeFormat.ClockLayout` | static/js/main.js:13-21 | the `MM:SS.cc` part has eight characters: a colon and a dot in place, two-digit fields, minutes and seconds below 60; it reads back as the time within the hour |
| `TimeFormat.FormatSplits` | static/js/main.js:17-21 | below an hour the output is exactly `MM:SS.cc`; from an hour on, the padded hours and a colon precede it |
| `TimeFormat.FormatLayout` | static/js/main.js:11-22 | the output has 8 characters exactly when the time is below an hour; otherwise it has at least two hour digits and a colon before `MM:SS.cc` |
| `TimeFormat.FormatParseRoundTrip` | static/js/main.js:11-22 | reading the formatted text of a non-negative time back gives that time: no information is lost |
| `Text.Pad2Properties` | static/js/main.js:18 | `padStart(2, '0')` gives at least two digits, exactly two below 100, with the same numeric value |
| `Text.NatToStringRoundTrip` | static/js/main.js:18 | a number's decimal text reads back as the number |
| `Text.TrimSlice` | static/js/main.js:1000 | `trim()` returns a slice of the input with only whitespace outside it |
| `Text.TrimEnds` | static/js/main.js:1000 | a trimmed non-empty text neither starts nor ends with whitespace |
| `Text.TrimEmptyIff` | static/js/main.js:1000-1004 | the trimmed text is empty exactly when the input is all whitespace |
| `Text.MaxOrZero` | static/js/main.js:380-381 | the largest element of a non-empty list (it is in the list and bounds every element), 0 for an empty one |
| `Text.DistinctFacts` | static/js/main.js:1319 | `[...new Set(xs)]` holds no duplicates and exactly the elements of `xs` |
| `Text.FirstIndex` | static/js/main.js:1319 | the position of the first occurrence of an element: it holds the element, and nothing before it does |
| `Text.DistinctOrder` | static/js/main.js:1319 | `[...new Set(xs)]` lists its elements in the order of their first occurrence in `xs` |
| `Transcript.FirstMalformed` | static/js/main.js:435-453 | the validation loop stops at the first sentence lacking `text` or `speaker`, or a numeric `start` or `end`, and reports none only if every sentence is well formed |
| `Transcript.ValidateJsonFormat` | static/js/main.js:418-463 | true exactly when `text`, `sentences` and `speakers` are present, `sentences` is an array of well-formed sentences, and `speakers` is an array |
| `Transcript.ImportDefaults` | static/js/main.js:379-382 | a missing or falsy `total_duration` (0 included) becomes the largest sentence end, or 0 with no sentences; every other field, and a truthy duration, is kept |
| `Transcript.SelectedFacts` | static/js/main.js:1257 | the sorted selection is strictly ascending and holds exactly the selected indices |
| `Transcript.SortedSelectionLength` | static/js/main.js:1257 | the sorted selection has one index per selected sentence |
| `Transcript.LowestSelected` | static/js/main.js:1257 | the first sorted index is the lowest selected index |
| `Transcript.MergeOfSelectionContent` | static/js/main.js:1278-1283 | the merged sentence has the minimum selected start, the maximum selected end, the selected texts joined by a space in index order, the lowest index's speaker, and no translation |
| `Transcript.MergeLayoutShape` | static/js/main.js:1295-1310 | after merging k of n sentences the list has n − k + 1 sentences, with the merged one at the lowest selected index |
| `Transcript.MergeLayoutKeepsOrder` | static/js/main.js:1295-1310 | without the merged sentence, the new list is exactly the unselected sentences in their original order |
| `Transcript.ContiguousMergeKeepsText` | static/js/main.js:1278-1316 | merging a contiguous selection leaves the full transcript text unchanged |
| `Transcript.ConsecutiveIffContiguous` | static/js/main.js:1157-1163 | the "consecutive" test passes exactly when the selected indices form one contiguous range |
| `Transcript.ConsecutiveIsRun` | static/js/main.js:1260-1266 | indices pass the test exactly when each is the first plus its position |
| `Transcript.MixedSpeakersIff` | static/js/main.js:1286-1287 | the speaker confirmation is asked exactly when two picked sentences have different speakers |
| `Transcript.SpeakerListFacts` | static/js/main.js:1319 | the rebuilt speaker list names each speaker of the new sentence list exactly once, nobody else, ordered by the first sentence each speaks |
| `Transcript.FullTextConcat` | static/js/main.js:1316 | the space-joined text of two sentence lists is their texts joined by one more space |
| `Transcript.MergedWithPrevious` | static/js/main.js:1361-1384 | the new list is one shorter; position `index-1` holds `prev.start`, `cur.end`, `prev.text + ' ' + cur.text`, `prev.speaker` and the translation; the sentences before it are unchanged, and those after it move up by one |
| `Transcript.MergeWithPreviousKeepsText` | static/js/main.js:1361-1387 | merging with the previous sentence leaves the full transcript text unchanged |
| `Transcript.WithText` | static/js/main.js:1009 | only the edited sentence's text changes |
| `Transcript.WithTranslation` | static/js/main.js:1026 | only the edited sentence's translation changes |
| `Transcript.RollbackRestores` | static/js/main.js:1085-1089 | rolling back restores the original list when no translation arrived; a translation that arrived stays attached |
| `Transcript.Result.SentenceAt` | static/js/main.js:655-666 | the lookup finds the first sentence with `start <= t <= end`, and finds none only when no sentence contains `t` |
| `Transcript.MergeChecks` | static/js/main.js:1246-1292 | the merge refuses fewer than two selected, then a gapped selection without consent, then mixed speakers without consent, each exactly in those cases; it goes ahead exactly when none applies |
| `Transcript.SameSpeakerRunMerges` | static/js/main.js:1255-1292 | a contiguous selection of two or more sentences by one speaker passes every check without asking the user anything |
| `Transcript.IsConsecutive` | static/js/main.js:1157-1163 | the loop with early exit computes the "consecutive" test |
| `Transcript.Rebuild` | static/js/main.js:1295-1310 | the `mergedAdded` loop produces the sentences before the lowest selected index, the merged sentence, then the unselected sentences after it |
| `Transcript.Result.MergeSelectedSentences` | static/js/main.js:1245-1334 | the merge happens exactly when at least two are selected and the user agreed where asked (gaps, mixed speakers); each refusal happens exactly in its own case; on success the sentences become the merge layout with the min/max merged sentence, `text` the space-join and `speakers` the distinct speakers; any refusal changes nothing |
| `Transcript.Result.MergeAndTranslateSentences` | static/js/main.js:1146-1242 | the merge happens exactly when the checks pass and the translation arrives, and fails with `NotTranslated` exactly when the checks pass and the translation is rejected; each refusal happens exactly in its own case; on success the merged sentence takes `start` of the first and `end` of the last selected sentence plus the new translation, and `speakers` is untouched; nothing changes otherwise |
| `Transcript.Result.MergeWithPrevious` | static/js/main.js:1337-1402 | `index <= 0` is refused; the user is asked only when the two speakers differ, and a decline refuses; a rejected translation fails; in every other case the list becomes the merged-with-previous layout with `text` and `speakers` rebuilt; every refusal or failure changes nothing |
| `Transcript.Result.SaveEdit` | static/js/main.js:999-1013 | a trimmed-empty edit is refused; otherwise only the sentence's text changes (to the trimmed input) and `text` is rebuilt, and the old text is returned |
| `Transcript.Result.FinishEdit` | static/js/main.js:1023-1096 | an arriving translation is attached; a failed translation or sync restores the old text and rebuilds `text` but keeps the translation |
| `Recognition.LastSegment` | app.py:155 | `split(".")[-1]` is dot-free, ends the name and follows its last dot (or is the whole name) |
| `Recognition.CheckUpload` | app.py:149-160 | an empty name gives 400 "No file uploaded"; every refusal is a 400; an accepted suffix is one of the six formats |
| `Recognition.CheckUploadIff` | app.py:153-160 | a non-empty name is accepted exactly when, lower-cased, it is one of wav/mp3/m4a/flac/aac/ogg or ends in a dot and one of them |
| `Recognition.CheckUploadSound` | app.py:153-160 | an accepted name ends, lower-cased, in an allowed format, whole or after a dot |
| `Recognition.CheckUploadComplete` | app.py:153-160 | a name ending, lower-cased, in an allowed format (whole or after a dot) is accepted |
| `Recognition.TextFileRejected` | app.py:155-160 | `invalid_audio.txt` is refused with the 400 unsupported-format detail |
| `Recognition.DefaultSpeakerParity` | app.py:237 | the default speaker is `Speaker_1` for even indices and `Speaker_2` for odd ones |
| `Recognition.ShapeSentences` | app.py:231-245 | one record per `sentence_info` entry, in order, with text, times and speaker defaulted per key; the speaker set holds exactly the records' speakers |
| `Recognition.ShapeResult` | app.py:222-266 | the response text is the result's text (default empty); the records follow `sentence_info`, or are the single full-text `Speaker_1` record at 0–0; the speaker set is exact; the total duration is the largest end |
| `Recognition.RecognizeAudio` | app.py:147-281 | the format check's 400s; 500s for save, transcode and recognition failures; "no speech" for an empty result list; otherwise the reshaped first result with the given id, hash, filename and timestamp |
| `ResultFiles.TextPreviewShape` | app.py:368 | a text of at most 100 characters is its own preview; a longer one keeps its first 100 characters followed by `...` |
| `ResultFiles.Summarize` | app.py:356-383 | a JSON object whose preview and lengths can be computed gives a summary of the file's size. Its fields are the `dict.get` values with their defaults: the text preview, the lengths of `speakers` and `sentences`, `total_duration` (0) and `timestamp` (the creation time). Anything else gives the fallback entry with the creation time and size |
| `ResultFiles.SummaryOfStoredResult` | app.py:363-374 | a stored result with string text and list-valued speakers and sentences, each possibly absent, is always summarised with the preview of its text, the lengths of its lists, its duration or 0, and its timestamp or the creation time |
| `ResultFiles.LongTextPreviewed` | app.py:368 | a stored text over 100 characters is listed with its first 100 characters and `...` |
| `ResultFiles.EntriesIds` | app.py:347-352 | every `.json` name is listed under its id without the suffix, and no other name is listed |
| `ResultFiles.LexTotal` | app.py:386 | any two strings compare one way or the other |
| `ResultFiles.LexTrans` | app.py:386 | string comparison is transitive |
| `ResultFiles.Insert` | app.py:386 | one insertion step of the sort keeps the multiset of entries and grows the list by one |
| `ResultFiles.SortNewestFirst` | app.py:386 | the sorted list is a permutation of the entries |
| `ResultFiles.InsertNewestFirst` | app.py:386 | inserting into a newest-first list keeps it newest first |
| `ResultFiles.SortIsNewestFirst` | app.py:386 | the sorted list is in descending key order (`timestamp`, else `created_time`) |
| `ResultFiles.NewestFirstPairs` | app.py:386 | in the sorted list every entry's key is at most that of every earlier entry |
| `Store.SplitExt` | app.py:409 | `splitext` gives empty or a dot-led, dot-free, slash-free suffix of the name |
| `Store.SplitExtIff` | app.py:409 | the extension is non-empty exactly when the last path component has a dot with a non-dot character before it, and then it runs from the last dot to the end |
| `Store.SplitExtPlain` | app.py:409 | `interview.MP3` has extension `.MP3` and `archive.tar.gz` has `.gz` |
| `Store.SplitExtNone` | app.py:409 | `.bashrc`, `recording` and `take.1/rec` have no extension |
| `Store.AudioFile` | app.py:409-410 | the stored audio name is `{id}_audio{ext}`, with `.wav` for a nameless upload |
| `Store.DeleteFindsUpload` | app.py:501-506 | deletion removes an uploaded audio file exactly when its extension is one of the six lower-case ones |
| `Store.UpperCaseUploadSurvivesDelete` | app.py:501-506 | an upload named `interview.MP3` is not removed when its result is deleted |
| `Store.PresentAudioMembers` | app.py:501-506 | the reported audio paths are exactly `results/{id}_audio{ext}` for the present candidates |
| `Store.ResultStore.SaveResult` | app.py:294-317 | a missing or falsy `result_id` answers 500 "Failed to save result: 400: Missing result_id" and stores nothing; otherwise the body is stored under `{result_id}.json` and nothing else changes |
| `Store.ResultStore.ListResults` | app.py:339-396 | the answer is the entries sorted newest first with `total_count` their number, exactly when the keys can be compared; otherwise it is a 500 |
| `Store.ResultStore.ExportResult` | app.py:320-336 | a stored result is offered as `astromao_result_{id}.json`; a missing one answers 500 with the 404 text |
| `Store.ResultStore.UpdateResult` | app.py:459-484 | the file becomes the given data plus `updated_timestamp`; every other field and every other file is unchanged |
| `Store.ResultStore.UploadAudio` | app.py:399-437 | the bytes are stored under the derived audio name and only that file changes |
| `Store.ResultStore.DeleteResult` | app.py:487-521 | a missing result answers 500 with the 404 text and changes nothing; otherwise the JSON and the six candidate audio files are removed, and `deleted_files` lists the JSON then the present audio files in extension order |

## Left out

- Floating point:
  - the recogniser's millisecond-to-second division and `round(..., 2)` (app.py:233-244, 266);
  - `Math.floor` on fractional seconds in `formatTimeToHMS`.

  Times are integers: centiseconds in the client and milliseconds on the server.
- `Text.Lower`: ASCII letters only. Python's `str.lower` also folds non-ASCII letters, so a
  suffix written in non-ASCII capitals is outside the model.
- `Transcript.ValidateJsonFormat`: two cases throw in JavaScript, and the import handler
  reports them as a parse failure. The model returns `false` instead, so the import is
  rejected either way:
  - `'field' in data` on a non-object `data` (null or a primitive);
  - `hasOwnProperty` on a `null` element of `sentences` (main.js:430-447; `FirstMalformed`).
- `TimeFormat.FormatTimeToHms`: negative times are outside the model; the time is a `nat`.
  - The JavaScript function accepts any number, and an imported file may carry a negative
    `start` or `end`, which `validateJsonFormat` only checks to be numbers.
  - For a negative time JavaScript renders text such as `-1:-5.00`, which does not read back.
  - So `FormatParseRoundTrip`, `FormatLayout`, `FormatSplits` and `ClockLayout` speak of
    non-negative times only.
- `Transcript.Result.MergeSelectedSentences`, `Transcript.Result.MergeAndTranslateSentences`,
  `Transcript.Result.MergeWithPrevious`: not modelled:
  - the "no result loaded" checks;
  - selections naming indices beyond the list (the methods require the selection to lie in range).
- `autoSyncResult`, `translateText`, the DOM, scrolling and playback: not modelled. Translation
  and sync outcomes are parameters.
- Interleaving of concurrent asynchronous edits is not modelled.
- `Recognition.RecognizeAudio` leaves out:
  - transcoding, the MD5 hash, uuid, the clock and the recogniser, which are parameters;
  - temporary-file clean-up;
  - the recogniser's retry without sentence timestamps.
- `Recognition.RecognizeAudio`: `spk` values are modelled as strings.
- `Recognition.RecognizeAudio`: `list(speakers)` has no specified order in Python, so the model
  keeps the speakers as a set.
- `Store.ResultStore.SaveResult`: a `result_id` that is a list or an object is answered with a
  500 in the model. Python would format it into a file name.
- `Store.ResultStore.ListResults`: only all-string or all-integer sort keys are ordered. In
  every other case the model answers 500 with a detail that omits the operand type names.
  - Python also answers 500 for a string key mixed with a number, and for `null` or object
    keys.
  - Python does sort some lists the model rejects: all-boolean keys, booleans mixed with
    integers, and list keys. There the model answers 500 where Python sorts.
- `Store.ResultStore.ListResults`: stability of the sort among equal keys is not stated as a lemma.
- `Store.ResultStore.ListResults`: files stored as bytes that happen to parse as JSON are listed
  with the fallback entry.
- `ResultFiles.SortNewestFirst`: Python's built-in `list.sort` is modelled as an insertion sort
  function over the entries rather than an in-place sort.
- I/O failures of the handlers are not modelled. They would answer 500 with the exception text.
- The `get_audio_file` and `health_check` handlers are not modelled.
- The FastAPI routing is not modelled.
