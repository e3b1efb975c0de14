/**
 * The browser client's transcript editing model (`static/js/main.js`):
 * validation and defaults for imported result files, the three ways of
 * restructuring the sentence list, editing one sentence's text with rollback,
 * and the playback-time lookup. Times are integer centiseconds.
 */
module Transcript {
  import opened Wrappers
  import opened Text
  import opened JsonValue

  /** One transcript sentence; `translation` is absent until a translation has been attached. */
  datatype Sentence = Sentence(text: string, start: int, end: int, speaker: string, translation: Option<string>)

  /** What the translation request of a merge produced: a translation, or a rejected promise. */
  datatype Translation = Translated(value: string) | TranslationRejected

  /**
   * What followed a saved text edit: the translation request failed, the translation
   * arrived but the automatic sync failed, or both succeeded.
   */
  datatype FollowUp = TranslateFailed | SyncFailed(translation: string) | Synced(translation: string)

  /** How an editing operation ended. */
  datatype Outcome =
    | Done              // the sentence list was restructured
    | TooFewSelected    // fewer than two sentences selected
    | FirstSentence     // "merge with previous" on the first sentence
    | DeclinedGap       // the user declined to merge a non-contiguous selection
    | DeclinedSpeakers  // the user declined to merge different speakers
    | NotTranslated     // the translation request failed; nothing changed

  /** How the save half of a text edit ended; `Saved` carries the text it replaced. */
  datatype SaveOutcome = EmptyText | NoSentence | Saved(oldText: string)

  // ---------------------------------------------------------------------------
  // Import validation (validateJsonFormat) and the total_duration default

  /** `key in v` for an object, `v.hasOwnProperty(key)`; other values have no such keys. */
  predicate HasKey(v: Json, key: string)
  {
    v.JObj? && key in v.fields
  }

  /** An imported sentence has `text` and `speaker`, and numeric `start` and `end`. */
  predicate SentenceShapeOk(v: Json)
  {
    HasKey(v, "text") && HasKey(v, "start") && v.fields["start"].JNum?
    && HasKey(v, "end") && v.fields["end"].JNum? && HasKey(v, "speaker")
  }

  /** The numeric `end` of a well-formed imported sentence. */
  function EndOf(v: Json): int
    requires SentenceShapeOk(v)
  {
    v.fields["end"].n
  }

  /** The first sentence from index `from` on that the validation loop rejects, if any. */
  function FirstMalformed(items: seq<Json>, from: nat): (r: Option<nat>)
    requires from <= |items|
    ensures r == None <==> forall i :: from <= i < |items| ==> SentenceShapeOk(items[i])
    ensures r.Some? ==> from <= r.value < |items| && !SentenceShapeOk(items[r.value])
                        && forall i :: from <= i < r.value ==> SentenceShapeOk(items[i])
    decreases |items| - from
  {
    if from == |items| then None
    else if !SentenceShapeOk(items[from]) then Some(from)
    else FirstMalformed(items, from + 1)
  }

  /**
   * `validateJsonFormat`: the three required fields are present, `sentences` is an
   * array of well-formed sentences and `speakers` is an array.
   */
  function ValidateJsonFormat(data: Json): (ok: bool)
    ensures ok <==>
      && HasKey(data, "text") && HasKey(data, "sentences") && HasKey(data, "speakers")
      && data.fields["sentences"].JArr?
      && (forall i :: 0 <= i < |data.fields["sentences"].items| ==>
            SentenceShapeOk(data.fields["sentences"].items[i]))
      && data.fields["speakers"].JArr?
  {
    if !(HasKey(data, "text") && HasKey(data, "sentences") && HasKey(data, "speakers")) then false
    else if !data.fields["sentences"].JArr? then false
    else if FirstMalformed(data.fields["sentences"].items, 0).Some? then false
    else data.fields["speakers"].JArr?
  }

  /** The `end` of every imported sentence, in order. */
  function ImportedEnds(items: seq<Json>): (ends: seq<int>)
    requires forall i :: 0 <= i < |items| ==> SentenceShapeOk(items[i])
    ensures |ends| == |items| && forall i :: 0 <= i < |items| ==> ends[i] == EndOf(items[i])
  {
    seq(|items|, i requires 0 <= i < |items| => EndOf(items[i]))
  }

  /**
   * The import default: a missing or falsy `total_duration` (0 included) becomes the
   * largest sentence end, or 0 without sentences; every other field is kept.
   */
  function ImportDefaults(data: Json): (r: Json)
    requires ValidateJsonFormat(data)
    ensures r.JObj? && r.fields.Keys == data.fields.Keys + {"total_duration"}
    ensures forall k :: k in data.fields && k != "total_duration" ==> r.fields[k] == data.fields[k]
    ensures HasKey(data, "total_duration") && JsTruthy(data.fields["total_duration"]) ==> r == data
    ensures !(HasKey(data, "total_duration") && JsTruthy(data.fields["total_duration"])) ==>
      var items := data.fields["sentences"].items;
      && r.fields["total_duration"].JNum?
      && (items == [] ==> r.fields["total_duration"].n == 0)
      && (forall i :: 0 <= i < |items| ==> EndOf(items[i]) <= r.fields["total_duration"].n)
      && (items != [] ==> exists i :: 0 <= i < |items| && EndOf(items[i]) == r.fields["total_duration"].n)
  {
    if HasKey(data, "total_duration") && JsTruthy(data.fields["total_duration"]) then data
    else
      var items := data.fields["sentences"].items;
      var ends := ImportedEnds(items);
      var d := MaxOrZero(ends);
      assert forall i :: 0 <= i < |items| ==> ends[i] in ends;
      JObj(data.fields["total_duration" := JNum(d)])
  }

  // ---------------------------------------------------------------------------
  // Derived fields

  function Texts(ss: seq<Sentence>): (ts: seq<string>)
    ensures |ts| == |ss| && forall i :: 0 <= i < |ss| ==> ts[i] == ss[i].text
  {
    seq(|ss|, i requires 0 <= i < |ss| => ss[i].text)
  }

  function SpeakersOf(ss: seq<Sentence>): (ps: seq<string>)
    ensures |ps| == |ss| && forall i :: 0 <= i < |ss| ==> ps[i] == ss[i].speaker
  {
    seq(|ss|, i requires 0 <= i < |ss| => ss[i].speaker)
  }

  function Starts(ss: seq<Sentence>): (xs: seq<int>)
    ensures |xs| == |ss| && forall i :: 0 <= i < |ss| ==> xs[i] == ss[i].start
  {
    seq(|ss|, i requires 0 <= i < |ss| => ss[i].start)
  }

  function Ends(ss: seq<Sentence>): (xs: seq<int>)
    ensures |xs| == |ss| && forall i :: 0 <= i < |ss| ==> xs[i] == ss[i].end
  {
    seq(|ss|, i requires 0 <= i < |ss| => ss[i].end)
  }

  /** `sentences.map(s => s.text).join(' ')`: the full transcript text. */
  function FullText(ss: seq<Sentence>): string
  {
    Join(Texts(ss), " ")
  }

  /**
   * `[...new Set(sentences.map(s => s.speaker))]`: every speaker of the list once,
   * in order of first appearance.
   */
  function SpeakerList(ss: seq<Sentence>): seq<string>
  {
    Distinct(SpeakersOf(ss))
  }

  /**
   * The speaker list names each speaker of the sentences exactly once, and no one else,
   * ordered by the first sentence each one speaks.
   */
  lemma {:induction false} SpeakerListFacts(ss: seq<Sentence>)
    ensures NoDuplicates(SpeakerList(ss))
    ensures forall p :: p in SpeakerList(ss) <==> exists i :: 0 <= i < |ss| && ss[i].speaker == p
    ensures forall k :: 0 <= k < |SpeakerList(ss)| ==> SpeakerList(ss)[k] in SpeakersOf(ss)
    ensures forall k, l :: 0 <= k < l < |SpeakerList(ss)| ==>
      FirstIndex(SpeakersOf(ss), SpeakerList(ss)[k]) < FirstIndex(SpeakersOf(ss), SpeakerList(ss)[l])
  {
    var all := SpeakersOf(ss);
    DistinctFacts(all);
    DistinctOrder(all);
    assert forall p :: p in all <==> exists i :: 0 <= i < |ss| && ss[i].speaker == p;
  }

  /** Joining texts is compatible with concatenating sentence lists. */
  lemma {:induction false} FullTextConcat(a: seq<Sentence>, b: seq<Sentence>)
    requires |a| > 0 && |b| > 0
    ensures FullText(a + b) == FullText(a) + " " + FullText(b)
  {
    assert Texts(a + b) == Texts(a) + Texts(b);
    JoinConcat(Texts(a), Texts(b), " ");
  }

  // ---------------------------------------------------------------------------
  // Selections

  /** The selected indices in `[lo, hi)`, ascending (`Array.from(selected).sort((a, b) => a - b)`). */
  function Selected(sel: set<nat>, lo: nat, hi: nat): (r: seq<nat>)
    requires lo <= hi
    ensures forall k :: 0 <= k < |r| ==> lo <= r[k] < hi
    decreases hi
  {
    if hi == lo then []
    else Selected(sel, lo, hi - 1) + (if hi - 1 in sel then [hi - 1] else [])
  }

  /** The sorted selection is strictly ascending and holds exactly the selected indices of `[lo, hi)`. */
  lemma {:induction false} SelectedFacts(sel: set<nat>, lo: nat, hi: nat)
    requires lo <= hi
    ensures var r := Selected(sel, lo, hi);
      && (forall i, j :: 0 <= i < j < |r| ==> r[i] < r[j])
      && (forall x :: x in r <==> x in sel && lo <= x < hi)
    decreases hi
  {
    if hi > lo {
      SelectedFacts(sel, lo, hi - 1);
    }
  }

  /** The unselected sentences with index in `[lo, hi)`, in their original order. */
  function Kept(ss: seq<Sentence>, sel: set<nat>, lo: nat, hi: nat): seq<Sentence>
    requires lo <= hi <= |ss|
    decreases hi
  {
    if hi == lo then []
    else Kept(ss, sel, lo, hi - 1) + (if hi - 1 in sel then [] else [ss[hi - 1]])
  }

  /** Every index of `[lo, hi)` is either kept or selected. */
  lemma {:induction false} KeptLength(ss: seq<Sentence>, sel: set<nat>, lo: nat, hi: nat)
    requires lo <= hi <= |ss|
    ensures |Kept(ss, sel, lo, hi)| + |Selected(sel, lo, hi)| == hi - lo
    decreases hi
  {
    if hi > lo {
      KeptLength(ss, sel, lo, hi - 1);
    }
  }

  /** All of `sel` lies below `n`: the selection only names existing sentences. */
  predicate WithinRange(sel: set<nat>, n: nat)
  {
    forall i :: i in sel ==> i < n
  }

  /** The sorted selection lists every selected index exactly once. */
  lemma {:induction false} SelectedCount(sel: set<nat>, hi: nat)
    ensures |Selected(sel, 0, hi)| == |set i: nat | i in sel && i < hi|
  {
    if hi > 0 {
      SelectedCount(sel, hi - 1);
      var below := set i: nat | i in sel && i < hi - 1;
      var upto := set i: nat | i in sel && i < hi;
      if hi - 1 in sel {
        assert upto == below + {hi - 1};
      } else {
        assert upto == below;
      }
    }
  }

  /** A selection within `[0, n)` has as many sorted indices as it has members. */
  lemma {:induction false} SortedSelectionLength(sel: set<nat>, n: nat)
    requires WithinRange(sel, n)
    ensures |Selected(sel, 0, n)| == |sel|
  {
    SelectedCount(sel, n);
    assert (set i: nat | i in sel && i < n) == sel;
  }

  /** A range with nothing selected contributes no indices. */
  lemma {:induction false} SelectedNone(sel: set<nat>, lo: nat, hi: nat)
    requires lo <= hi
    requires forall i: nat :: lo <= i < hi ==> i !in sel
    ensures Selected(sel, lo, hi) == []
    decreases hi
  {
    if hi > lo {
      SelectedNone(sel, lo, hi - 1);
    }
  }

  /** Splitting the index range splits the selection. */
  lemma {:induction false} SelectedSplit(sel: set<nat>, lo: nat, mid: nat, hi: nat)
    requires lo <= mid <= hi
    ensures Selected(sel, lo, hi) == Selected(sel, lo, mid) + Selected(sel, mid, hi)
    decreases hi
  {
    if hi > mid {
      SelectedSplit(sel, lo, mid, hi - 1);
    }
  }

  /** Splitting the index range splits the kept sentences. */
  lemma {:induction false} KeptSplit(ss: seq<Sentence>, sel: set<nat>, lo: nat, mid: nat, hi: nat)
    requires lo <= mid <= hi <= |ss|
    ensures Kept(ss, sel, lo, hi) == Kept(ss, sel, lo, mid) + Kept(ss, sel, mid, hi)
    decreases hi
  {
    if hi > mid {
      KeptSplit(ss, sel, lo, mid, hi - 1);
    }
  }

  /** Over a range with nothing selected, every sentence is kept. */
  lemma {:induction false} KeptUnselected(ss: seq<Sentence>, sel: set<nat>, lo: nat, hi: nat)
    requires lo <= hi <= |ss|
    requires forall i :: lo <= i < hi ==> i !in sel
    ensures Kept(ss, sel, lo, hi) == ss[lo..hi]
    decreases hi
  {
    if hi > lo {
      KeptUnselected(ss, sel, lo, hi - 1);
    }
  }

  /** The sentences a selection picks, in ascending index order (`selectedIndices.map(i => sentences[i])`). */
  function Picked(ss: seq<Sentence>, idx: seq<nat>): (ps: seq<Sentence>)
    requires forall k :: 0 <= k < |idx| ==> idx[k] < |ss|
    ensures |ps| == |idx| && forall k :: 0 <= k < |idx| ==> ps[k] == ss[idx[k]]
  {
    seq(|idx|, k requires 0 <= k < |idx| => ss[idx[k]])
  }

  /** The lowest selected index heads the sorted selection. */
  lemma {:induction false} LowestSelected(sel: set<nat>, n: nat)
    requires WithinRange(sel, n) && |sel| >= 1
    ensures var idx := Selected(sel, 0, n);
      && |idx| == |sel|
      && idx[0] in sel
      && (forall i :: i in sel ==> idx[0] <= i)
      && (forall i :: i in sel <==> i in idx)
  {
    var idx := Selected(sel, 0, n);
    SortedSelectionLength(sel, n);
    SelectedFacts(sel, 0, n);
    forall i | i in sel ensures idx[0] <= i {
      var k :| 0 <= k < |idx| && idx[k] == i;
      assert k == 0 || idx[0] < idx[k];
    }
  }

  /**
   * The sentence `mergeSelectedSentences` builds: the earliest start and latest end
   * among the selected sentences, their texts joined in index order, and the speaker
   * of the lowest selected index; it carries no translation.
   */
  function MergeOfSelection(ss: seq<Sentence>, sel: set<nat>): Sentence
    requires WithinRange(sel, |ss|) && |sel| >= 1
  {
    SortedSelectionLength(sel, |ss|);
    var picked := Picked(ss, Selected(sel, 0, |ss|));
    Sentence(FullText(picked), Min(Starts(picked)), Max(Ends(picked)), picked[0].speaker, None)
  }

  /**
   * The merged sentence spans the selection: its start is the earliest selected start,
   * its end the latest selected end, its text the selected texts joined in index order,
   * its speaker that of the lowest selected index, and it has no translation.
   */
  lemma {:induction false} MergeOfSelectionContent(ss: seq<Sentence>, sel: set<nat>)
    requires WithinRange(sel, |ss|) && |sel| >= 1
    ensures var m := MergeOfSelection(ss, sel);
      && (forall i :: i in sel ==> m.start <= ss[i].start && ss[i].end <= m.end)
      && (exists i :: i in sel && m.start == ss[i].start)
      && (exists i :: i in sel && m.end == ss[i].end)
      && m.text == FullText(Picked(ss, Selected(sel, 0, |ss|)))
      && (exists i :: i in sel && m.speaker == ss[i].speaker && forall j :: j in sel ==> i <= j)
      && m.translation == None
  {
    LowestSelected(sel, |ss|);
    var idx := Selected(sel, 0, |ss|);
    var picked := Picked(ss, idx);
    var starts := Starts(picked);
    var ends := Ends(picked);
    var lo := Min(starts);
    var hi := Max(ends);
    assert forall i :: i in sel ==> lo <= ss[i].start && ss[i].end <= hi by {
      forall i | i in sel ensures lo <= ss[i].start && ss[i].end <= hi {
        var k :| 0 <= k < |idx| && idx[k] == i;
        assert starts[k] in starts && ends[k] in ends;
      }
    }
    assert exists i :: i in sel && lo == ss[i].start by {
      var k :| 0 <= k < |starts| && starts[k] == lo;
      assert idx[k] in idx;
    }
    assert exists i :: i in sel && hi == ss[i].end by {
      var k :| 0 <= k < |ends| && ends[k] == hi;
      assert idx[k] in idx;
    }
    assert idx[0] in sel;
  }

  /**
   * The sentence list after a selection is merged into `m`: the sentences before the
   * lowest selected index, `m`, then the unselected sentences after it in order.
   */
  function MergeLayout(ss: seq<Sentence>, sel: set<nat>, first: nat, m: Sentence): seq<Sentence>
    requires first < |ss|
  {
    ss[..first] + [m] + Kept(ss, sel, first + 1, |ss|)
  }

  /** Below the lowest selected index nothing is selected, and the lowest index itself is. */
  lemma {:induction false} SelectionStartsAtFirst(sel: set<nat>, n: nat)
    requires WithinRange(sel, n) && |sel| >= 1
    ensures var idx := Selected(sel, 0, n);
      && |idx| == |sel|
      && idx[0] in sel
      && Selected(sel, 0, idx[0]) == []
      && Selected(sel, idx[0], idx[0] + 1) == [idx[0]]
      && Selected(sel, 0, n) == Selected(sel, idx[0], idx[0] + 1) + Selected(sel, idx[0] + 1, n)
  {
    LowestSelected(sel, n);
    var idx := Selected(sel, 0, n);
    var first := idx[0];
    SelectedSplit(sel, 0, first, n);
    SelectedSplit(sel, first, first + 1, n);
    SelectedNone(sel, 0, first);
  }

  /** The merged layout has `n - k + 1` sentences and the merged one sits at the lowest selected index. */
  lemma {:induction false} MergeLayoutShape(ss: seq<Sentence>, sel: set<nat>, m: Sentence)
    requires WithinRange(sel, |ss|) && |sel| >= 2
    ensures var idx := Selected(sel, 0, |ss|);
      && |idx| == |sel|
      && var r := MergeLayout(ss, sel, idx[0], m);
      && |r| == |ss| - |sel| + 1
      && r[idx[0]] == m
  {
    var n := |ss|;
    SelectionStartsAtFirst(sel, n);
    var first := Selected(sel, 0, n)[0];
    KeptLength(ss, sel, first + 1, n);
  }

  /** Without the merged sentence, the layout is exactly the unselected sentences in their original order. */
  lemma {:induction false} MergeLayoutKeepsOrder(ss: seq<Sentence>, sel: set<nat>, m: Sentence)
    requires WithinRange(sel, |ss|) && |sel| >= 2
    ensures var idx := Selected(sel, 0, |ss|);
      && |idx| == |sel|
      && var r := MergeLayout(ss, sel, idx[0], m);
      && r[..idx[0]] + r[idx[0] + 1..] == Kept(ss, sel, 0, |ss|)
  {
    var n := |ss|;
    SelectionStartsAtFirst(sel, n);
    var first := Selected(sel, 0, n)[0];
    assert Kept(ss, sel, 0, first) == ss[..first] by {
      assert forall i :: 0 <= i < first ==> i !in sel by {
        LowestSelected(sel, n);
      }
      KeptUnselected(ss, sel, 0, first);
    }
    assert Kept(ss, sel, first, first + 1) == [];
    assert Kept(ss, sel, 0, n) == ss[..first] + Kept(ss, sel, first + 1, n) by {
      KeptSplit(ss, sel, 0, first, n);
      KeptSplit(ss, sel, first, first + 1, n);
    }
    var r := MergeLayout(ss, sel, first, m);
    assert r[..first] == ss[..first];
    assert r[first + 1..] == Kept(ss, sel, first + 1, n);
  }

  /** Replacing a non-empty stretch by sentences with the same full text keeps the full text. */
  lemma {:induction false} FullTextReplace(a: seq<Sentence>, b: seq<Sentence>, c: seq<Sentence>, x: seq<Sentence>)
    requires |b| > 0 && |x| > 0 && FullText(x) == FullText(b)
    ensures FullText(a + x + c) == FullText(a + b + c)
  {
    if a != [] && c != [] {
      FullTextConcat(a, x);
      FullTextConcat(a + x, c);
      FullTextConcat(a, b);
      FullTextConcat(a + b, c);
    } else if a != [] {
      assert a + x + c == a + x && a + b + c == a + b;
      FullTextConcat(a, x);
      FullTextConcat(a, b);
    } else if c != [] {
      assert a + x + c == x + c && a + b + c == b + c;
      FullTextConcat(x, c);
      FullTextConcat(b, c);
    } else {
      assert a + x + c == x && a + b + c == b;
    }
  }

  /** A contiguous selection sorts to the run of its indices. */
  lemma {:induction false} SelectedRun(sel: set<nat>, lo: nat, hi: nat)
    requires lo <= hi
    requires forall i: nat :: lo <= i < hi ==> i in sel
    ensures |Selected(sel, lo, hi)| == hi - lo
    ensures forall k :: 0 <= k < hi - lo ==> Selected(sel, lo, hi)[k] == lo + k
    decreases hi
  {
    if hi > lo {
      SelectedRun(sel, lo, hi - 1);
    }
  }

  /** Over a fully selected range nothing is kept. */
  lemma {:induction false} KeptEmpty(ss: seq<Sentence>, sel: set<nat>, lo: nat, hi: nat)
    requires lo <= hi <= |ss|
    requires forall i: nat :: lo <= i < hi ==> i in sel
    ensures Kept(ss, sel, lo, hi) == []
    decreases hi
  {
    if hi > lo {
      KeptEmpty(ss, sel, lo, hi - 1);
    }
  }

  /** A selection that is exactly `[lo, hi)` sorts to the indices `lo, lo + 1, ..., hi - 1`. */
  lemma {:induction false} ContiguousSelection(sel: set<nat>, lo: nat, hi: nat, n: nat)
    requires lo + 2 <= hi <= n
    requires forall i: nat :: i in sel <==> lo <= i < hi
    ensures WithinRange(sel, n) && |sel| >= 1
    ensures var idx := Selected(sel, 0, n);
      |idx| == hi - lo && forall k :: 0 <= k < hi - lo ==> idx[k] == lo + k
  {
    assert lo in sel;
    assert WithinRange(sel, n);
    assert Selected(sel, 0, n) == Selected(sel, lo, hi) by {
      SelectedSplit(sel, 0, lo, n);
      SelectedSplit(sel, lo, hi, n);
      SelectedNone(sel, 0, lo);
      SelectedNone(sel, hi, n);
    }
    SelectedRun(sel, lo, hi);
  }

  /** Merging the selection `[lo, hi)` into `m` gives `ss[..lo] + [m] + ss[hi..]`. */
  lemma {:induction false} ContiguousLayout(ss: seq<Sentence>, sel: set<nat>, lo: nat, hi: nat, m: Sentence)
    requires lo + 2 <= hi <= |ss|
    requires forall i: nat :: i in sel <==> lo <= i < hi
    ensures MergeLayout(ss, sel, lo, m) == ss[..lo] + [m] + ss[hi..]
  {
    var n := |ss|;
    assert Kept(ss, sel, lo + 1, n) == ss[hi..] by {
      KeptUnselected(ss, sel, hi, n);
      KeptSplit(ss, sel, lo + 1, hi, n);
      KeptEmpty(ss, sel, lo + 1, hi);
    }
  }

  /** The merge of the selection `[lo, hi)` starts at `lo` and its text joins `ss[lo..hi]`. */
  lemma {:induction false} ContiguousMergeText(ss: seq<Sentence>, sel: set<nat>, lo: nat, hi: nat)
    requires lo + 2 <= hi <= |ss|
    requires forall i: nat :: i in sel <==> lo <= i < hi
    ensures WithinRange(sel, |ss|) && |sel| >= 1
    ensures |Selected(sel, 0, |ss|)| >= 1 && Selected(sel, 0, |ss|)[0] == lo
    ensures MergeOfSelection(ss, sel).text == FullText(ss[lo..hi])
  {
    ContiguousSelection(sel, lo, hi, |ss|);
    assert Picked(ss, Selected(sel, 0, |ss|)) == ss[lo..hi];
  }

  /**
   * Merging a contiguous selection does not change the full transcript text: the merged
   * text is the selected texts joined with the same separator.
   */
  lemma {:induction false} ContiguousMergeKeepsText(ss: seq<Sentence>, sel: set<nat>, lo: nat, hi: nat)
    requires lo + 2 <= hi <= |ss|
    requires forall i: nat :: i in sel <==> lo <= i < hi
    ensures WithinRange(sel, |ss|) && |sel| >= 1
    ensures FullText(MergeLayout(ss, sel, lo, MergeOfSelection(ss, sel))) == FullText(ss)
  {
    ContiguousMergeText(ss, sel, lo, hi);
    var m := MergeOfSelection(ss, sel);
    ContiguousLayout(ss, sel, lo, hi, m);
    assert FullText([m]) == FullText(ss[lo..hi]) by {
      assert Texts([m]) == [m.text];
    }
    FullTextReplace(ss[..lo], ss[lo..hi], ss[hi..], [m]);
    assert ss[..lo] + ss[lo..hi] + ss[hi..] == ss;
  }

  /** The "consecutive" test on the sorted indices: each one follows its predecessor. */
  predicate Consecutive(idx: seq<nat>)
  {
    forall i :: 1 <= i < |idx| ==> idx[i] == idx[i - 1] + 1
  }

  /** The consecutive test holds exactly when the indices are the run `idx[0], idx[0] + 1, ...`. */
  lemma {:induction false} ConsecutiveIsRun(idx: seq<nat>)
    requires |idx| > 0
    ensures Consecutive(idx) <==> forall k :: 0 <= k < |idx| ==> idx[k] == idx[0] + k
  {
    if Consecutive(idx) {
      ConsecutiveRun(idx, |idx|);
    }
  }

  lemma {:induction false} ConsecutiveRun(idx: seq<nat>, upto: nat)
    requires |idx| > 0 && upto <= |idx| && Consecutive(idx)
    ensures forall k :: 0 <= k < upto ==> idx[k] == idx[0] + k
  {
    if upto > 1 {
      ConsecutiveRun(idx, upto - 1);
      assert idx[upto - 1] == idx[upto - 2] + 1;
    }
  }

  /**
   * The selection test of both merges: the sorted selection passes the consecutive test
   * exactly when the selected indices are one contiguous range.
   */
  lemma {:induction false} ConsecutiveIffContiguous(sel: set<nat>, n: nat)
    requires WithinRange(sel, n) && |sel| >= 1
    ensures var idx := Selected(sel, 0, n);
      && |idx| == |sel|
      && (Consecutive(idx) <==> forall i: nat :: i in sel <==> idx[0] <= i < idx[0] + |sel|)
  {
    LowestSelected(sel, n);
    var idx := Selected(sel, 0, n);
    if Consecutive(idx) {
      ConsecutiveIsContiguous(sel, n);
    }
    if forall i: nat :: i in sel <==> idx[0] <= i < idx[0] + |sel| {
      ContiguousIsConsecutive(sel, n);
    }
  }

  /** A selection that passes the consecutive test is the range starting at its lowest index. */
  lemma {:induction false} ConsecutiveIsContiguous(sel: set<nat>, n: nat)
    requires WithinRange(sel, n) && |sel| >= 1
    requires |Selected(sel, 0, n)| >= 1 && Consecutive(Selected(sel, 0, n))
    ensures var idx := Selected(sel, 0, n);
      forall i: nat :: i in sel <==> idx[0] <= i < idx[0] + |sel|
  {
    LowestSelected(sel, n);
    var idx := Selected(sel, 0, n);
    var lo := idx[0];
    ConsecutiveIsRun(idx);
    forall i: nat | lo <= i < lo + |sel| ensures i in sel {
      assert idx[i - lo] == i;
    }
  }

  /** A selection that is the range starting at its lowest index passes the consecutive test. */
  lemma {:induction false} ContiguousIsConsecutive(sel: set<nat>, n: nat)
    requires WithinRange(sel, n) && |sel| >= 1
    requires |Selected(sel, 0, n)| >= 1
    requires var idx := Selected(sel, 0, n);
      forall i: nat :: i in sel <==> idx[0] <= i < idx[0] + |sel|
    ensures Consecutive(Selected(sel, 0, n))
  {
    LowestSelected(sel, n);
    SelectedFacts(sel, 0, n);
    var idx := Selected(sel, 0, n);
    var lo := idx[0];
    assert forall i :: 0 <= i < |idx| ==> idx[i] < lo + |sel| by {
      forall i | 0 <= i < |idx| ensures idx[i] < lo + |sel| {
        assert idx[i] in sel;
      }
    }
    forall k | 0 <= k < |idx| ensures idx[k] == lo + k {
      IncreasingBound(idx, k);
      IncreasingBoundFromTop(idx, k, lo + |sel|);
    }
  }

  /** In a strictly ascending list, the element at `k` is at least `k` above the first. */
  lemma {:induction false} IncreasingBound(idx: seq<nat>, k: nat)
    requires k < |idx| && forall i, j :: 0 <= i < j < |idx| ==> idx[i] < idx[j]
    ensures idx[k] >= idx[0] + k
  {
    if k > 0 {
      IncreasingBound(idx, k - 1);
    }
  }

  /** In a strictly ascending list below `top`, the element at `k` leaves room for those after it. */
  lemma {:induction false} IncreasingBoundFromTop(idx: seq<nat>, k: nat, top: nat)
    requires k < |idx| && forall i, j :: 0 <= i < j < |idx| ==> idx[i] < idx[j]
    requires forall i :: 0 <= i < |idx| ==> idx[i] < top
    ensures idx[k] + (|idx| - k) <= top
    decreases |idx| - k
  {
    if k < |idx| - 1 {
      IncreasingBoundFromTop(idx, k + 1, top);
    }
  }

  /** A list holding two different values has at least two elements. */
  lemma {:induction false} TwoMembers(d: seq<string>, a: string, b: string)
    requires a in d && b in d && a != b
    ensures |d| > 1
  {
  }

  /** The speaker check of both merges: `[...new Set(speakers)].length > 1`. */
  predicate MixedSpeakers(ps: seq<Sentence>)
  {
    |Distinct(SpeakersOf(ps))| > 1
  }

  /**
   * A selection merge goes ahead: at least two are selected, the user agreed to a
   * selection with gaps, and to picked sentences with different speakers.
   */
  predicate MergeAccepted(ss: seq<Sentence>, sel: set<nat>, confirmGap: bool, confirmSpeakers: bool)
    requires WithinRange(sel, |ss|)
  {
    && |sel| >= 2
    && var idx := Selected(sel, 0, |ss|);
    && (Consecutive(idx) || confirmGap)
    && (!MixedSpeakers(Picked(ss, idx)) || confirmSpeakers)
  }

  /**
   * A contiguous selection of at least two sentences of one speaker is merged without
   * asking the user anything.
   */
  lemma {:induction false} SameSpeakerRunMerges(ss: seq<Sentence>, sel: set<nat>, lo: nat)
    requires WithinRange(sel, |ss|) && |sel| >= 2
    requires forall i: nat :: i in sel <==> lo <= i < lo + |sel|
    requires forall i :: i in sel ==> ss[i].speaker == ss[lo].speaker
    ensures MergeAccepted(ss, sel, false, false)
  {
    var idx := Selected(sel, 0, |ss|);
    LowestSelected(sel, |ss|);
    assert lo in sel;
    assert idx[0] == lo;
    ConsecutiveIffContiguous(sel, |ss|);
    var ps := Picked(ss, idx);
    MixedSpeakersIff(ps);
    assert forall k :: 0 <= k < |ps| ==> ps[k].speaker == ss[lo].speaker by {
      assert forall k :: 0 <= k < |idx| ==> idx[k] in sel;
    }
  }

  /** The speaker check asks for confirmation exactly when two picked sentences have different speakers. */
  lemma {:induction false} MixedSpeakersIff(ps: seq<Sentence>)
    ensures MixedSpeakers(ps) <==> exists i, j :: 0 <= i < |ps| && 0 <= j < |ps| && ps[i].speaker != ps[j].speaker
  {
    var all := SpeakersOf(ps);
    var d := Distinct(all);
    DistinctFacts(all);
    if |d| > 1 {
      assert d[0] in all && d[1] in all;
      var i :| 0 <= i < |all| && all[i] == d[0];
      var j :| 0 <= j < |all| && all[j] == d[1];
      assert ps[i].speaker != ps[j].speaker;
    }
    if exists i, j :: 0 <= i < |ps| && 0 <= j < |ps| && ps[i].speaker != ps[j].speaker {
      var i, j :| 0 <= i < |ps| && 0 <= j < |ps| && ps[i].speaker != ps[j].speaker;
      assert all[i] in d && all[j] in d;
      TwoMembers(d, all[i], all[j]);
    }
  }

  /** The sentence list after "merge with previous": sentences `index - 1` and `index` become `merged`. */
  function MergedWithPrevious(ss: seq<Sentence>, index: nat, translation: string): (r: seq<Sentence>)
    requires 0 < index < |ss|
    ensures |r| == |ss| - 1
    ensures r[index - 1] == Sentence(ss[index - 1].text + " " + ss[index].text, ss[index - 1].start,
                                     ss[index].end, ss[index - 1].speaker, Some(translation))
    ensures forall j :: 0 <= j < index - 1 ==> r[j] == ss[j]
    ensures forall j :: index <= j < |r| ==> r[j] == ss[j + 1]
  {
    var prev, cur := ss[index - 1], ss[index];
    var merged := Sentence(prev.text + " " + cur.text, prev.start, cur.end, prev.speaker, Some(translation));
    ss[..index - 1] + [merged] + ss[index + 1..]
  }

  /** Merging a sentence with its predecessor leaves the full transcript text unchanged. */
  lemma {:induction false} MergeWithPreviousKeepsText(ss: seq<Sentence>, index: nat, translation: string)
    requires 0 < index < |ss|
    ensures FullText(MergedWithPrevious(ss, index, translation)) == FullText(ss)
  {
    var r := MergedWithPrevious(ss, index, translation);
    var prev, cur := ss[index - 1], ss[index];
    var merged := r[index - 1];
    assert FullText([merged]) == FullText([prev, cur]) by {
      assert Texts([merged]) == [merged.text];
      assert Texts([prev, cur]) == [prev.text, cur.text];
      JoinPair(prev.text, cur.text, " ");
    }
    FullTextReplace(ss[..index - 1], [prev, cur], ss[index + 1..], [merged]);
    assert r == ss[..index - 1] + [merged] + ss[index + 1..];
    assert ss == ss[..index - 1] + [prev, cur] + ss[index + 1..];
  }

  /** Sentence `index` with its text replaced. */
  function WithText(ss: seq<Sentence>, index: nat, text: string): (r: seq<Sentence>)
    requires index < |ss|
    ensures |r| == |ss| && r[index].text == text
    ensures r[index] == ss[index].(text := text)
    ensures forall j :: 0 <= j < |ss| && j != index ==> r[j] == ss[j]
  {
    ss[index := ss[index].(text := text)]
  }

  /** Sentence `index` with a translation attached. */
  function WithTranslation(ss: seq<Sentence>, index: nat, translation: string): (r: seq<Sentence>)
    requires index < |ss|
    ensures |r| == |ss| && r[index] == ss[index].(translation := Some(translation))
    ensures forall j :: 0 <= j < |ss| && j != index ==> r[j] == ss[j]
  {
    ss[index := ss[index].(translation := Some(translation))]
  }

  /**
   * Rolling a text edit back restores the sentence list exactly when no translation
   * arrived; when one arrived before the failure it stays attached.
   */
  lemma {:induction false} RollbackRestores(ss: seq<Sentence>, index: nat, newText: string, translation: string)
    requires index < |ss|
    ensures WithText(WithText(ss, index, newText), index, ss[index].text) == ss
    ensures WithText(WithTranslation(WithText(ss, index, newText), index, translation), index, ss[index].text)
            == WithTranslation(ss, index, translation)
  {
  }

  /** The transcript currently shown (`currentResult`), whose fields the editing operations overwrite. */
  class Result {
    var text: string
    var sentences: seq<Sentence>
    var speakers: seq<string>
    var totalDuration: int

    constructor (text: string, sentences: seq<Sentence>, speakers: seq<string>, totalDuration: int)
      ensures this.text == text && this.sentences == sentences
      ensures this.speakers == speakers && this.totalDuration == totalDuration
    {
      this.text := text;
      this.sentences := sentences;
      this.speakers := speakers;
      this.totalDuration := totalDuration;
    }

    /**
     * The highlight lookup: the first sentence whose `[start, end]` contains `t`,
     * or none.
     */
    method SentenceAt(t: int) returns (found: Option<nat>)
      ensures found.Some? ==> (found.value < |sentences|
        && sentences[found.value].start <= t <= sentences[found.value].end
        && forall j :: 0 <= j < found.value ==> !(sentences[j].start <= t <= sentences[j].end))
      ensures found.None? ==> forall j :: 0 <= j < |sentences| ==> !(sentences[j].start <= t <= sentences[j].end)
    {
      var i := 0;
      while i < |sentences|
        invariant 0 <= i <= |sentences|
        invariant forall j :: 0 <= j < i ==> !(sentences[j].start <= t <= sentences[j].end)
      {
        if t >= sentences[i].start && t <= sentences[i].end {
          return Some(i);
        }
        i := i + 1;
      }
      return None;
    }

    /**
     * `mergeSelectedSentences`: with at least two selected sentences (and the user's
     * consent where asked), replace them by their merge at the lowest selected index,
     * then rebuild the full text and the speaker list.
     */
    method MergeSelectedSentences(sel: set<nat>, confirmGap: bool, confirmSpeakers: bool)
      returns (outcome: Outcome)
      requires WithinRange(sel, |sentences|)
      modifies this
      ensures totalDuration == old(totalDuration)
      ensures outcome == Done ==> (|sel| >= 2
        && var idx := Selected(sel, 0, |old(sentences)|);
        && |idx| >= 2
        && sentences == MergeLayout(old(sentences), sel, idx[0], MergeOfSelection(old(sentences), sel))
        && text == FullText(sentences)
        && speakers == SpeakerList(sentences))
      ensures outcome != Done ==> sentences == old(sentences) && text == old(text) && speakers == old(speakers)
      ensures outcome == Done <==> MergeAccepted(old(sentences), sel, confirmGap, confirmSpeakers)
      ensures outcome == TooFewSelected <==> |sel| < 2
      ensures |sel| >= 2 ==>
        var idx := Selected(sel, 0, |old(sentences)|);
        && (outcome == DeclinedGap <==> !Consecutive(idx) && !confirmGap)
        && (outcome == DeclinedSpeakers <==>
              (Consecutive(idx) || confirmGap) && MixedSpeakers(Picked(old(sentences), idx)) && !confirmSpeakers)
      ensures outcome in {Done, TooFewSelected, DeclinedGap, DeclinedSpeakers}
    {
      outcome := MergeChecks(sentences, sel, confirmGap, confirmSpeakers);
      if outcome != Done {
        return;
      }
      var n := |sentences|;
      var idx := Selected(sel, 0, n);
      SortedSelectionLength(sel, n);
      var merged := MergeOfSelection(sentences, sel);
      var newSentences := Rebuild(sentences, sel, idx, merged);
      sentences := newSentences;
      text := FullText(newSentences);
      speakers := SpeakerList(newSentences);
      return Done;
    }

    /**
     * `mergeAndTranslateSentences`: like `MergeSelectedSentences`, but the merged
     * sentence takes `start` from the first and `end` from the last selected sentence,
     * carries the new translation, and the speaker list is left as it was.
     */
    method MergeAndTranslateSentences(sel: set<nat>, confirmGap: bool, confirmSpeakers: bool, translation: Translation)
      returns (outcome: Outcome)
      requires WithinRange(sel, |sentences|)
      modifies this
      ensures speakers == old(speakers) && totalDuration == old(totalDuration)
      ensures outcome == Done ==> (|sel| >= 2 && translation.Translated?
        && var idx := Selected(sel, 0, |old(sentences)|);
        && |idx| >= 2
        && var picked := Picked(old(sentences), idx);
        && sentences == MergeLayout(old(sentences), sel, idx[0],
             Sentence(FullText(picked), picked[0].start, picked[|picked| - 1].end,
                      picked[0].speaker, Some(translation.value)))
        && text == FullText(sentences))
      ensures outcome != Done ==> sentences == old(sentences) && text == old(text)
      ensures outcome == Done <==>
        MergeAccepted(old(sentences), sel, confirmGap, confirmSpeakers) && translation.Translated?
      ensures outcome == NotTranslated <==>
        MergeAccepted(old(sentences), sel, confirmGap, confirmSpeakers) && translation.TranslationRejected?
      ensures outcome == TooFewSelected <==> |sel| < 2
      ensures |sel| >= 2 ==>
        var idx := Selected(sel, 0, |old(sentences)|);
        && (outcome == DeclinedGap <==> !Consecutive(idx) && !confirmGap)
        && (outcome == DeclinedSpeakers <==>
              (Consecutive(idx) || confirmGap) && MixedSpeakers(Picked(old(sentences), idx)) && !confirmSpeakers)
      ensures outcome in {Done, TooFewSelected, DeclinedGap, DeclinedSpeakers, NotTranslated}
    {
      outcome := MergeChecks(sentences, sel, confirmGap, confirmSpeakers);
      if outcome != Done {
        return;
      }
      var n := |sentences|;
      var idx := Selected(sel, 0, n);
      SortedSelectionLength(sel, n);
      var picked := Picked(sentences, idx);
      var mergedText := FullText(picked);
      if translation.TranslationRejected? {
        return NotTranslated;
      }
      var merged := Sentence(mergedText, picked[0].start, picked[|picked| - 1].end, picked[0].speaker,
                             Some(translation.value));
      var newSentences := Rebuild(sentences, sel, idx, merged);
      sentences := newSentences;
      text := FullText(newSentences);
      return Done;
    }

    /**
     * `mergeWithPrevious`: sentence `index` and its predecessor become one sentence
     * once the user agrees (when the speakers differ) and the translation arrives.
     */
    method MergeWithPrevious(index: int, confirmSpeakers: bool, translation: Translation)
      returns (outcome: Outcome)
      requires index < |sentences|
      modifies this
      ensures totalDuration == old(totalDuration)
      ensures outcome == FirstSentence <==> index <= 0
      ensures outcome == Done ==> (0 < index && translation.Translated?
        && sentences == MergedWithPrevious(old(sentences), index, translation.value)
        && text == FullText(sentences) && speakers == SpeakerList(sentences))
      ensures outcome != Done ==> sentences == old(sentences) && text == old(text) && speakers == old(speakers)
      ensures outcome == DeclinedSpeakers <==>
        0 < index && old(sentences)[index - 1].speaker != old(sentences)[index].speaker && !confirmSpeakers
      ensures outcome == NotTranslated <==>
        0 < index && (old(sentences)[index - 1].speaker == old(sentences)[index].speaker || confirmSpeakers)
        && translation.TranslationRejected?
      ensures outcome == Done <==>
        0 < index && (old(sentences)[index - 1].speaker == old(sentences)[index].speaker || confirmSpeakers)
        && translation.Translated?
      ensures outcome in {Done, FirstSentence, DeclinedSpeakers, NotTranslated}
    {
      if index <= 0 {
        return FirstSentence;
      }
      var prev, cur := sentences[index - 1], sentences[index];
      if prev.speaker != cur.speaker && !confirmSpeakers {
        return DeclinedSpeakers;
      }
      if translation.TranslationRejected? {
        return NotTranslated;
      }
      var newSentences := MergedWithPrevious(sentences, index, translation.value);
      sentences := newSentences;
      text := FullText(newSentences);
      speakers := SpeakerList(newSentences);
      return Done;
    }

    /**
     * The save half of `toggleTextEdit`: a trimmed-empty edit is rejected; otherwise the
     * sentence's text is replaced and the full text rebuilt. The replaced text is returned
     * for a later rollback.
     */
    method SaveEdit(index: int, input: string) returns (outcome: SaveOutcome)
      modifies this
      ensures speakers == old(speakers) && totalDuration == old(totalDuration)
      ensures outcome == EmptyText <==> Trim(input) == ""
      ensures outcome == NoSentence <==> Trim(input) != "" && !(0 <= index < |old(sentences)|)
      ensures outcome.Saved? ==> (0 <= index < |old(sentences)|
        && outcome.oldText == old(sentences)[index].text
        && sentences == WithText(old(sentences), index, Trim(input))
        && text == FullText(sentences))
      ensures !outcome.Saved? ==> sentences == old(sentences) && text == old(text)
    {
      var newText := Trim(input);
      if newText == "" {
        return EmptyText;
      }
      if !(0 <= index < |sentences|) {
        return NoSentence;
      }
      var oldText := sentences[index].text;
      sentences := WithText(sentences, index, newText);
      text := FullText(sentences);
      return Saved(oldText);
    }

    /**
     * The asynchronous half of `toggleTextEdit`: an arriving translation is attached;
     * if translation or sync fails, the sentence's old text comes back and the full text
     * is rebuilt, while an attached translation stays.
     */
    method FinishEdit(index: nat, oldText: string, followUp: FollowUp)
      requires index < |sentences|
      modifies this
      ensures speakers == old(speakers) && totalDuration == old(totalDuration)
      ensures followUp.Synced? ==>
        sentences == WithTranslation(old(sentences), index, followUp.translation) && text == old(text)
      ensures followUp.SyncFailed? ==>
        sentences == WithText(WithTranslation(old(sentences), index, followUp.translation), index, oldText)
        && text == FullText(sentences)
      ensures followUp.TranslateFailed? ==>
        sentences == WithText(old(sentences), index, oldText) && text == FullText(sentences)
    {
      if followUp.Synced? || followUp.SyncFailed? {
        sentences := WithTranslation(sentences, index, followUp.translation);
      }
      if !followUp.Synced? {
        sentences := WithText(sentences, index, oldText);
        text := FullText(sentences);
      }
    }
  }

  /**
   * The checks both selection merges make before rebuilding: at least two selected,
   * then (for a selection with gaps) the user's consent, then (for picked sentences
   * with different speakers) the user's consent again.
   */
  method MergeChecks(ss: seq<Sentence>, sel: set<nat>, confirmGap: bool, confirmSpeakers: bool)
    returns (outcome: Outcome)
    requires WithinRange(sel, |ss|)
    ensures outcome in {Done, TooFewSelected, DeclinedGap, DeclinedSpeakers}
    ensures outcome == TooFewSelected <==> |sel| < 2
    ensures outcome == Done <==> MergeAccepted(ss, sel, confirmGap, confirmSpeakers)
    ensures |sel| >= 2 ==>
      var idx := Selected(sel, 0, |ss|);
      && (outcome == DeclinedGap <==> !Consecutive(idx) && !confirmGap)
      && (outcome == DeclinedSpeakers <==>
            (Consecutive(idx) || confirmGap) && MixedSpeakers(Picked(ss, idx)) && !confirmSpeakers)
  {
    if |sel| < 2 {
      return TooFewSelected;
    }
    var idx := Selected(sel, 0, |ss|);
    var consecutive := IsConsecutive(idx);
    if !consecutive && !confirmGap {
      return DeclinedGap;
    }
    var picked := Picked(ss, idx);
    if MixedSpeakers(picked) && !confirmSpeakers {
      return DeclinedSpeakers;
    }
    return Done;
  }

  /** The loop's "consecutive" test: stops at the first index that does not follow its predecessor. */
  method IsConsecutive(idx: seq<nat>) returns (consecutive: bool)
    ensures consecutive == Consecutive(idx)
  {
    consecutive := true;
    var i := 1;
    while i < |idx|
      invariant 1 <= i || |idx| == 0
      invariant forall j :: 1 <= j < i && j < |idx| ==> idx[j] == idx[j - 1] + 1
    {
      if idx[i] != idx[i - 1] + 1 {
        consecutive := false;
        break;
      }
      i := i + 1;
    }
  }

  /**
   * The `newSentences` loop shared by both selection merges: the merged sentence is pushed
   * at the first selected index, other selected sentences are skipped, the rest are kept.
   */
  method Rebuild(ss: seq<Sentence>, sel: set<nat>, idx: seq<nat>, merged: Sentence) returns (newSentences: seq<Sentence>)
    requires WithinRange(sel, |ss|) && |sel| > 0 && idx == Selected(sel, 0, |ss|) && |idx| > 0
    ensures newSentences == MergeLayout(ss, sel, idx[0], merged)
  {
    var first := idx[0];
    LowestSelected(sel, |ss|);
    newSentences := [];
    var mergedAdded := false;
    for i := 0 to |ss|
      invariant mergedAdded == (i > first)
      invariant i <= first ==> newSentences == ss[..i]
      invariant i > first ==> newSentences == ss[..first] + [merged] + Kept(ss, sel, first + 1, i)
    {
      assert i in idx <==> i in sel;
      assert i > first ==> (Kept(ss, sel, first + 1, i + 1)
        == Kept(ss, sel, first + 1, i) + (if i in sel then [] else [ss[i]]));
      assert i < first ==> i !in sel && ss[..i + 1] == ss[..i] + [ss[i]];
      if i in idx {
        if i == first && !mergedAdded {
          newSentences := newSentences + [merged];
          mergedAdded := true;
        }
      } else {
        newSentences := newSentences + [ss[i]];
      }
    }
    assert ss[..|ss|] == ss;
  }
}
