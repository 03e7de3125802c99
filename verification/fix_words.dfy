/** proj/fix_words.py, `fix_duplicates_and_rebalance`: drop repeated words
    (first occurrence wins, compared lower-cased, across all lessons in
    order), give every remaining word a tier from its length and a fixed
    exception table, and update the word bank's metadata. Reading and
    writing words.json are left to the caller. */
module FixWords {
  import opened Wrappers
  import opened Text
  import opened JsonValue
  import opened Dedup

  /** A word object of a lesson; only `word` and `difficulty` are read. */
  datatype WordEntry = WordEntry(word: string, difficulty: int)

  /** One member of `phonicsLessons`; a lesson without `words` has `[]`. */
  datatype Lesson = Lesson(key: string, words: seq<WordEntry>)

  /** `words_to_remove` records: lesson, index within the lesson, lower-cased word. */
  datatype Removal = Removal(lesson: string, index: nat, word: string)

  /** `difficulty_changes` records. */
  datatype Change = Change(lesson: string, word: string, oldDifficulty: int, newDifficulty: int)

  /** `metadata` is `None` when the bank has no `metadata` object. */
  datatype WordBank = WordBank(lessons: seq<Lesson>, metadata: Option<seq<(string, Json)>>)

  function EntryKey(e: WordEntry): string {
    Lower(e.word)
  }

  function Flatten(lessons: seq<Lesson>): (r: seq<WordEntry>)
    decreases |lessons|
  {
    if |lessons| == 0 then [] else lessons[0].words + Flatten(lessons[1..])
  }

  /** Removal records of one lesson, from index `i` on, given the words seen
      before index `i`. */
  function Removals(key: string, words: seq<WordEntry>, seen: set<string>, i: nat): (r: seq<Removal>)
    requires i <= |words|
    ensures |r| + |KeepFirst(words[i..], EntryKey, seen)| == |words| - i
    ensures forall k :: 0 <= k < |r| ==>
              r[k].lesson == key && i <= r[k].index < |words|
              && r[k].word == EntryKey(words[r[k].index])
    decreases |words| - i
  {
    if i == |words| then []
    else
      var w := EntryKey(words[i]);
      assert words[i..][0] == words[i];
      assert words[i..][1..] == words[i + 1..];
      if w in seen then [Removal(key, i, w)] + Removals(key, words, seen, i + 1)
      else Removals(key, words, seen + {w}, i + 1)
  }

  /** Step 1: each lesson keeps the first occurrences of its words, sharing
      one `seen` set across lessons. */
  function DedupLessons(lessons: seq<Lesson>, seen: set<string>): (r: (seq<Lesson>, seq<Removal>))
    ensures |r.0| == |lessons|
    ensures forall i :: 0 <= i < |lessons| ==> r.0[i].key == lessons[i].key
    ensures |r.1| + |Flatten(r.0)| == |Flatten(lessons)|
    decreases |lessons|
  {
    if |lessons| == 0 then ([], [])
    else
      var l := lessons[0];
      var kept := KeepFirst(l.words, EntryKey, seen);
      var rest := DedupLessons(lessons[1..], seen + KeySet(l.words, EntryKey));
      assert l.words[0..] == l.words;
      var r := ([Lesson(l.key, kept)] + rest.0, Removals(l.key, l.words, seen, 0) + rest.1);
      assert Flatten(r.0) == kept + Flatten(rest.0) by {
        assert r.0[1..] == rest.0;
      }
      r
  }

  /** The kept lessons, read in order, are exactly the keep-first
      de-duplication of all the words read in order. */
  lemma {:induction false} DedupIsGlobalKeepFirst(lessons: seq<Lesson>, seen: set<string>)
    ensures Flatten(DedupLessons(lessons, seen).0) == KeepFirst(Flatten(lessons), EntryKey, seen)
    decreases |lessons|
  {
    if |lessons| > 0 {
      var l := lessons[0];
      var r := DedupLessons(lessons, seen);
      var rest := DedupLessons(lessons[1..], seen + KeySet(l.words, EntryKey));
      assert r.0[1..] == rest.0;
      DedupIsGlobalKeepFirst(lessons[1..], seen + KeySet(l.words, EntryKey));
      KeepFirstAppend(l.words, Flatten(lessons[1..]), EntryKey, seen);
    }
  }

  /** After step 1 no lower-cased word occurs twice in the whole bank, and
      every word of the original bank is still represented. */
  lemma DedupLeavesNoRepeats(lessons: seq<Lesson>)
    ensures var kept := Flatten(DedupLessons(lessons, {}).0);
            DistinctKeys(kept, EntryKey)
            && KeySet(kept, EntryKey) == KeySet(Flatten(lessons), EntryKey)
            && forall e :: e in kept ==> e in Flatten(lessons)
  {
    DedupIsGlobalKeepFirst(lessons, {});
  }

  /** Tier by length of the word as written. */
  function LengthTier(word: string): (d: int)
    ensures 1 <= d <= 3
    ensures d == 1 <==> |word| <= 4
    ensures d == 3 <==> |word| >= 8
  {
    if |word| <= 4 then 1 else if |word| <= 7 then 2 else 3
  }

  /** The exception table, keyed by lower-cased word. */
  const ComplexWords: map<string, int> := map[
    "important" := 3, "camera" := 3, "morning" := 2, "teacher" := 2,
    "mother" := 2, "father" := 2, "sister" := 2, "brother" := 2,
    "number" := 2, "winter" := 2, "summer" := 2, "before" := 2,
    "about" := 2, "banana" := 2, "pizza" := 2, "bottle" := 2,
    "doctor" := 2, "paper" := 2, "water" := 2, "order" := 2,
    "corner" := 2]

  function NewDifficulty(word: string): (d: int)
    ensures Lower(word) in ComplexWords ==> d == ComplexWords[Lower(word)]
    ensures Lower(word) !in ComplexWords ==> d == LengthTier(word)
  {
    var w := Lower(word);
    if w in ComplexWords then ComplexWords[w] else LengthTier(word)
  }

  /** Every listed word but one already has its length tier, so the table
      changes the outcome only for "camera" (six letters, tier 3 instead
      of 2). */
  lemma ExceptionTableOnlyMovesCamera(word: string)
    ensures 1 <= NewDifficulty(word) <= 3
    ensures NewDifficulty(word) == (if Lower(word) == "camera" then 3 else LengthTier(word))
  {
    var w := Lower(word);
    assert |w| == |word|;
    if w in ComplexWords && w != "camera" {
      assert ComplexWords[w] == LengthTier(w);
    }
  }

  /** `c` records that entry `e` of lesson `key` moves to a new tier. */
  predicate Retiered(key: string, e: WordEntry, c: Change) {
    e.difficulty != NewDifficulty(e.word) && c == Change(key, e.word, e.difficulty, NewDifficulty(e.word))
  }

  /** Step 2 on one lesson: every word gets its new tier; a change is
      recorded exactly when the tier differs. */
  function RebalanceWords(key: string, words: seq<WordEntry>): (r: (seq<WordEntry>, seq<Change>))
    ensures |r.0| == |words|
    ensures forall i :: 0 <= i < |words| ==> r.0[i] == WordEntry(words[i].word, NewDifficulty(words[i].word))
    ensures forall c :: c in r.1 <==> exists i :: 0 <= i < |words| && Retiered(key, words[i], c)
    decreases |words|
  {
    if |words| == 0 then ([], [])
    else
      var e := words[0];
      var d := NewDifficulty(e.word);
      var rest := RebalanceWords(key, words[1..]);
      var here := if e.difficulty != d then [Change(key, e.word, e.difficulty, d)] else [];
      assert forall i :: 0 < i < |words| ==> words[i] == words[1..][i - 1];
      ChangesStep(key, words, here, rest.1);
      ([WordEntry(e.word, d)] + rest.0, here + rest.1)
  }

  lemma ChangesStep(key: string, words: seq<WordEntry>, here: seq<Change>, later: seq<Change>)
    requires |words| > 0
    requires here == if words[0].difficulty != NewDifficulty(words[0].word)
                     then [Change(key, words[0].word, words[0].difficulty, NewDifficulty(words[0].word))] else []
    requires forall c :: c in later <==> exists i :: 0 <= i < |words[1..]| && Retiered(key, words[1..][i], c)
    ensures forall c :: c in here + later <==> exists i :: 0 <= i < |words| && Retiered(key, words[i], c)
  {
    forall c | c in here + later ensures exists i :: 0 <= i < |words| && Retiered(key, words[i], c) {
      if c in here {
        assert Retiered(key, words[0], c);
      } else {
        var j :| 0 <= j < |words[1..]| && Retiered(key, words[1..][j], c);
        assert words[j + 1] == words[1..][j];
      }
    }
    forall c | exists i :: 0 <= i < |words| && Retiered(key, words[i], c) ensures c in here + later {
      var i :| 0 <= i < |words| && Retiered(key, words[i], c);
      if i > 0 {
        assert words[1..][i - 1] == words[i];
      }
    }
  }

  function Rebalance(lessons: seq<Lesson>): (r: (seq<Lesson>, seq<Change>))
    ensures |r.0| == |lessons|
    ensures forall i :: 0 <= i < |lessons| ==>
              r.0[i].key == lessons[i].key && r.0[i] == Lesson(lessons[i].key, RebalanceWords(lessons[i].key, lessons[i].words).0)
    decreases |lessons|
  {
    if |lessons| == 0 then ([], [])
    else
      var l := lessons[0];
      var here := RebalanceWords(l.key, l.words);
      var rest := Rebalance(lessons[1..]);
      assert forall i :: 0 < i < |lessons| ==> lessons[i] == lessons[1..][i - 1];
      ([Lesson(l.key, here.0)] + rest.0, here.1 + rest.1)
  }

  function CountDifficulty(entries: seq<WordEntry>, d: int): (n: nat)
    ensures n <= |entries|
    decreases |entries|
  {
    if |entries| == 0 then 0
    else (if entries[0].difficulty == d then 1 else 0) + CountDifficulty(entries[1..], d)
  }

  /** Every word ends in tier 1, 2 or 3, so the three counts reported in
      `fixedIssues` add up to the word total. */
  lemma {:induction false} TiersCoverAll(lessons: seq<Lesson>)
    ensures var ws := Flatten(Rebalance(lessons).0);
            |ws| == |Flatten(lessons)|
            && CountDifficulty(ws, 1) + CountDifficulty(ws, 2) + CountDifficulty(ws, 3) == |ws|
    decreases |lessons|
  {
    if |lessons| > 0 {
      var r := Rebalance(lessons);
      assert r.0[1..] == Rebalance(lessons[1..]).0;
      TiersCoverAll(lessons[1..]);
      var here := r.0[0].words;
      forall i | 0 <= i < |here| ensures 1 <= here[i].difficulty <= 3 {
        ExceptionTableOnlyMovesCamera(lessons[0].words[i].word);
      }
      TierCountsOfOneLesson(here);
      CountSplit(here, Flatten(r.0[1..]), 1);
      CountSplit(here, Flatten(r.0[1..]), 2);
      CountSplit(here, Flatten(r.0[1..]), 3);
    }
  }

  lemma {:induction false} TierCountsOfOneLesson(ws: seq<WordEntry>)
    requires forall i :: 0 <= i < |ws| ==> 1 <= ws[i].difficulty <= 3
    ensures CountDifficulty(ws, 1) + CountDifficulty(ws, 2) + CountDifficulty(ws, 3) == |ws|
    decreases |ws|
  {
    if |ws| > 0 {
      TierCountsOfOneLesson(ws[1..]);
    }
  }

  lemma {:induction false} CountSplit(a: seq<WordEntry>, b: seq<WordEntry>, d: int)
    ensures CountDifficulty(a + b, d) == CountDifficulty(a, d) + CountDifficulty(b, d)
    decreases |a|
  {
    if |a| == 0 {
      assert a + b == b;
    } else {
      assert (a + b)[0] == a[0];
      assert (a + b)[1..] == a[1..] + b;
      CountSplit(a[1..], b, d);
    }
  }

  /** The three notes appended to `fixedIssues`. */
  function IssueNotes(removed: nat, changed: nat, c1: nat, c2: nat, c3: nat): seq<Json> {
    [Str("Removed " + NatToString(removed) + " duplicate words"),
     Str("Rebalanced " + NatToString(changed) + " word difficulties"),
     Str("Final distribution: Diff1=" + NatToString(c1) + ", Diff2=" + NatToString(c2)
         + ", Diff3=" + NatToString(c3))]
  }

  /** Step 3, first half: overwrite the word total, version and date. */
  function StampMetadata(meta: seq<(string, Json)>, total: nat): (m: seq<(string, Json)>)
    ensures Lookup(m, "totalWords") == Some(Num(total))
    ensures Lookup(m, "version") == Some(Str("1.2"))
    ensures Lookup(m, "lastUpdated") == Some(Str("2025-10-05"))
    ensures Keys(m) == Keys(meta) + {"totalWords", "version", "lastUpdated"}
    ensures forall k :: k != "totalWords" && k != "version" && k != "lastUpdated" ==> Lookup(m, k) == Lookup(meta, k)
  {
    StampFields(meta, total);
    SetField(SetField(SetField(meta, "totalWords", Num(total)), "version", Str("1.2")), "lastUpdated", Str("2025-10-05"))
  }

  lemma StampFields(meta: seq<(string, Json)>, total: nat)
    ensures var m := SetField(SetField(SetField(meta, "totalWords", Num(total)), "version", Str("1.2")),
                              "lastUpdated", Str("2025-10-05"));
            Lookup(m, "totalWords") == Some(Num(total))
            && Lookup(m, "version") == Some(Str("1.2"))
            && Lookup(m, "lastUpdated") == Some(Str("2025-10-05"))
            && Keys(m) == Keys(meta) + {"totalWords", "version", "lastUpdated"}
            && forall k :: k != "totalWords" && k != "version" && k != "lastUpdated" ==> Lookup(m, k) == Lookup(meta, k)
  {
    StampLookups(meta, total);
    StampKeys(meta, total);
  }

  lemma StampLookups(meta: seq<(string, Json)>, total: nat)
    ensures var m := SetField(SetField(SetField(meta, "totalWords", Num(total)), "version", Str("1.2")),
                              "lastUpdated", Str("2025-10-05"));
            Lookup(m, "totalWords") == Some(Num(total))
            && Lookup(m, "version") == Some(Str("1.2"))
            && forall k :: k != "totalWords" && k != "version" && k != "lastUpdated" ==> Lookup(m, k) == Lookup(meta, k)
  {
    StampKeysDistinct();
    var m1 := SetField(meta, "totalWords", Num(total));
    var m2 := SetField(m1, "version", Str("1.2"));
    var m := SetField(m2, "lastUpdated", Str("2025-10-05"));
    assert Lookup(m, "totalWords") == Lookup(m2, "totalWords") == Some(Num(total));
    forall k | k != "totalWords" && k != "version" && k != "lastUpdated" ensures Lookup(m, k) == Lookup(meta, k) {
      assert Lookup(m, k) == Lookup(m2, k) == Lookup(m1, k);
    }
  }

  lemma StampKeys(meta: seq<(string, Json)>, total: nat)
    ensures var m := SetField(SetField(SetField(meta, "totalWords", Num(total)), "version", Str("1.2")),
                              "lastUpdated", Str("2025-10-05"));
            Keys(m) == Keys(meta) + {"totalWords", "version", "lastUpdated"}
  {
    var m1 := SetField(meta, "totalWords", Num(total));
    var m2 := SetField(m1, "version", Str("1.2"));
    assert Keys(m2) == Keys(meta) + {"totalWords", "version"};
  }

  /** The three stamped keys differ from each other (by first letter). */
  lemma StampKeysDistinct()
    ensures "totalWords" != "version" && "totalWords" != "lastUpdated" && "version" != "lastUpdated"
  {
    assert "totalWords"[0] != "version"[0];
    assert "totalWords"[0] != "lastUpdated"[0];
    assert "version"[0] != "lastUpdated"[0];
  }

  /** Step 3, second half: create `fixedIssues` when absent and append the
      notes to it. A `fixedIssues` that is not a list cannot be extended:
      `None`. */
  function AppendIssues(m: seq<(string, Json)>, notes: seq<Json>): (r: Option<seq<(string, Json)>>)
    ensures r.None? <==> Lookup(m, "fixedIssues").Some? && !Lookup(m, "fixedIssues").value.Arr?
    ensures r.Some? ==>
              var before := if Lookup(m, "fixedIssues").Some? then Lookup(m, "fixedIssues").value.items else [];
              Lookup(r.value, "fixedIssues") == Some(Arr(before + notes))
    ensures r.Some? ==> Keys(r.value) == Keys(m) + {"fixedIssues"}
    ensures r.Some? ==> forall k :: k != "fixedIssues" ==> Lookup(r.value, k) == Lookup(m, k)
  {
    match Lookup(m, "fixedIssues")
    case None => assert [] + notes == notes; Some(SetField(m, "fixedIssues", Arr(notes)))
    case Some(Arr(items)) => Some(SetField(m, "fixedIssues", Arr(items + notes)))
    case Some(_) => None
  }

  lemma FixedIssuesUntouched(meta: seq<(string, Json)>, total: nat)
    ensures Lookup(StampMetadata(meta, total), "fixedIssues") == Lookup(meta, "fixedIssues")
  {
    assert "fixedIssues"[0] != "totalWords"[0];
    assert "fixedIssues"[0] != "version"[0];
    assert "fixedIssues"[0] != "lastUpdated"[0];
  }

  function UpdateMetadata(meta: seq<(string, Json)>, total: nat, notes: seq<Json>): (r: Option<seq<(string, Json)>>)
    ensures r.None? <==> Lookup(meta, "fixedIssues").Some? && !Lookup(meta, "fixedIssues").value.Arr?
    ensures r.Some? ==> Lookup(r.value, "totalWords") == Some(Num(total))
  {
    var m := StampMetadata(meta, total);
    FixedIssuesUntouched(meta, total);
    AppendIssues(m, notes)
  }

  /** The whole repair. `None` when the bank has no metadata object or its
      `fixedIssues` is not a list (the script raises). */
  function FixBank(bank: WordBank): (r: Option<(WordBank, seq<Removal>, seq<Change>)>)
    ensures r.Some? ==> |r.value.0.lessons| == |bank.lessons|
                        && forall i :: 0 <= i < |bank.lessons| ==> r.value.0.lessons[i].key == bank.lessons[i].key
    ensures r.Some? ==> DistinctKeys(Flatten(r.value.0.lessons), EntryKey)
    ensures r.Some? ==> forall e :: e in Flatten(r.value.0.lessons) ==> 1 <= e.difficulty <= 3
    ensures r.Some? ==> r.value.0.metadata.Some?
                        && Lookup(r.value.0.metadata.value, "totalWords") == Some(Num(|Flatten(r.value.0.lessons)|))
    ensures r.Some? ==> SameWordsRetiered(Flatten(r.value.0.lessons), KeepFirst(Flatten(bank.lessons), EntryKey, {}))
    ensures r.None? <==> bank.metadata.None?
                         || (Lookup(bank.metadata.value, "fixedIssues").Some?
                             && !Lookup(bank.metadata.value, "fixedIssues").value.Arr?)
  {
    var (deduped, removed) := DedupLessons(bank.lessons, {});
    var (rebalanced, changes) := Rebalance(deduped);
    var ws := Flatten(rebalanced);
    TiersCoverAll(deduped);
    if bank.metadata.None? then None
    else
      var notes := IssueNotes(|removed|, |changes|, CountDifficulty(ws, 1), CountDifficulty(ws, 2), CountDifficulty(ws, 3));
      match UpdateMetadata(bank.metadata.value, |ws|, notes)
      case None => None
      case Some(meta) =>
        RebalanceKeepsWords(deduped);
        RebalancePointwise(deduped);
        DedupIsGlobalKeepFirst(bank.lessons, {});
        DedupLeavesNoRepeats(bank.lessons);
        Some((WordBank(rebalanced, Some(meta)), removed, changes))
  }

  /** Rebalancing keeps every word in place and moves it into tier 1 to 3;
      so keys (and their distinctness) are untouched. */
  lemma {:induction false} RebalanceKeepsWords(lessons: seq<Lesson>)
    ensures var ws := Flatten(Rebalance(lessons).0);
            var orig := Flatten(lessons);
            |ws| == |orig|
            && (forall i :: 0 <= i < |ws| ==> ws[i].word == orig[i].word && ws[i].difficulty == NewDifficulty(orig[i].word))
            && (forall e :: e in ws ==> 1 <= e.difficulty <= 3)
            && (DistinctKeys(orig, EntryKey) ==> DistinctKeys(ws, EntryKey))
  {
    var ws := Flatten(Rebalance(lessons).0);
    var orig := Flatten(lessons);
    RebalancePointwise(lessons);
    forall e | e in ws ensures 1 <= e.difficulty <= 3 {
      var i :| 0 <= i < |ws| && ws[i] == e;
      ExceptionTableOnlyMovesCamera(orig[i].word);
    }
    assert forall i :: 0 <= i < |ws| ==> EntryKey(ws[i]) == EntryKey(orig[i]);
  }

  /** Rebalancing keeps each word at its place and gives it its new tier. */
  lemma {:induction false} RebalancePointwise(lessons: seq<Lesson>)
    ensures var ws := Flatten(Rebalance(lessons).0);
            var orig := Flatten(lessons);
            |ws| == |orig|
            && forall i :: 0 <= i < |ws| ==> ws[i].word == orig[i].word && ws[i].difficulty == NewDifficulty(orig[i].word)
    decreases |lessons|
  {
    if |lessons| > 0 {
      var r := Rebalance(lessons);
      assert r.0[1..] == Rebalance(lessons[1..]).0;
      RebalancePointwise(lessons[1..]);
      var tail := Flatten(r.0[1..]);
      var otail := Flatten(lessons[1..]);
      var here := r.0[0].words;
      assert Flatten(r.0) == here + tail;
      assert Flatten(lessons) == lessons[0].words + otail;
      PointwiseAppend(here, lessons[0].words, tail, otail);
    }
  }

  predicate SameWordsRetiered(ws: seq<WordEntry>, orig: seq<WordEntry>) {
    |ws| == |orig|
    && forall i :: 0 <= i < |ws| ==> ws[i].word == orig[i].word && ws[i].difficulty == NewDifficulty(orig[i].word)
  }

  lemma PointwiseAppend(a: seq<WordEntry>, oa: seq<WordEntry>, b: seq<WordEntry>, ob: seq<WordEntry>)
    requires SameWordsRetiered(a, oa) && SameWordsRetiered(b, ob)
    ensures SameWordsRetiered(a + b, oa + ob)
  {
    var n := |a|;
    forall i | 0 <= i < |a + b|
      ensures (a + b)[i].word == (oa + ob)[i].word && (a + b)[i].difficulty == NewDifficulty((oa + ob)[i].word)
    {
      if i >= n {
        assert (a + b)[i] == b[i - n] && (oa + ob)[i] == ob[i - n];
      } else {
        assert (a + b)[i] == a[i] && (oa + ob)[i] == oa[i];
      }
    }
  }

  /** `fixedIssues` is extended, never replaced: whatever it held comes
      first in the new list, followed by the three notes. */
  lemma IssuesAreAppended(meta: seq<(string, Json)>, total: nat, notes: seq<Json>, before: seq<Json>)
    requires Lookup(meta, "fixedIssues") == Some(Arr(before))
    ensures UpdateMetadata(meta, total, notes).Some?
    ensures Lookup(UpdateMetadata(meta, total, notes).value, "fixedIssues") == Some(Arr(before + notes))
  {
    FixedIssuesUntouched(meta, total);
  }

  /** A bank without `fixedIssues` gets a new list holding just the notes. */
  lemma IssuesAreCreated(meta: seq<(string, Json)>, total: nat, notes: seq<Json>)
    requires Lookup(meta, "fixedIssues").None?
    ensures UpdateMetadata(meta, total, notes).Some?
    ensures Lookup(UpdateMetadata(meta, total, notes).value, "fixedIssues") == Some(Arr(notes))
  {
    FixedIssuesUntouched(meta, total);
    assert [] + notes == notes;
  }
}
