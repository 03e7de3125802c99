/** Building the game vocabulary from the enabled word libraries
    (`processAllWords`, `processLibraryWords`, `addWordToCollection`,
    `updateWordsByDifficulty`, `loadSelectedMissedWords`, `updateConfig` of
    the version-2 managers; `processWordsData` and
    `validateDifficultyDistribution` of the first manager). A library's
    JSON is given already parsed; fetching it is not modelled. */
module Collection {
  import opened Wrappers
  import opened Text
  import opened JsonValue
  import opened Dedup

  /** A word as a library file lists it; `difficulty` is `None` when absent. */
  datatype RawWord = RawWord(word: string, difficulty: Option<int>)

  /** A phonics lesson; `words` is `None` when the lesson has no array of
      words. */
  datatype LessonData = LessonData(key: string, words: Option<seq<RawWord>>)

  /** `phonicsLessons` wins over a plain `words` list; a library with
      neither contributes nothing. */
  datatype LibraryData = Phonics(lessons: seq<LessonData>) | WordList(words: seq<RawWord>) | NoWords

  datatype Library = Library(id: string, data: LibraryData)

  /** A word on its way into the collection, with where it came from. */
  datatype Tagged = Tagged(raw: RawWord, libraryId: string, lessonKey: string)

  /** An entry of `allWords`; words from missed-word cards carry no lesson. */
  datatype WordRecord = WordRecord(word: string, difficulty: Option<int>, libraryId: string, lessonKey: Option<string>)

  /** A skipped repeat: the kept word's library and lesson, then the
      repeat's. */
  datatype Duplicate = Duplicate(word: string, libraries: (string, string), lessons: (Option<string>, string))

  datatype Collected = Collected(allWords: seq<WordRecord>, duplicates: seq<Duplicate>)

  function LessonEntries(lessons: seq<LessonData>, libraryId: string): (r: seq<Tagged>)
    decreases |lessons|
  {
    if |lessons| == 0 then []
    else
      var l := lessons[0];
      var here := match l.words
        case None => []
        case Some(ws) => seq(|ws|, i requires 0 <= i < |ws| => Tagged(ws[i], libraryId, l.key));
      here + LessonEntries(lessons[1..], libraryId)
  }

  /** The words of one library in the order `addWordToCollection` sees
      them: lesson by lesson, or the plain list under lesson key `words`. */
  function Entries(lib: Library): seq<Tagged> {
    match lib.data
    case Phonics(lessons) => LessonEntries(lessons, lib.id)
    case WordList(ws) => seq(|ws|, i requires 0 <= i < |ws| => Tagged(ws[i], lib.id, "words"))
    case NoWords => []
  }

  function AllEntries(libs: seq<Library>): seq<Tagged>
    decreases |libs|
  {
    if |libs| == 0 then [] else Entries(libs[0]) + AllEntries(libs[1..])
  }

  function TaggedKey(t: Tagged): string {
    Lower(t.raw.word)
  }

  function WordKey(r: WordRecord): string {
    r.word
  }

  function Record(t: Tagged): WordRecord {
    WordRecord(Lower(t.raw.word), t.raw.difficulty, t.libraryId, Some(t.lessonKey))
  }

  function Records(ts: seq<Tagged>): (r: seq<WordRecord>)
    ensures |r| == |ts|
    ensures forall i :: 0 <= i < |ts| ==> r[i] == Record(ts[i])
  {
    seq(|ts|, i requires 0 <= i < |ts| => Record(ts[i]))
  }

  /** `wordMap.get(word)`: the record stored under that word. */
  function Find(words: seq<WordRecord>, w: string): (r: Option<nat>)
    ensures r.Some? ==> r.value < |words| && words[r.value].word == w
    ensures r.None? <==> w !in KeySet(words, WordKey)
    decreases |words|
  {
    if |words| == 0 then None
    else if words[|words| - 1].word == w then Some(|words| - 1)
    else
      assert KeySet(words, WordKey) == KeySet(words[..|words| - 1], WordKey) + {words[|words| - 1].word} by {
        assert words == words[..|words| - 1] + [words[|words| - 1]];
        KeySetAppend(words[..|words| - 1], [words[|words| - 1]], WordKey);
      }
      Find(words[..|words| - 1], w)
  }

  /** `addWordToCollection`: a word already collected (lower-cased) is
      logged as a duplicate naming both sources; a new one is appended. */
  function AddWord(c: Collected, t: Tagged): (r: Collected)
    ensures TaggedKey(t) in KeySet(c.allWords, WordKey) ==>
              r.allWords == c.allWords && |r.duplicates| == |c.duplicates| + 1
              && r.duplicates[..|c.duplicates|] == c.duplicates && r.duplicates[|c.duplicates|].word == TaggedKey(t)
    ensures TaggedKey(t) !in KeySet(c.allWords, WordKey) ==>
              r.allWords == c.allWords + [Record(t)] && r.duplicates == c.duplicates
  {
    var w := Lower(t.raw.word);
    match Find(c.allWords, w)
    case Some(i) =>
      var kept := c.allWords[i];
      Collected(c.allWords, c.duplicates + [Duplicate(w, (kept.libraryId, t.libraryId), (kept.lessonKey, t.lessonKey))])
    case None =>
      Collected(c.allWords + [Record(t)], c.duplicates)
  }

  function AddAll(c: Collected, ts: seq<Tagged>): (r: Collected)
    decreases |ts|
  {
    if |ts| == 0 then c else AddAll(AddWord(c, ts[0]), ts[1..])
  }

  lemma RecordsCons(t: Tagged, ts: seq<Tagged>)
    ensures Records([t] + ts) == [Record(t)] + Records(ts)
  {
  }

  /** The collection loop is keep-first de-duplication by lower-cased word,
      starting from the words already collected. */
  lemma {:induction false} AddAllIsKeepFirst(c: Collected, ts: seq<Tagged>)
    ensures AddAll(c, ts).allWords == c.allWords + Records(KeepFirst(ts, TaggedKey, KeySet(c.allWords, WordKey)))
    decreases |ts|
  {
    if |ts| == 0 {
      assert c.allWords + Records([]) == c.allWords;
    } else {
      var c' := AddWord(c, ts[0]);
      AddAllIsKeepFirst(c', ts[1..]);
      AddAllStep(c, ts);
    }
  }

  lemma AddAllStep(c: Collected, ts: seq<Tagged>)
    requires |ts| > 0
    requires var c' := AddWord(c, ts[0]);
             AddAll(c', ts[1..]).allWords == c'.allWords + Records(KeepFirst(ts[1..], TaggedKey, KeySet(c'.allWords, WordKey)))
    ensures AddAll(c, ts).allWords == c.allWords + Records(KeepFirst(ts, TaggedKey, KeySet(c.allWords, WordKey)))
  {
    var seen := KeySet(c.allWords, WordKey);
    var t := ts[0];
    var k := TaggedKey(t);
    AddWordKeys(c, t);
    var rest := KeepFirst(ts[1..], TaggedKey, KeySet(AddWord(c, t).allWords, WordKey));
    assert AddAll(c, ts) == AddAll(AddWord(c, t), ts[1..]);
    if k in seen {
      assert KeepFirst(ts, TaggedKey, seen) == rest;
    } else {
      assert KeepFirst(ts, TaggedKey, seen) == [t] + rest;
      RecordsAppendOne(c.allWords, t, rest);
    }
  }

  lemma RecordsAppendOne(words: seq<WordRecord>, t: Tagged, rest: seq<Tagged>)
    ensures (words + [Record(t)]) + Records(rest) == words + Records([t] + rest)
  {
    RecordsCons(t, rest);
  }

  /** Adding one word either leaves the collection alone or appends the
      word's record and its key. */
  lemma AddWordKeys(c: Collected, t: Tagged)
    ensures TaggedKey(t) in KeySet(c.allWords, WordKey) ==> AddWord(c, t).allWords == c.allWords
    ensures TaggedKey(t) !in KeySet(c.allWords, WordKey) ==>
              AddWord(c, t).allWords == c.allWords + [Record(t)]
              && KeySet(AddWord(c, t).allWords, WordKey) == KeySet(c.allWords, WordKey) + {TaggedKey(t)}
  {
    if TaggedKey(t) !in KeySet(c.allWords, WordKey) {
      KeySetAppend(c.allWords, [Record(t)], WordKey);
      var one := [Record(t)];
      assert WordKey(one[0]) == TaggedKey(t);
      assert WordKey(one[0]) in KeySet(one, WordKey);
      assert KeySet(one, WordKey) == {TaggedKey(t)};
    }
  }

  /** Every word is either collected or logged as a duplicate. */
  lemma {:induction false} AddAllAccountsForEveryWord(c: Collected, ts: seq<Tagged>)
    ensures |AddAll(c, ts).allWords| + |AddAll(c, ts).duplicates| == |c.allWords| + |c.duplicates| + |ts|
    decreases |ts|
  {
    if |ts| > 0 {
      AddAllAccountsForEveryWord(AddWord(c, ts[0]), ts[1..]);
    }
  }

  predicate NamesKeeper(words: seq<WordRecord>, d: Duplicate) {
    exists i :: 0 <= i < |words| && words[i].word == d.word
                && words[i].libraryId == d.libraries.0 && words[i].lessonKey == d.lessons.0
  }

  /** Each duplicate record names the library and lesson of the collected
      word it repeats. */
  ghost predicate DuplicatesNameKeepers(c: Collected) {
    forall j :: 0 <= j < |c.duplicates| ==> NamesKeeper(c.allWords, c.duplicates[j])
  }

  lemma {:induction false} AddAllNamesKeepers(c: Collected, ts: seq<Tagged>)
    requires DuplicatesNameKeepers(c)
    ensures DuplicatesNameKeepers(AddAll(c, ts))
    decreases |ts|
  {
    if |ts| > 0 {
      var c' := AddWord(c, ts[0]);
      forall j | 0 <= j < |c'.duplicates| ensures NamesKeeper(c'.allWords, c'.duplicates[j]) {
        if j < |c.duplicates| {
          assert c'.duplicates[j] == c.duplicates[j];
          var i :| 0 <= i < |c.allWords| && c.allWords[i].word == c.duplicates[j].word
                   && c.allWords[i].libraryId == c.duplicates[j].libraries.0
                   && c.allWords[i].lessonKey == c.duplicates[j].lessons.0;
          assert c'.allWords[i] == c.allWords[i];
        } else {
          var i := Find(c.allWords, TaggedKey(ts[0])).value;
          assert c'.allWords[i] == c.allWords[i];
        }
      }
      AddAllNamesKeepers(c', ts[1..]);
    }
  }

  /** Processing the libraries one after another (each starting from the
      words already collected) is one pass over all their words. */
  lemma {:induction false} AddAllAppend(c: Collected, a: seq<Tagged>, b: seq<Tagged>)
    ensures AddAll(c, a + b) == AddAll(AddAll(c, a), b)
    decreases |a|
  {
    if |a| == 0 {
      assert a + b == b;
    } else {
      assert (a + b)[0] == a[0];
      assert (a + b)[1..] == a[1..] + b;
      AddAllAppend(AddWord(c, a[0]), a[1..], b);
    }
  }

  /** `processAllWords` of the second manager: a fresh collection over the
      loaded libraries in order. */
  function ProcessAllWords(libs: seq<Library>): (r: Collected)
    ensures DistinctKeys(r.allWords, WordKey)
    ensures r.allWords == Records(KeepFirst(AllEntries(libs), TaggedKey, {}))
    ensures |r.allWords| + |r.duplicates| == |AllEntries(libs)|
    ensures DuplicatesNameKeepers(r)
  {
    var empty := Collected([], []);
    var r := AddAll(empty, AllEntries(libs));
    assert KeySet(empty.allWords, WordKey) == {};
    AddAllIsKeepFirst(empty, AllEntries(libs));
    assert r.allWords == Records(KeepFirst(AllEntries(libs), TaggedKey, {}));
    RecordsKeepKeys(KeepFirst(AllEntries(libs), TaggedKey, {}));
    AddAllAccountsForEveryWord(empty, AllEntries(libs));
    AddAllNamesKeepers(empty, AllEntries(libs));
    r
  }

  lemma RecordsKeepKeys(ts: seq<Tagged>)
    requires DistinctKeys(ts, TaggedKey)
    ensures DistinctKeys(Records(ts), WordKey)
    ensures KeySet(Records(ts), WordKey) == KeySet(ts, TaggedKey)
  {
    var r := Records(ts);
    assert forall i :: 0 <= i < |ts| ==> WordKey(r[i]) == TaggedKey(ts[i]);
  }

  /** `processLibraryWords` of the current manager: the library's words are
      added to those already collected, and its duplicates are appended to
      the log. Libraries are processed as their downloads complete. */
  function ProcessLibraries(c: Collected, libs: seq<Library>): (r: Collected)
    decreases |libs|
  {
    if |libs| == 0 then c else ProcessLibraries(AddAll(c, Entries(libs[0])), libs[1..])
  }

  /** Whatever order the downloads complete in, processing library by
      library gives the same collection as the second manager's single
      pass over the libraries in that order. */
  lemma {:induction false} LibraryByLibraryIsOnePass(libs: seq<Library>)
    ensures ProcessLibraries(Collected([], []), libs) == ProcessAllWords(libs)
  {
    ProcessLibrariesIsAddAll(Collected([], []), libs);
  }

  lemma {:induction false} ProcessLibrariesIsAddAll(c: Collected, libs: seq<Library>)
    ensures ProcessLibraries(c, libs) == AddAll(c, AllEntries(libs))
    decreases |libs|
  {
    if |libs| > 0 {
      ProcessLibrariesIsAddAll(AddAll(c, Entries(libs[0])), libs[1..]);
      AddAllAppend(c, Entries(libs[0]), AllEntries(libs[1..]));
    }
  }

  /** `item.difficulty || 1`. */
  function BucketOf(r: WordRecord): int {
    if r.difficulty.None? || r.difficulty.value == 0 then 1 else r.difficulty.value
  }

  /** The words of one bucket, in collection order. */
  function Bucket(words: seq<WordRecord>, d: int): (r: seq<WordRecord>)
    ensures forall x :: x in r <==> x in words && BucketOf(x) == d
    decreases |words|
  {
    if |words| == 0 then []
    else
      var last := words[|words| - 1];
      assert words == words[..|words| - 1] + [last];
      Bucket(words[..|words| - 1], d) + (if BucketOf(last) == d then [last] else [])
  }

  /** `updateWordsByDifficulty`: walk the words, appending each to the list
      under its bucket, creating the list on first use. */
  function GroupByDifficulty(words: seq<WordRecord>): (m: map<int, seq<WordRecord>>)
    decreases |words|
  {
    if |words| == 0 then map[]
    else
      var m := GroupByDifficulty(words[..|words| - 1]);
      var last := words[|words| - 1];
      var d := BucketOf(last);
      m[d := (if d in m then m[d] else []) + [last]]
  }

  /** The grouping loop builds exactly one non-empty list per difficulty
      that occurs, holding that difficulty's words in order; so every word
      lands in exactly one bucket. */
  lemma {:induction false} GroupingIsBuckets(words: seq<WordRecord>)
    ensures forall d :: d in GroupByDifficulty(words) <==> exists i :: 0 <= i < |words| && BucketOf(words[i]) == d
    ensures forall d :: d in GroupByDifficulty(words) ==> GroupByDifficulty(words)[d] == Bucket(words, d)
    decreases |words|
  {
    if |words| > 0 {
      var init := words[..|words| - 1];
      var last := words[|words| - 1];
      GroupingIsBuckets(init);
      var m := GroupByDifficulty(init);
      forall d | d in GroupByDifficulty(words) ensures GroupByDifficulty(words)[d] == Bucket(words, d) {
        if d != BucketOf(last) && d in m {
          assert Bucket(words, d) == Bucket(init, d);
        } else if d == BucketOf(last) && d !in m {
          BucketEmpty(init, d);
        }
      }
      forall d ensures d in GroupByDifficulty(words) <==> exists i :: 0 <= i < |words| && BucketOf(words[i]) == d {
        if exists i :: 0 <= i < |words| && BucketOf(words[i]) == d {
          var i :| 0 <= i < |words| && BucketOf(words[i]) == d;
          if i < |words| - 1 {
            assert init[i] == words[i];
          }
        }
        if d in m {
          var i :| 0 <= i < |init| && BucketOf(init[i]) == d;
          assert words[i] == init[i];
        }
      }
    }
  }

  lemma {:induction false} BucketEmpty(words: seq<WordRecord>, d: int)
    requires forall i :: 0 <= i < |words| ==> BucketOf(words[i]) != d
    ensures Bucket(words, d) == []
    decreases |words|
  {
    if |words| > 0 {
      BucketEmpty(words[..|words| - 1], d);
    }
  }

  /** Every word is in the bucket of its difficulty and in no other. */
  lemma EachWordInOneBucket(words: seq<WordRecord>, i: nat, d: int)
    requires i < |words|
    ensures var m := GroupByDifficulty(words);
            BucketOf(words[i]) in m && words[i] in m[BucketOf(words[i])]
            && (d in m && words[i] in m[d] ==> d == BucketOf(words[i]))
  {
    GroupingIsBuckets(words);
  }

  /** What a missed-word card's `meaning` turned out to be when parsed. */
  datatype CardContent = Parsed(j: Json) | Unparsable(text: string)

  datatype MissedCard = MissedCard(word: string, meaning: CardContent)

  /** The words a JSON array of word objects yields: processing stops at
      the first element without a string `word`, where the source throws
      and abandons the rest of the card. */
  function WordsUntilBad(items: seq<Json>): (r: seq<string>)
    ensures |r| <= |items|
    decreases |items|
  {
    if |items| == 0 then []
    else match items[0]
      case Obj(fields) =>
        (match Lookup(fields, "word")
         case Some(Str(w)) => [w] + WordsUntilBad(items[1..])
         case _ => [])
      case _ => []
  }

  /** The comma-separated fallback: pieces trimmed, empty ones dropped. */
  function NonEmptyTrimmed(pieces: seq<string>): (r: seq<string>)
    ensures forall i :: 0 <= i < |r| ==> r[i] != ""
    decreases |pieces|
  {
    if |pieces| == 0 then []
    else (if Trim(pieces[0]) == "" then [] else [Trim(pieces[0])]) + NonEmptyTrimmed(pieces[1..])
  }

  function CardWords(content: CardContent): seq<string> {
    match content
    case Unparsable(text) => NonEmptyTrimmed(Split(text, ','))
    case Parsed(Arr(items)) => WordsUntilBad(items)
    case Parsed(_) => []
  }

  /** A word from a card, tagged with the card it came from. */
  datatype MissedTag = MissedTag(card: string, word: string)

  function CardTags(cards: seq<MissedCard>): seq<MissedTag>
    decreases |cards|
  {
    if |cards| == 0 then []
    else
      var ws := CardWords(cards[0].meaning);
      seq(|ws|, i requires 0 <= i < |ws| => MissedTag(cards[0].word, ws[i])) + CardTags(cards[1..])
  }

  function SelectedCards(cards: seq<MissedCard>, selected: seq<string>): (r: seq<MissedCard>)
    ensures forall c :: c in r <==> c in cards && c.word in selected
    decreases |cards|
  {
    if |cards| == 0 then []
    else (if cards[0].word in selected then [cards[0]] else []) + SelectedCards(cards[1..], selected)
  }

  function TagKey(t: MissedTag): string {
    Lower(t.word)
  }

  function LowerKey(r: WordRecord): string {
    Lower(r.word)
  }

  /** A missed word joins the vocabulary at difficulty 2, as typed on the
      card, under the card's own library name. */
  function MissedRecord(t: MissedTag): WordRecord {
    WordRecord(t.word, Some(2), "missed-words-" + t.card, None)
  }

  function MissedRecords(ts: seq<MissedTag>): (r: seq<WordRecord>)
    ensures |r| == |ts|
    ensures forall i :: 0 <= i < |ts| ==> r[i] == MissedRecord(ts[i])
  {
    seq(|ts|, i requires 0 <= i < |ts| => MissedRecord(ts[i]))
  }

  /** `loadSelectedMissedWords`: the words of the selected cards whose
      lower-cased form is not yet in the vocabulary are appended, first
      occurrence only. Nothing selected (or nothing stored) changes
      nothing. */
  function MergeMissed(allWords: seq<WordRecord>, selected: seq<string>, cards: seq<MissedCard>): (r: seq<WordRecord>)
    ensures allWords <= r
    ensures |selected| == 0 ==> r == allWords
    ensures forall i :: |allWords| <= i < |r| ==> r[i].difficulty == Some(2) && LowerKey(r[i]) !in KeySet(allWords, LowerKey)
    ensures forall t :: t in CardTags(SelectedCards(cards, selected)) ==> Lower(t.word) in KeySet(r, LowerKey)
    ensures DistinctKeys(allWords, LowerKey) ==> DistinctKeys(r, LowerKey)
  {
    MergeFacts(allWords, selected, cards);
    allWords + MissedRecords(KeepFirst(CardTags(SelectedCards(cards, selected)), TagKey, KeySet(allWords, LowerKey)))
  }

  lemma MergeFacts(allWords: seq<WordRecord>, selected: seq<string>, cards: seq<MissedCard>)
    ensures var tags := CardTags(SelectedCards(cards, selected));
            var added := KeepFirst(tags, TagKey, KeySet(allWords, LowerKey));
            var r := allWords + MissedRecords(added);
            (|selected| == 0 ==> r == allWords)
            && (forall i :: |allWords| <= i < |r| ==> r[i].difficulty == Some(2) && LowerKey(r[i]) !in KeySet(allWords, LowerKey))
            && (forall t :: t in tags ==> Lower(t.word) in KeySet(r, LowerKey))
            && (DistinctKeys(allWords, LowerKey) ==> DistinctKeys(r, LowerKey))
  {
    var tags := CardTags(SelectedCards(cards, selected));
    var seen := KeySet(allWords, LowerKey);
    var added := KeepFirst(tags, TagKey, seen);
    var r := allWords + MissedRecords(added);
    assert forall i :: 0 <= i < |added| ==> LowerKey(MissedRecords(added)[i]) == TagKey(added[i]);
    assert KeySet(MissedRecords(added), LowerKey) == KeySet(added, TagKey);
    KeySetAppend(allWords, MissedRecords(added), LowerKey);
    forall t | t in tags ensures Lower(t.word) in KeySet(r, LowerKey) {
      var i :| 0 <= i < |tags| && tags[i] == t;
      assert TagKey(tags[i]) in KeySet(tags, TagKey);
    }
    forall i | |allWords| <= i < |r| ensures r[i].difficulty == Some(2) && LowerKey(r[i]) !in seen {
      assert r[i] == MissedRecord(added[i - |allWords|]);
      assert LowerKey(r[i]) == TagKey(added[i - |allWords|]);
    }
    if |selected| == 0 {
      NothingSelected(cards, selected);
    }
    if DistinctKeys(allWords, LowerKey) {
      forall i, j | 0 <= i < j < |r| ensures LowerKey(r[i]) != LowerKey(r[j]) {
        if j >= |allWords| {
          assert LowerKey(r[j]) == TagKey(added[j - |allWords|]);
          if i >= |allWords| {
            assert LowerKey(r[i]) == TagKey(added[i - |allWords|]);
          } else {
            assert LowerKey(r[i]) in seen;
          }
        }
      }
    }
  }

  lemma {:induction false} NothingSelected(cards: seq<MissedCard>, selected: seq<string>)
    requires |selected| == 0
    ensures SelectedCards(cards, selected) == []
    decreases |cards|
  {
    if |cards| > 0 {
      NothingSelected(cards[1..], selected);
    }
  }

  /** Library words are stored lower-cased, so on them the merge's
      case-insensitive key and the collection's exact key agree. */
  lemma LibraryWordsAreLowerCase(libs: seq<Library>)
    ensures forall i :: 0 <= i < |ProcessAllWords(libs).allWords| ==>
              LowerKey(ProcessAllWords(libs).allWords[i]) == WordKey(ProcessAllWords(libs).allWords[i])
  {
    forall i | 0 <= i < |ProcessAllWords(libs).allWords|
      ensures LowerKey(ProcessAllWords(libs).allWords[i]) == WordKey(ProcessAllWords(libs).allWords[i])
    {
      var kept := KeepFirst(AllEntries(libs), TaggedKey, {});
      assert ProcessAllWords(libs).allWords[i] == Record(kept[i]);
      LowerIsLowerCase(kept[i].raw.word);
    }
  }

  /** The settings a manager holds; only the library list matters here. */
  datatype Config = Config(enabledLibraries: seq<string>, gameMode: string)

  /** `updateConfig`: new values override, and the libraries are reloaded
      exactly when the enabled list changed (order included, as its JSON
      text is compared). */
  function UpdateConfig(current: Config, newLibraries: Option<seq<string>>, newMode: Option<string>): (r: (Config, bool))
    ensures r.1 <==> newLibraries.Some? && newLibraries.value != current.enabledLibraries
    ensures r.0.enabledLibraries == newLibraries.GetOr(current.enabledLibraries)
    ensures r.0.gameMode == newMode.GetOr(current.gameMode)
  {
    var merged := Config(newLibraries.GetOr(current.enabledLibraries), newMode.GetOr(current.gameMode));
    (merged, merged.enabledLibraries != current.enabledLibraries)
  }

  /** A word as the first manager stores it: lower-cased, with its lesson. */
  datatype OldWord = OldWord(word: string, difficulty: Option<int>, lesson: string)

  function ToOld(t: Tagged): OldWord {
    OldWord(Lower(t.raw.word), t.raw.difficulty, t.lessonKey)
  }

  /** `processWordsData` of the first manager: one phonics file; later
      repeats (lower-cased) are skipped. No data or no lessons gives no
      words. */
  function OldProcessWordsData(lessons: Option<seq<LessonData>>): (r: seq<OldWord>)
    ensures lessons.None? ==> r == []
    ensures forall i, j :: 0 <= i < j < |r| ==> r[i].word != r[j].word
  {
    match lessons
    case None => []
    case Some(ls) =>
      var kept := KeepFirst(LessonEntries(ls, ""), TaggedKey, {});
      seq(|kept|, i requires 0 <= i < |kept| => ToOld(kept[i]))
  }

  /** The first manager keeps the same words, in the same order and with
      the same difficulties and lessons, as the second manager does for a
      single phonics library. */
  lemma OldAndNewAgree(id: string, lessons: seq<LessonData>)
    ensures var first := OldProcessWordsData(Some(lessons));
            var second := ProcessAllWords([Library(id, Phonics(lessons))]).allWords;
            |first| == |second|
            && forall i :: 0 <= i < |first| ==>
                 first[i].word == second[i].word && first[i].difficulty == second[i].difficulty
                 && Some(first[i].lesson) == second[i].lessonKey
  {
    var libs := [Library(id, Phonics(lessons))];
    assert AllEntries(libs) == LessonEntries(lessons, id) + AllEntries([]);
    assert AllEntries(libs) == LessonEntries(lessons, id);
    RelabelKeepsKeys(lessons, id);
  }

  /** The library name does not change which words are kept. */
  lemma {:induction false} RelabelKeepsKeys(lessons: seq<LessonData>, id: string)
    ensures var a := KeepFirst(LessonEntries(lessons, ""), TaggedKey, {});
            var b := KeepFirst(LessonEntries(lessons, id), TaggedKey, {});
            |a| == |b| && forall i :: 0 <= i < |a| ==> a[i].raw == b[i].raw && a[i].lessonKey == b[i].lessonKey
  {
    var x := LessonEntries(lessons, "");
    var y := LessonEntries(lessons, id);
    RelabelEntries(lessons, id);
    KeepFirstRelabel(x, y, {});
  }

  lemma {:induction false} RelabelEntries(lessons: seq<LessonData>, id: string)
    ensures |LessonEntries(lessons, "")| == |LessonEntries(lessons, id)|
    ensures forall i :: 0 <= i < |LessonEntries(lessons, "")| ==>
              LessonEntries(lessons, "")[i].raw == LessonEntries(lessons, id)[i].raw
              && LessonEntries(lessons, "")[i].lessonKey == LessonEntries(lessons, id)[i].lessonKey
    decreases |lessons|
  {
    if |lessons| > 0 {
      RelabelEntries(lessons[1..], id);
    }
  }

  predicate SameWords(x: seq<Tagged>, y: seq<Tagged>) {
    |x| == |y| && forall i :: 0 <= i < |x| ==> x[i].raw == y[i].raw && x[i].lessonKey == y[i].lessonKey
  }

  lemma {:induction false} KeepFirstRelabel(x: seq<Tagged>, y: seq<Tagged>, seen: set<string>)
    requires SameWords(x, y)
    ensures SameWords(KeepFirst(x, TaggedKey, seen), KeepFirst(y, TaggedKey, seen))
    decreases |x|
  {
    if |x| > 0 {
      assert TaggedKey(x[0]) == TaggedKey(y[0]);
      assert SameWords(x[1..], y[1..]);
      var k := TaggedKey(x[0]);
      if k in seen {
        KeepFirstRelabel(x[1..], y[1..], seen);
      } else {
        KeepFirstRelabel(x[1..], y[1..], seen + {k});
      }
    }
  }

  /** `validateDifficultyDistribution` of the first manager: words of
      difficulty 1, 2 and 3 are counted (others ignored), and a tier with
      fewer than 10 words draws a warning. */
  function TierCount(words: seq<OldWord>, d: int): (n: nat)
    ensures n <= |words|
    decreases |words|
  {
    if |words| == 0 then 0
    else (if words[0].difficulty == Some(d) then 1 else 0) + TierCount(words[1..], d)
  }

  const MinTierWords: nat := 10

  function TierWarnings(words: seq<OldWord>): (r: seq<int>)
    ensures forall d :: d in r <==> d in {1, 2, 3} && TierCount(words, d) < MinTierWords
  {
    (if TierCount(words, 1) < MinTierWords then [1] else [])
    + (if TierCount(words, 2) < MinTierWords then [2] else [])
    + (if TierCount(words, 3) < MinTierWords then [3] else [])
  }

  /** `validateDifficultyDistribution` of the later managers: every
      difficulty that occurs (a missing or zero one counting as 1) is
      counted, and each with fewer than 10 words draws a warning. A
      difficulty no word has is never reported, unlike above. */
  function DistributionWarnings(words: seq<WordRecord>): (r: set<int>)
    ensures forall d :: d in r <==>
              (exists i :: 0 <= i < |words| && BucketOf(words[i]) == d) && |Bucket(words, d)| < MinTierWords
  {
    GroupingIsBuckets(words);
    var groups := GroupByDifficulty(words);
    set d | d in groups && |groups[d]| < MinTierWords
  }
}
