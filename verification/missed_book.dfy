/** The missed-word book kept by the managers (`addMissedWord`,
    `getVocabularyStats`) and the review puzzle drawn from it
    (`getReviewWord`). A JavaScript `Map` keeps insertion order, so the book
    is a sequence of entries with pairwise different words; updating an
    existing word keeps its position. */
module MissedBook {
  import opened Wrappers
  import opened Masking
  import opened Ordering

  datatype MissedEntry = MissedEntry(
    word: string, meaning: string, phonetic: string,
    count: nat, giveUpCount: nat, failCount: nat, level: int)

  type Book = seq<MissedEntry>

  /** What the game reports about a missed word. */
  datatype Miss = Miss(original: string, meaning: string, phonetic: string, giveUp: bool, level: Option<int>)

  predicate WellKeyed(book: Book) {
    forall i, j :: 0 <= i < j < |book| ==> book[i].word != book[j].word
  }

  /** Every entry counts each miss once, as either a give-up or a failure. */
  predicate Balanced(book: Book) {
    forall i :: 0 <= i < |book| ==> book[i].count == book[i].giveUpCount + book[i].failCount
  }

  function IndexOf(book: Book, word: string): (r: Option<nat>)
    ensures r.Some? ==> r.value < |book| && book[r.value].word == word
    ensures r.None? <==> forall i :: 0 <= i < |book| ==> book[i].word != word
    decreases |book|
  {
    if |book| == 0 then None
    else if book[|book| - 1].word == word then Some(|book| - 1)
    else IndexOf(book[..|book| - 1], word)
  }

  /** `wordData.level || 1`: a missing or zero level counts as 1. */
  function LevelOrOne(level: Option<int>): int {
    if level.None? || level.value == 0 then 1 else level.value
  }

  /** `addMissedWord`: a repeat adds one to `count` and to the matching
      sub-counter; a new word is appended with count 1. */
  function AddMissed(book: Book, m: Miss): (r: Book)
    ensures IndexOf(book, m.original).None? ==>
              r == book + [MissedEntry(m.original, m.meaning, m.phonetic, 1,
                                       if m.giveUp then 1 else 0, if m.giveUp then 0 else 1,
                                       LevelOrOne(m.level))]
  {
    match IndexOf(book, m.original)
    case Some(i) =>
      var e := book[i];
      book[i := e.(count := e.count + 1,
                   giveUpCount := e.giveUpCount + (if m.giveUp then 1 else 0),
                   failCount := e.failCount + (if m.giveUp then 0 else 1))]
    case None =>
      book + [MissedEntry(m.original, m.meaning, m.phonetic, 1,
                          if m.giveUp then 1 else 0, if m.giveUp then 0 else 1,
                          LevelOrOne(m.level))]
  }

  /** Adding a miss keeps words unique and counts balanced, and the book
      then holds the word. */
  lemma AddMissedInvariant(book: Book, m: Miss)
    requires WellKeyed(book) && Balanced(book)
    ensures WellKeyed(AddMissed(book, m)) && Balanced(AddMissed(book, m))
    ensures IndexOf(AddMissed(book, m), m.original).Some?
  {
    var r := AddMissed(book, m);
    if IndexOf(book, m.original).None? {
      assert r[|r| - 1].word == m.original;
    } else {
      var i := IndexOf(book, m.original).value;
      assert r[i].word == m.original;
    }
  }

  /** A repeated miss changes only that word's entry: one more in `count`
      and exactly one more in the sub-counter its kind names; meaning,
      level and position stay. A new word grows the book by one entry. */
  lemma AddMissedRepeat(book: Book, m: Miss)
    ensures var r := AddMissed(book, m);
            match IndexOf(book, m.original)
            case Some(i) =>
              |r| == |book|
              && (forall j :: 0 <= j < |book| && j != i ==> r[j] == book[j])
              && r[i].word == book[i].word && r[i].meaning == book[i].meaning && r[i].level == book[i].level
              && r[i].count == book[i].count + 1
              && (m.giveUp ==> r[i].giveUpCount == book[i].giveUpCount + 1 && r[i].failCount == book[i].failCount)
              && (!m.giveUp ==> r[i].failCount == book[i].failCount + 1 && r[i].giveUpCount == book[i].giveUpCount)
            case None =>
              |r| == |book| + 1 && r[..|book|] == book && r[|book|].count == 1
  {
  }

  /** Total misses recorded, over all words. */
  function TotalMisses(book: Book): (n: nat)
    decreases |book|
  {
    if |book| == 0 then 0 else TotalMisses(book[..|book| - 1]) + book[|book| - 1].count
  }

  lemma {:induction false} TotalMissesUpdate(book: Book, i: nat, e: MissedEntry)
    requires i < |book|
    ensures TotalMisses(book[i := e]) == TotalMisses(book) - book[i].count + e.count
    decreases |book|
  {
    var n := |book|;
    if i < n - 1 {
      assert book[i := e][..n - 1] == book[..n - 1][i := e];
      TotalMissesUpdate(book[..n - 1], i, e);
    } else {
      assert book[i := e][..n - 1] == book[..n - 1];
    }
  }

  /** Every call records exactly one more miss in the book. */
  lemma AddMissedCountsOne(book: Book, m: Miss)
    ensures TotalMisses(AddMissed(book, m)) == TotalMisses(book) + 1
  {
    match IndexOf(book, m.original)
    case Some(i) =>
      var e := book[i];
      TotalMissesUpdate(book, i, e.(count := e.count + 1,
                                    giveUpCount := e.giveUpCount + (if m.giveUp then 1 else 0),
                                    failCount := e.failCount + (if m.giveUp then 0 else 1)));
    case None =>
      var r := AddMissed(book, m);
      assert r[..|r| - 1] == book;
  }

  datatype Stats = Stats(totalWords: nat, missedWords: nat, words: Book)

  /** `getVocabularyStats` of the version-2 manager: `totalWords` is the size
      of the loaded vocabulary. */
  function StatsV2(allWordsCount: Option<nat>, book: Book): (r: Stats)
    ensures r.totalWords == allWordsCount.GetOr(0) && r.missedWords == |book| && r.words == book
  {
    Stats(allWordsCount.GetOr(0), |book|, book)
  }

  /** `getVocabularyStats` of the review-book manager: there `totalWords`
      is the number of missed words. */
  function StatsReview(book: Book): (r: Stats)
    ensures r.totalWords == |book| && r.words == book
  {
    Stats(|book|, |book|, book)
  }

  /** `clearCurrentLevelVocabulary`: hands back the book and empties it. */
  function ClearBook(book: Book): (r: (Book, Book))
    ensures r.0 == [] && r.1 == book
  {
    ([], book)
  }

  /** The word a review puzzle is built from: the given one, else the
      `pick`-th entry of the book. */
  function ReviewSource(book: Book, specific: Option<string>, pick: nat): Option<string> {
    match specific
    case Some(w) => Some(w)
    case None => if pick < |book| then Some(book[pick].word) else None
  }

  /** `getReviewWord` of the review-book manager; `pick` is the drawn book
      index, `twoLetters` the coin that asks for two hidden letters instead
      of one. */
  function ReviewWord(book: Book, specific: Option<string>, pick: nat, twoLetters: bool, draws: seq<nat>): (r: Option<Puzzle>)
    requires specific.None? && |book| > 0 ==> pick < |book|
    requires ReviewSource(book, specific, pick).Some? ==>
               forall k :: 0 <= k < |draws| ==> draws[k] < |ReviewSource(book, specific, pick).value|
    ensures specific.None? && |book| == 0 ==> r.None?
    ensures r.Some? ==> r.value.original == ReviewSource(book, specific, pick).value
    ensures r.Some? ==> Distinct(r.value.missing) && InRange(r.value.missing, |r.value.original|)
    ensures r.Some? ==> |r.value.missing| == Min(if twoLetters then 2 else 1, |r.value.original|)
    ensures r.Some? ==> WellFormed(r.value) && Fill(r.value.display, r.value.missing, r.value.missingLetters) == r.value.original
  {
    match ReviewSource(book, specific, pick)
    case None => None
    case Some(w) =>
      match ReviewIndices(|w|, if twoLetters then 2 else 1, draws)
      case None => None
      case Some(idx) => Some(MakePuzzle(w, idx))
  }
}
