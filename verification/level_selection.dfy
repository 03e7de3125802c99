/** Choosing the next word for a level in the three manager generations:
    the version-2 manager's `getVocabularyForLevel` (unused words first,
    then non-recent ones, with a new round once a difficulty is used up),
    the first manager's level-to-difficulty mapping and retrying pick
    (`getVocabularyForLevel`, `getRandomWord`, `selectLeastRecentWord`,
    `getMissingCountForLevel`), and the built-in bank of the review-book
    manager (`getVocabularyForLevel`, `getMissingCountForLevel`). */
module LevelSelection {
  import opened Wrappers
  import opened Ordering
  import opened Masking
  import opened RecentWords
  import opened Collection

  /** A draw `Math.floor(Math.random() * n)` is any index below `n`; it is
      modelled as `raw % n` for an arbitrary natural `raw`, which reaches
      every such index and nothing else. */
  function Scale(raw: seq<nat>, n: nat): (r: seq<nat>)
    ensures forall k :: 0 <= k < |r| ==> r[k] < n
    ensures n > 0 ==> |r| == |raw|
  {
    if n == 0 then [] else seq(|raw|, k requires 0 <= k < |raw| => raw[k] % n)
  }

  // ---------------------------------------------------------------------
  // Version-2 manager

  /** The per-session selection state: words used in the current round and
      the recent list. */
  datatype LevelState = LevelState(used: set<string>, recent: seq<string>)

  /** `allWords.filter(word => word.difficulty === target)`. */
  function OfTarget(words: seq<WordRecord>, target: int): (r: seq<WordRecord>)
    ensures forall w :: w in r <==> w in words && w.difficulty == Some(target)
  {
    Filter(words, (w: WordRecord) => w.difficulty == Some(target))
  }

  function UnusedOf(words: seq<WordRecord>, used: set<string>): (r: seq<WordRecord>)
    ensures forall w :: w in r <==> w in words && w.word !in used
  {
    Filter(words, (w: WordRecord) => w.word !in used)
  }

  function NotRecentOf(words: seq<WordRecord>, recent: seq<string>): (r: seq<WordRecord>)
    ensures forall w :: w in r <==> w in words && w.word !in recent
  {
    Filter(words, (w: WordRecord) => w.word !in recent)
  }

  /** The words the pick is made from: the unused words of the target
      difficulty, or all of them once every one has been used (after the
      reset the unused ones are all of them), narrowed to the non-recent
      ones when there are any. */
  function Candidates(filtered: seq<WordRecord>, used: set<string>, recent: seq<string>): (r: seq<WordRecord>)
    ensures |filtered| > 0 ==> |r| > 0
    ensures forall w :: w in r ==> w in filtered
    ensures (exists w :: w in filtered && w.word !in used) ==> forall w :: w in r ==> w.word !in used
    ensures (exists w :: w in filtered && w.word !in used && w.word !in recent) ==>
              forall w :: w in r ==> w.word !in used && w.word !in recent
    ensures (forall w :: w in filtered ==> w.word in used) && (exists w :: w in filtered && w.word !in recent) ==>
              forall w :: w in r ==> w.word !in recent
  {
    var unused := UnusedOf(filtered, used);
    var available := if |unused| > 0 then unused else filtered;
    var notRecent := NotRecentOf(available, recent);
    if |notRecent| > 0 then notRecent
    else
      assert |available| > 0 ==> available[0] in available;
      available
  }

  /** The words of `ws`. */
  function WordsIn(ws: seq<WordRecord>): (r: set<string>)
    ensures forall x :: x in r <==> exists w :: w in ws && w.word == x
  {
    set w | w in ws :: w.word
  }

  lemma RoundOverIff(filtered: seq<WordRecord>, used: set<string>)
    ensures |UnusedOf(filtered, used)| == 0 <==> forall v :: v in filtered ==> v.word in used
  {
    if |UnusedOf(filtered, used)| != 0 {
      assert UnusedOf(filtered, used)[0] in UnusedOf(filtered, used);
    }
  }

  /** Starting a new round forgets exactly the words of the target
      difficulty. */
  lemma ResetUsed(allWords: seq<WordRecord>, target: int, filtered: seq<WordRecord>, used: set<string>, picked: string)
    requires forall v :: v in filtered <==> v in allWords && v.difficulty == Some(target)
    ensures forall x :: x in (used - WordsIn(filtered)) + {picked} <==>
              x == picked || (x in used && forall v :: v in allWords && v.difficulty == Some(target) ==> v.word != x)
  {
  }

  /** The choice and state change of `getVocabularyForLevel`; `pick` is the
      drawn index into the candidates. Nothing is chosen when the vocabulary
      is not loaded or has no word of the target difficulty. */
  function SelectForLevel(st: LevelState, allWords: seq<WordRecord>, loaded: bool, target: int, pick: nat): (r: Option<(WordRecord, LevelState)>)
    ensures r.None? <==> !loaded || forall w :: w in allWords ==> w.difficulty != Some(target)
    ensures r.Some? ==> r.value.0 in allWords && r.value.0.difficulty == Some(target)
    ensures r.Some? ==> r.value.1.recent == AddToRecent(st.recent, r.value.0.word, MaxRecentWords)
    ensures r.Some? && (exists w :: w in allWords && w.difficulty == Some(target) && w.word !in st.used) ==>
              r.value.0.word !in st.used && r.value.1.used == st.used + {r.value.0.word}
    ensures r.Some? && (forall w :: w in allWords && w.difficulty == Some(target) ==> w.word in st.used) ==>
              forall x :: x in r.value.1.used <==>
                x == r.value.0.word
                || (x in st.used && forall w :: w in allWords && w.difficulty == Some(target) ==> w.word != x)
    ensures r.Some? && (exists w :: w in allWords && w.difficulty == Some(target) && w.word !in st.used && w.word !in st.recent) ==>
              r.value.0.word !in st.recent
    ensures r.Some? && (forall w :: w in allWords && w.difficulty == Some(target) ==> w.word in st.used)
                    && (exists w :: w in allWords && w.difficulty == Some(target) && w.word !in st.recent) ==>
              r.value.0.word !in st.recent
  {
    if !loaded || |allWords| == 0 then None
    else
      var filtered := OfTarget(allWords, target);
      if |filtered| == 0 then None
      else
        var roundOver := |UnusedOf(filtered, st.used)| == 0;
        var used := if roundOver then st.used - WordsIn(filtered) else st.used;
        var cands := Candidates(filtered, st.used, st.recent);
        var w := cands[pick % |cands|];
        assert w in cands;
        RoundOverIff(filtered, st.used);
        ResetUsed(allWords, target, filtered, st.used, w.word);
        Some((w, LevelState(used + {w.word}, AddToRecent(st.recent, w.word, MaxRecentWords))))
  }

  /** The puzzle the version-2 managers build for a chosen word: every
      letter hidden in challenge mode, else one or two (`twoLetters`),
      through `generateMissingIndices`. `None` only when the supplied draws
      run out. */
  function PuzzleFor(word: string, challenge: bool, twoLetters: bool, raw: seq<nat>): (r: Option<Puzzle>)
    ensures r.Some? ==> r.value.original == word && WellFormed(r.value)
    ensures r.Some? ==> Fill(r.value.display, r.value.missing, r.value.missingLetters) == word
    ensures r.Some? ==> Ascending(r.value.missing)
    ensures challenge ==> r.Some? && forall i :: 0 <= i < |word| ==> r.value.display[i] == '_'
    ensures r.Some? && !challenge ==> |r.value.missing| == Min(if twoLetters then 2 else 1, |word|)
  {
    var draws := Scale(raw, |word|);
    if challenge then
      ChallengeHidesEverything(word, draws);
      assert Ascending(Range(|word|));
      Some(MakePuzzle(word, Range(|word|)))
    else
      match MissingIndices(|word|, if twoLetters then 2 else 1, draws)
      case None => None
      case Some(idx) => Some(MakePuzzle(word, idx))
  }

  /** `getVocabularyForLevel` of the version-2 manager: the selection
      followed by the puzzle. The state changes as soon as a word is
      chosen. */
  function VocabularyForLevel(st: LevelState, allWords: seq<WordRecord>, loaded: bool, target: int, pick: nat,
                              challenge: bool, twoLetters: bool, raw: seq<nat>): (r: (Option<Puzzle>, LevelState))
    ensures SelectForLevel(st, allWords, loaded, target, pick).None? ==> r == (None, st)
    ensures r.0.Some? ==> exists w :: w in allWords && w.difficulty == Some(target) && w.word == r.0.value.original
    ensures r.0.Some? ==> WellFormed(r.0.value)
    ensures loaded && (exists w :: w in allWords && w.difficulty == Some(target)) && challenge ==> r.0.Some?
  {
    match SelectForLevel(st, allWords, loaded, target, pick)
    case None => (None, st)
    case Some((w, next)) => (PuzzleFor(w.word, challenge, twoLetters, raw), next)
  }

  // ---------------------------------------------------------------------
  // First manager

  /** Levels 1-2 use difficulty 1, levels 3-4 difficulty 2, higher levels
      difficulty 3. */
  function TargetDifficulty(level: int): (d: int)
    ensures 1 <= d <= 3
    ensures d == 1 <==> level <= 2
    ensures d == 3 <==> level >= 5
  {
    if level <= 2 then 1 else if level <= 4 then 2 else 3
  }

  /** Higher levels never ask for easier words. */
  lemma TargetDifficultyMonotone(a: int, b: int)
    requires a <= b
    ensures TargetDifficulty(a) <= TargetDifficulty(b)
  {
  }

  function OldOfDifficulty(words: seq<OldWord>, d: int): (r: seq<OldWord>)
    ensures forall w :: w in r <==> w in words && w.difficulty == Some(d)
  {
    Filter(words, (w: OldWord) => w.difficulty == Some(d))
  }

  /** `getVocabularyForLevel` of the first manager: the words of the
      level's difficulty, or every word when that difficulty has none. */
  function OldVocabularyForLevel(allWords: seq<OldWord>, level: int): (r: seq<OldWord>)
    ensures |r| > 0 <==> |allWords| > 0
    ensures forall w :: w in r ==> w in allWords
    ensures (exists w :: w in allWords && w.difficulty == Some(TargetDifficulty(level))) ==>
              forall w :: w in allWords ==> (w in r <==> w.difficulty == Some(TargetDifficulty(level)))
    ensures (forall w :: w in allWords ==> w.difficulty != Some(TargetDifficulty(level))) ==> r == allWords
  {
    if |allWords| == 0 then []
    else
      var filtered := OldOfDifficulty(allWords, TargetDifficulty(level));
      if |filtered| == 0 then allWords
      else
        assert filtered[0] in filtered;
        filtered
  }

  function OldNotRecent(vocab: seq<OldWord>, recent: seq<string>): (r: seq<OldWord>)
    ensures forall w :: w in r <==> w in vocab && w.word !in recent
  {
    Filter(vocab, (w: OldWord) => w.word !in recent)
  }

  /** `vocabulary.find(word => word.word === target)`. */
  function FindWord(vocab: seq<OldWord>, target: string): (r: Option<OldWord>)
    ensures r.Some? ==> r.value in vocab && r.value.word == target
    ensures r.None? <==> forall w :: w in vocab ==> w.word != target
    decreases |vocab|
  {
    if |vocab| == 0 then None
    else if vocab[0].word == target then Some(vocab[0])
    else
      var rest := FindWord(vocab[1..], target);
      assert forall w :: w in vocab <==> w == vocab[0] || w in vocab[1..];
      rest
  }

  /** `selectLeastRecentWord`: a drawn non-recent word if there is one;
      otherwise the word equal to the oldest recent entry, or the first
      word. */
  function SelectLeastRecent(vocab: seq<OldWord>, recent: seq<string>, pick: nat): (r: OldWord)
    requires |vocab| > 0
    ensures r in vocab
    ensures (exists w :: w in vocab && w.word !in recent) ==> r.word !in recent
    ensures (forall w :: w in vocab ==> w.word in recent) ==>
              |recent| > 0 && ((exists w :: w in vocab && w.word == recent[|recent| - 1]) ==> r.word == recent[|recent| - 1])
  {
    var available := OldNotRecent(vocab, recent);
    if |available| > 0 then
      assert available[pick % |available|] in available;
      available[pick % |available|]
    else
      assert vocab[0] in vocab;
      var oldest := recent[|recent| - 1];
      FindWord(vocab, oldest).GetOr(vocab[0])
  }

  /** `maxAttempts` of `getRandomWord`. */
  const MaxAttempts: nat := 50

  /** The first drawn word that is not recent, if any. */
  function FirstNotRecent(vocab: seq<OldWord>, recent: seq<string>, attempts: seq<nat>): (r: Option<OldWord>)
    requires forall k :: 0 <= k < |attempts| ==> attempts[k] < |vocab|
    ensures r.Some? ==> r.value in vocab && r.value.word !in recent
    ensures r.None? <==> forall k :: 0 <= k < |attempts| ==> vocab[attempts[k]].word in recent
    decreases |attempts|
  {
    if |attempts| == 0 then None
    else if vocab[attempts[0]].word !in recent then Some(vocab[attempts[0]])
    else FirstNotRecent(vocab, recent, attempts[1..])
  }

  /** The pick of `getRandomWord`: up to fifty draws looking for a
      non-recent word, then `selectLeastRecentWord`. */
  function OldPickWord(vocab: seq<OldWord>, recent: seq<string>, raw: seq<nat>, pick: nat): (r: OldWord)
    requires |vocab| > 0
    ensures r in vocab
    ensures (exists w :: w in vocab && w.word !in recent) ==> r.word !in recent
  {
    var attempts := Scale(raw, |vocab|);
    var tries := attempts[..Min(|attempts|, MaxAttempts)];
    match FirstNotRecent(vocab, recent, tries)
    case Some(w) => w
    case None => SelectLeastRecent(vocab, recent, pick)
  }

  /** `getMissingCountForLevel` before the end-of-level bonus; `coin` is
      the draw `Math.random() < 0.5` (`< 0.3` above level 4). */
  function BaseMissingCount(level: int, coin: bool): (n: int) {
    if level == 1 then 1
    else if level == 2 || level == 3 then (if coin then 1 else 2)
    else if level == 4 then 2
    else if coin then 2 else 3
  }

  /** `getMissingCountForLevel` of the first manager, clamped to at least 1. */
  function OldMissingCount(level: int, endChallenge: bool, coin: bool): (n: int)
    ensures 1 <= n <= 4
    ensures level == 1 ==> n == if endChallenge then 2 else 1
    ensures level == 4 ==> n == if endChallenge then 3 else 2
    ensures !endChallenge ==> n <= 3
  {
    var base := BaseMissingCount(level, coin) + (if endChallenge then 1 else 0);
    if base < 1 then 1 else base
  }

  /** `getMissingCountForLevel` of the review-book manager, without the
      clamp. */
  function BankMissingCount(level: int, endChallenge: bool, coin: bool): (n: int)
    ensures endChallenge ==> n == BankMissingCount(level, false, coin) + 1
  {
    BaseMissingCount(level, coin) + (if endChallenge then 1 else 0)
  }

  /** Every branch of the table already gives at least one letter, so the
      clamp the first manager adds never changes the count. */
  lemma ClampNeverBites(level: int, endChallenge: bool, coin: bool)
    ensures BankMissingCount(level, endChallenge, coin) == OldMissingCount(level, endChallenge, coin)
  {
  }

  /** `getRandomWord` of the first manager: the vocabulary for the level,
      the recent bound reset to `min(15, floor(0.7 * size))`, the pick,
      the recent-list update and the puzzle with at most `length - 1`
      hidden letters. The result also carries the new recent list. */
  function OldRandomWord(loaded: bool, allWords: seq<OldWord>, recent: seq<string>, level: int, endChallenge: bool,
                         coin: bool, attempts: seq<nat>, pick: nat, raw: seq<nat>): (r: Option<(Puzzle, seq<string>)>)
    ensures !loaded || |allWords| == 0 ==> r.None?
    ensures r.Some? ==> exists w :: w in allWords && w.word == r.value.0.original
    ensures r.Some? ==> WellFormed(r.value.0) && Ascending(r.value.0.missing)
    ensures r.Some? && |r.value.0.original| > 0 ==> |r.value.0.missing| < |r.value.0.original|
    ensures r.Some? ==> r.value.1 == AddToRecentSplice(recent, r.value.0.original,
                                                        MaxRecentFor(|OldVocabularyForLevel(allWords, level)|))
    ensures r.Some? && (exists w :: w in OldVocabularyForLevel(allWords, level) && w.word !in recent) ==>
              r.value.0.original !in recent
  {
    if !loaded || |allWords| == 0 then None
    else
      var vocab := OldVocabularyForLevel(allWords, level);
      var w := OldPickWord(vocab, recent, attempts, pick).word;
      var nextRecent := AddToRecentSplice(recent, w, MaxRecentFor(|vocab|));
      var count := OldMissingCount(level, endChallenge, coin);
      match MissingIndicesKeepOne(|w|, count, Scale(raw, |w|))
      case None => None
      case Some(idx) => Some((MakePuzzle(w, idx), nextRecent))
  }

  // ---------------------------------------------------------------------
  // Review-book manager

  /** The bank key `level{min(level, 3)}`, with every key the bank lacks
      falling back to `level1`. */
  function BankLevel(level: int): (k: int)
    ensures 1 <= k <= 3
    ensures 1 <= level <= 3 ==> k == level
    ensures level > 3 ==> k == 3
    ensures level < 1 ==> k == 1
  {
    var m := Min(level, 3);
    if m >= 1 then m else 1
  }

  /** The built-in three-level bank. */
  datatype Bank = Bank(level1: seq<string>, level2: seq<string>, level3: seq<string>)

  function BankWords(bank: Bank, level: int): (r: seq<string>) {
    match BankLevel(level)
    case 1 => bank.level1
    case 2 => bank.level2
    case _ => bank.level3
  }

  /** `getRandomWord` of the review-book manager: a drawn bank word and at
      most `length - 1` hidden letters. */
  function BankRandomWord(bank: Bank, level: int, endChallenge: bool, coin: bool, pick: nat, raw: seq<nat>): (r: Option<Puzzle>)
    requires |bank.level1| > 0 && |bank.level2| > 0 && |bank.level3| > 0
    ensures r.Some? ==> r.value.original in BankWords(bank, level)
    ensures r.Some? ==> WellFormed(r.value) && Ascending(r.value.missing)
    ensures r.Some? && |r.value.original| > 0 ==> |r.value.missing| < |r.value.original|
    ensures r.Some? && |r.value.original| > BankMissingCount(level, endChallenge, coin) ==>
              |r.value.missing| == BankMissingCount(level, endChallenge, coin)
  {
    var vocab := BankWords(bank, level);
    var w := vocab[pick % |vocab|];
    match MissingIndicesKeepOne(|w|, BankMissingCount(level, endChallenge, coin), Scale(raw, |w|))
    case None => None
    case Some(idx) => Some(MakePuzzle(w, idx))
  }
}
