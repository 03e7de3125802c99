/** proj/analyze_words.py, `analyze_word_distribution`: totals, the words
    that occur more than once (with every place they occur), the three tier
    sets, their pairwise overlaps and the minimum tier size. The report
    printing is left out; the returned figures are modelled. */
module AnalyzeBank {
  import opened Wrappers
  import opened Text
  import opened Ordering
  import opened Dedup
  import FixWords

  /** A word object; `difficulty` is `None` when the key is absent. */
  datatype Entry = Entry(word: string, difficulty: Option<int>)

  datatype Lesson = Lesson(key: string, words: seq<Entry>)

  /** One occurrence: lesson, lower-cased word, difficulty (default 1). */
  datatype Source = Source(lesson: string, word: string, difficulty: int)

  const MinWordsPerLevel: nat := 20

  function LessonSources(key: string, words: seq<Entry>): (r: seq<Source>)
    ensures |r| == |words|
    ensures forall i :: 0 <= i < |words| ==>
              r[i] == Source(key, Lower(words[i].word), words[i].difficulty.GetOr(1))
  {
    seq(|words|, i requires 0 <= i < |words| => Source(key, Lower(words[i].word), words[i].difficulty.GetOr(1)))
  }

  /** Every occurrence, lessons in order, words in order within a lesson. */
  function AllSources(lessons: seq<Lesson>): seq<Source>
    decreases |lessons|
  {
    if |lessons| == 0 then [] else LessonSources(lessons[0].key, lessons[0].words) + AllSources(lessons[1..])
  }

  function SourceWord(s: Source): string {
    s.word
  }

  /** `all_words`. */
  function WordList(srcs: seq<Source>): (r: seq<string>)
    ensures |r| == |srcs|
    ensures forall i :: 0 <= i < |srcs| ==> r[i] == srcs[i].word
  {
    seq(|srcs|, i requires 0 <= i < |srcs| => srcs[i].word)
  }

  /** `word_sources[w]`: the occurrences of `w`, in order. */
  function SourcesOf(srcs: seq<Source>, w: string): (r: seq<Source>)
    ensures forall s :: s in r <==> s in srcs && s.word == w
    ensures |r| <= |srcs|
    decreases |srcs|
  {
    if |srcs| == 0 then []
    else
      var rest := SourcesOf(srcs[1..], w);
      assert forall s :: s in srcs <==> s == srcs[0] || s in srcs[1..] by {
        assert srcs == [srcs[0]] + srcs[1..];
      }
      if srcs[0].word == w then [srcs[0]] + rest else rest
  }

  predicate Occurs(srcs: seq<Source>, w: string) {
    exists k :: 0 <= k < |srcs| && srcs[k].word == w
  }

  predicate OccursTwice(srcs: seq<Source>, w: string) {
    exists i, j :: 0 <= i < j < |srcs| && srcs[i].word == w && srcs[j].word == w
  }

  lemma OccursIffSources(srcs: seq<Source>, w: string)
    ensures |SourcesOf(srcs, w)| > 0 <==> Occurs(srcs, w)
  {
    if |SourcesOf(srcs, w)| > 0 {
      assert SourcesOf(srcs, w)[0] in SourcesOf(srcs, w);
    }
    if Occurs(srcs, w) {
      var k :| 0 <= k < |srcs| && srcs[k].word == w;
      assert srcs[k] in SourcesOf(srcs, w);
    }
  }

  lemma OccursTwiceCons(srcs: seq<Source>, w: string)
    requires |srcs| > 0
    ensures OccursTwice(srcs, w) <==>
            (srcs[0].word == w && Occurs(srcs[1..], w)) || OccursTwice(srcs[1..], w)
  {
    var t := srcs[1..];
    if OccursTwice(srcs, w) {
      var i, j :| 0 <= i < j < |srcs| && srcs[i].word == w && srcs[j].word == w;
      assert t[j - 1] == srcs[j];
      if i > 0 {
        assert t[i - 1] == srcs[i];
      }
    }
    if srcs[0].word == w && Occurs(t, w) {
      var k :| 0 <= k < |t| && t[k].word == w;
      assert srcs[k + 1] == t[k];
    }
    if OccursTwice(t, w) {
      var i, j :| 0 <= i < j < |t| && t[i].word == w && t[j].word == w;
      assert srcs[i + 1] == t[i] && srcs[j + 1] == t[j];
    }
  }

  /** A word has more than one source iff it occurs at two positions. */
  lemma {:induction false} RepeatedIffTwoPositions(srcs: seq<Source>, w: string)
    ensures |SourcesOf(srcs, w)| > 1 <==> OccursTwice(srcs, w)
    decreases |srcs|
  {
    if |srcs| > 0 {
      var t := srcs[1..];
      RepeatedIffTwoPositions(t, w);
      OccursTwiceCons(srcs, w);
      OccursIffSources(t, w);
    }
  }

  /** The repeated words, in order of first appearance, each with all its
      sources. */
  function DuplicatesFrom(firsts: seq<Source>, srcs: seq<Source>): (r: seq<(string, seq<Source>)>)
    ensures forall w, ss :: (w, ss) in r <==> Occurs(firsts, w) && ss == SourcesOf(srcs, w) && |ss| > 1
    decreases |firsts|
  {
    if |firsts| == 0 then []
    else
      var w := firsts[0].word;
      var ss := SourcesOf(srcs, w);
      var rest := DuplicatesFrom(firsts[1..], srcs);
      assert forall v :: Occurs(firsts, v) <==> v == w || Occurs(firsts[1..], v) by {
        forall v ensures Occurs(firsts, v) <==> v == w || Occurs(firsts[1..], v) {
          if Occurs(firsts, v) {
            var i :| 0 <= i < |firsts| && firsts[i].word == v;
            if i > 0 {
              assert firsts[1..][i - 1] == firsts[i];
            }
          }
          if Occurs(firsts[1..], v) {
            var i :| 0 <= i < |firsts[1..]| && firsts[1..][i].word == v;
            assert firsts[i + 1] == firsts[1..][i];
          }
        }
      }
      if |ss| > 1 then [(w, ss)] + rest else rest
  }

  /** `duplicates`: the words with more than one source, each with all of
      its sources. */
  function Duplicates(srcs: seq<Source>): (r: seq<(string, seq<Source>)>)
    ensures forall w, ss :: (w, ss) in r <==> Occurs(srcs, w) && ss == SourcesOf(srcs, w) && |ss| > 1
  {
    var firsts := KeepFirst(srcs, SourceWord, {});
    assert forall w :: Occurs(firsts, w) <==> Occurs(srcs, w) by {
      assert KeySet(firsts, SourceWord) == KeySet(srcs, SourceWord);
      forall w ensures Occurs(firsts, w) <==> Occurs(srcs, w) {
        if Occurs(firsts, w) {
          var i :| 0 <= i < |firsts| && firsts[i].word == w;
          assert SourceWord(firsts[i]) in KeySet(firsts, SourceWord);
        }
        if Occurs(srcs, w) {
          var j :| 0 <= j < |srcs| && srcs[j].word == w;
          assert SourceWord(srcs[j]) in KeySet(srcs, SourceWord);
        }
      }
    }
    DuplicatesFrom(firsts, srcs)
  }

  /** The duplicate list is empty iff no lower-cased word occurs twice. */
  lemma DuplicatesEmptyIffDistinct(srcs: seq<Source>)
    ensures Duplicates(srcs) == [] <==> Distinct(WordList(srcs))
  {
    if !Distinct(WordList(srcs)) {
      RepeatIsDuplicate(srcs);
    } else if Duplicates(srcs) != [] {
      DuplicateIsRepeat(srcs);
    }
  }

  lemma RepeatIsDuplicate(srcs: seq<Source>)
    requires !Distinct(WordList(srcs))
    ensures Duplicates(srcs) != []
  {
    var words := WordList(srcs);
    var i, j :| 0 <= i < j < |words| && words[i] == words[j];
    var w := words[i];
    assert OccursTwice(srcs, w);
    RepeatedIffTwoPositions(srcs, w);
    assert (w, SourcesOf(srcs, w)) in Duplicates(srcs);
  }

  lemma DuplicateIsRepeat(srcs: seq<Source>)
    requires Duplicates(srcs) != []
    ensures !Distinct(WordList(srcs))
  {
    var d := Duplicates(srcs)[0];
    assert d in Duplicates(srcs);
    RepeatedIffTwoPositions(srcs, d.0);
    var i, j :| 0 <= i < j < |srcs| && srcs[i].word == d.0 && srcs[j].word == d.0;
    assert WordList(srcs)[i] == WordList(srcs)[j];
  }

  /** `set(difficulty_stats[d])`. */
  function TierSet(srcs: seq<Source>, d: int): (r: set<string>)
    ensures forall w :: w in r <==> exists i :: 0 <= i < |srcs| && srcs[i].word == w && srcs[i].difficulty == d
  {
    var r := set s | s in srcs && s.difficulty == d :: s.word;
    assert forall w :: w in r ==> exists i :: 0 <= i < |srcs| && srcs[i].word == w && srcs[i].difficulty == d by {
      forall w | w in r ensures exists i :: 0 <= i < |srcs| && srcs[i].word == w && srcs[i].difficulty == d {
        var s :| s in srcs && s.difficulty == d && s.word == w;
        var i :| 0 <= i < |srcs| && srcs[i] == s;
      }
    }
    r
  }

  /** The level-exclusivity check: each pair of tiers in order (1,2),
      (1,3), (2,3), reported only when the two share a word. */
  function Overlaps(srcs: seq<Source>): (r: seq<(int, int, set<string>)>)
    ensures |r| <= 3
    ensures forall t :: t in r <==>
              ((t.0, t.1) == (1, 2) || (t.0, t.1) == (1, 3) || (t.0, t.1) == (2, 3))
              && t.2 == TierSet(srcs, t.0) * TierSet(srcs, t.1) && t.2 != {}
  {
    var a := TierSet(srcs, 1) * TierSet(srcs, 2);
    var b := TierSet(srcs, 1) * TierSet(srcs, 3);
    var c := TierSet(srcs, 2) * TierSet(srcs, 3);
    (if a != {} then [(1, 2, a)] else [])
    + (if b != {} then [(1, 3, b)] else [])
    + (if c != {} then [(2, 3, c)] else [])
  }

  /** The coverage warnings: tiers 1 to 3 with fewer than 20 distinct
      words, with their size. A warning does not stop the analysis. */
  function Insufficient(srcs: seq<Source>): (r: seq<(int, nat)>)
    ensures forall t :: t in r <==> 1 <= t.0 <= 3 && t.1 == |TierSet(srcs, t.0)| && t.1 < MinWordsPerLevel
  {
    var one := |TierSet(srcs, 1)|;
    var two := |TierSet(srcs, 2)|;
    var three := |TierSet(srcs, 3)|;
    (if one < MinWordsPerLevel then [(1, one)] else [])
    + (if two < MinWordsPerLevel then [(2, two)] else [])
    + (if three < MinWordsPerLevel then [(3, three)] else [])
  }

  datatype Analysis = Analysis(
    totalWords: nat,
    uniqueWords: nat,
    duplicateCount: int,
    duplicates: seq<(string, seq<Source>)>,
    overlaps: seq<(int, int, set<string>)>,
    insufficient: seq<(int, nat)>)

  function Analyze(lessons: seq<Lesson>): (a: Analysis)
    ensures a.duplicateCount == a.totalWords - a.uniqueWords
    ensures a.totalWords == |AllSources(lessons)|
    ensures a.uniqueWords == |ToSet(WordList(AllSources(lessons)))|
  {
    var srcs := AllSources(lessons);
    var words := WordList(srcs);
    Analysis(|words|, |ToSet(words)|, |words| - |ToSet(words)|,
             Duplicates(srcs), Overlaps(srcs), Insufficient(srcs))
  }

  /** The duplicate count is never negative, and it is zero exactly when
      the duplicate list is empty: both say that no lower-cased word occurs
      twice. */
  lemma DuplicateCountAgrees(lessons: seq<Lesson>)
    ensures var a := Analyze(lessons);
            a.duplicateCount >= 0
            && (a.duplicateCount == 0 <==> a.duplicates == [])
            && (a.duplicateCount == 0 <==> Distinct(WordList(AllSources(lessons))))
  {
    var srcs := AllSources(lessons);
    ToSetSize(WordList(srcs));
    DuplicatesEmptyIffDistinct(srcs);
  }

  /** When no word occurs at two positions with different tiers, no two
      tier sets overlap. */
  lemma NoOverlapWithOneTierPerWord(srcs: seq<Source>)
    requires forall i, j :: 0 <= i < |srcs| && 0 <= j < |srcs| && srcs[i].word == srcs[j].word
               ==> srcs[i].difficulty == srcs[j].difficulty
    ensures Overlaps(srcs) == []
  {
    forall d, e | d != e ensures TierSet(srcs, d) * TierSet(srcs, e) == {} {
    }
  }

  /** A bank as this analysis reads it, after the repair tool wrote it. */
  function FromFixed(lessons: seq<FixWords.Lesson>): (r: seq<Lesson>)
    ensures |r| == |lessons|
    decreases |lessons|
  {
    if |lessons| == 0 then []
    else
      var l := lessons[0];
      [Lesson(l.key, seq(|l.words|, i requires 0 <= i < |l.words| => Entry(l.words[i].word, Some(l.words[i].difficulty))))]
      + FromFixed(lessons[1..])
  }

  lemma {:induction false} FromFixedWords(lessons: seq<FixWords.Lesson>)
    ensures var srcs := AllSources(FromFixed(lessons));
            var flat := FixWords.Flatten(lessons);
            |srcs| == |flat|
            && forall i :: 0 <= i < |srcs| ==>
                 srcs[i].word == FixWords.EntryKey(flat[i]) && srcs[i].difficulty == flat[i].difficulty
    decreases |lessons|
  {
    if |lessons| > 0 {
      FromFixedWords(lessons[1..]);
      var r := FromFixed(lessons);
      assert r[1..] == FromFixed(lessons[1..]);
      var srcs := AllSources(r);
      var here := LessonSources(r[0].key, r[0].words);
      var flat := FixWords.Flatten(lessons);
      var n := |lessons[0].words|;
      assert srcs == here + AllSources(FromFixed(lessons[1..]));
      assert flat == lessons[0].words + FixWords.Flatten(lessons[1..]);
      forall i | 0 <= i < |srcs|
        ensures srcs[i].word == FixWords.EntryKey(flat[i]) && srcs[i].difficulty == flat[i].difficulty
      {
        if i >= n {
          assert srcs[i] == AllSources(FromFixed(lessons[1..]))[i - n];
          assert flat[i] == FixWords.Flatten(lessons[1..])[i - n];
        }
      }
    }
  }

  /** Lessons without a repeated word give sources without one. */
  lemma FixedSourcesDistinct(lessons: seq<FixWords.Lesson>)
    requires Dedup.DistinctKeys(FixWords.Flatten(lessons), FixWords.EntryKey)
    ensures Distinct(WordList(AllSources(FromFixed(lessons))))
  {
    var flat := FixWords.Flatten(lessons);
    var srcs := AllSources(FromFixed(lessons));
    FromFixedWords(lessons);
    forall i, j | 0 <= i < j < |srcs| ensures WordList(srcs)[i] != WordList(srcs)[j] {
      assert FixWords.EntryKey(flat[i]) != FixWords.EntryKey(flat[j]);
    }
  }

  /** Analysing lessons without a repeated word finds no duplicates and no
      tier overlaps. */
  lemma DistinctLessonsAreClean(lessons: seq<FixWords.Lesson>)
    requires Dedup.DistinctKeys(FixWords.Flatten(lessons), FixWords.EntryKey)
    ensures var a := Analyze(FromFixed(lessons));
            a.duplicateCount == 0 && a.duplicates == [] && a.overlaps == []
  {
    var srcs := AllSources(FromFixed(lessons));
    var words := WordList(srcs);
    FixedSourcesDistinct(lessons);
    forall i, j | 0 <= i < |srcs| && 0 <= j < |srcs| && srcs[i].word == srcs[j].word
      ensures srcs[i].difficulty == srcs[j].difficulty
    {
      assert words[i] == words[j];
      assert i == j;
    }
    DuplicateCountAgrees(FromFixed(lessons));
    NoOverlapWithOneTierPerWord(srcs);
  }

  /** Analysing a repaired bank finds no duplicates and no tier overlaps. */
  lemma RepairedBankIsClean(bank: FixWords.WordBank)
    requires FixWords.FixBank(bank).Some?
    ensures var a := Analyze(FromFixed(FixWords.FixBank(bank).value.0.lessons));
            a.duplicateCount == 0 && a.duplicates == [] && a.overlaps == []
  {
    DistinctLessonsAreClean(FixWords.FixBank(bank).value.0.lessons);
  }
}
