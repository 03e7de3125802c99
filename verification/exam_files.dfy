/** Exam word-set selection: which word files an exam draws from, how the
    words loaded from them are de-duplicated and cut to the exam size, how
    the game's own word list is backed up and restored around an exam, and
    how the correct rate is computed when the exam ends. */
module ExamFiles {
  import opened Wrappers
  import opened Text
  import opened Ordering
  import opened Dedup
  import WordPool
  import CertStorage
  import CertSystem

  // ---------------------------------------------------------------------
  // Strings inside paths

  /** A minor level spliced into a template string: an absent one prints
      as `null`, which is what `URLSearchParams.get` returns for a missing
      parameter. */
  function MinorText(minor: Option<string>): (r: string)
    ensures minor.Some? ==> r == minor.value
  {
    if minor.Some? then minor.value else "null"
  }

  /** `s.replace(pattern, '')` with a string pattern: only the first
      occurrence is removed. */
  function RemoveFirst(s: string, pattern: string): (r: string)
    requires |pattern| > 0
    ensures |r| == |s| || |r| + |pattern| == |s|
    decreases |s|
  {
    if |s| < |pattern| then s
    else if s[..|pattern|] == pattern then s[|pattern|..]
    else [s[0]] + RemoveFirst(s[1..], pattern)
  }

  /** A string that does not contain the pattern is left alone. */
  lemma {:induction false} RemoveFirstAbsent(s: string, pattern: string)
    requires |pattern| > 0
    ensures !Contains(s, pattern) ==> RemoveFirst(s, pattern) == s
    decreases |s|
  {
    if |s| >= |pattern| && !Contains(s, pattern) {
      assert !StartsWith(s, pattern);
      RemoveFirstAbsent(s[1..], pattern);
      assert [s[0]] + s[1..] == s;
    }
  }

  /** A string that contains the pattern loses exactly one copy of it. */
  lemma {:induction false} RemoveFirstPresent(s: string, pattern: string)
    requires |pattern| > 0
    ensures Contains(s, pattern) ==> |RemoveFirst(s, pattern)| + |pattern| == |s|
    decreases |s|
  {
    if Contains(s, pattern) && !StartsWith(s, pattern) {
      RemoveFirstPresent(s[1..], pattern);
    }
  }

  /** The grade number taken from a major level such as `grade3`. */
  function GradeNumber(major: string): string {
    RemoveFirst(major, "grade")
  }

  /** `grade` followed by anything names that anything. */
  lemma GradeNumberOfGrade(d: string)
    ensures GradeNumber("grade" + d) == d
  {
    assert ("grade" + d)[..5] == "grade";
    assert ("grade" + d)[5..] == d;
  }

  // ---------------------------------------------------------------------
  // Primary-grade exams

  const GradeDir: string := "./words/grade-based/primary/grade"

  function GradePath(gradeNumber: string, term: string, unit: nat): string {
    GradeDir + gradeNumber + "-" + term + "-unit" + NatToString(unit) + ".json"
  }

  /** The unit files 1..n of one term, in unit order. */
  function Units(gradeNumber: string, term: string, n: nat): (r: seq<string>)
    ensures |r| == n
    ensures forall i :: 0 <= i < n ==> r[i] == GradePath(gradeNumber, term, i + 1)
  {
    if n == 0 then [] else Units(gradeNumber, term, n - 1) + [GradePath(gradeNumber, term, n)]
  }

  /** How many units a single-term exam covers: grade 6's second term has
      four units, every other term six. */
  function UnitCount(major: string, minor: Option<string>): nat {
    if major == "grade6" && minor == Some("term2") then 4 else 6
  }

  /** `_getGradeExamFiles`: a final exam covers both terms, units 1-6 of
      each; any other minor level covers its own units. */
  function GradeExamFiles(major: string, minor: Option<string>): (r: seq<string>)
    ensures CertSystem.IsFinal(minor) ==>
              |r| == 12
              && forall i :: 0 <= i < 12 ==> r[i] == GradePath(GradeNumber(major), CertStorage.Terms[i / 6], i % 6 + 1)
    ensures !CertSystem.IsFinal(minor) ==>
              |r| == UnitCount(major, minor)
              && forall i :: 0 <= i < |r| ==> r[i] == GradePath(GradeNumber(major), MinorText(minor), i + 1)
  {
    var num := GradeNumber(major);
    if CertSystem.IsFinal(minor) then Units(num, "term1", 6) + Units(num, "term2", 6)
    else Units(num, MinorText(minor), UnitCount(major, minor))
  }

  /** Grade exam counts: 12 files for a final exam, 4 for grade 6 term 2,
      6 for any other term. */
  lemma GradeExamFileCounts(major: string)
    ensures |GradeExamFiles(major, Some(CertSystem.FinalExam))| == 12
    ensures |GradeExamFiles(major, Some("term1"))| == 6
    ensures |GradeExamFiles(major, Some("term2"))| == (if major == "grade6" then 4 else 6)
  {
  }

  /** Two unit paths of the same grade, with terms of the same length and
      one-digit units, are equal only when term and unit agree. */
  lemma GradePathInjective(num: string, t1: string, u1: nat, t2: string, u2: nat)
    requires |t1| == |t2|
    requires 1 <= u1 <= 9 && 1 <= u2 <= 9
    requires GradePath(num, t1, u1) == GradePath(num, t2, u2)
    ensures t1 == t2 && u1 == u2
  {
    var head := GradeDir + num + "-";
    var p := GradePath(num, t1, u1);
    var q := GradePath(num, t2, u2);
    assert NatToString(u1) == [DigitChar(u1)];
    assert NatToString(u2) == [DigitChar(u2)];
    assert p == head + t1 + "-unit" + [DigitChar(u1)] + ".json";
    assert q == head + t2 + "-unit" + [DigitChar(u2)] + ".json";
    var k := |head|;
    assert p[k..k + |t1|] == t1;
    assert q[k..k + |t2|] == t2;
    assert p[k + |t1| + 5] == DigitChar(u1);
    assert q[k + |t2| + 5] == DigitChar(u2);
  }

  /** The units of one term name distinct files. */
  lemma UnitsDistinct(num: string, term: string, n: nat)
    requires n <= 9
    ensures Distinct(Units(num, term, n))
  {
    var r := Units(num, term, n);
    forall i, j | 0 <= i < j < |r| ensures r[i] != r[j] {
      if r[i] == r[j] {
        GradePathInjective(num, term, i + 1, term, j + 1);
      }
    }
  }

  /** The two terms of a final exam name distinct files. */
  lemma FinalUnitsDistinct(num: string)
    ensures Distinct(Units(num, "term1", 6) + Units(num, "term2", 6))
  {
    var a := Units(num, "term1", 6);
    var b := Units(num, "term2", 6);
    var r := a + b;
    UnitsDistinct(num, "term1", 6);
    UnitsDistinct(num, "term2", 6);
    forall i, j | 0 <= i < j < |r| ensures r[i] != r[j] {
      if j < 6 {
        assert r[i] == a[i] && r[j] == a[j];
      } else if 6 <= i {
        assert r[i] == b[i - 6] && r[j] == b[j - 6];
      } else {
        assert r[i] == GradePath(num, "term1", i + 1);
        assert r[j] == GradePath(num, "term2", j - 5);
        if r[i] == r[j] {
          GradePathInjective(num, "term1", i + 1, "term2", j - 5);
        }
      }
    }
  }

  /** No grade exam loads a file twice. */
  lemma GradeExamFilesDistinct(major: string, minor: Option<string>)
    ensures Distinct(GradeExamFiles(major, minor))
  {
    if CertSystem.IsFinal(minor) {
      FinalUnitsDistinct(GradeNumber(major));
    } else {
      UnitsDistinct(GradeNumber(major), MinorText(minor), UnitCount(major, minor));
    }
  }

  // ---------------------------------------------------------------------
  // Extracurricular (Fly Guy) exams

  const FlyGuyDir: string := "./words/extracurricular-books/fly-guy/fg-book"

  /** The word file of one Fly Guy book, its number padded to two digits. */
  function BookPath(n: nat): string {
    FlyGuyDir + PadTwo(n) + ".json"
  }

  /** The book number a Fly Guy path names, if it is one. */
  function BookNumber(path: string): (r: Option<nat>) {
    if StartsWith(path, FlyGuyDir) && EndsWith(path, ".json") && |path| >= |FlyGuyDir| + 5 then
      var mid := path[|FlyGuyDir|..|path| - 5];
      if forall i :: 0 <= i < |mid| ==> IsDigit(mid[i]) then Some(DigitsValue(mid)) else None
    else None
  }

  /** A book's path names that book. */
  lemma BookPathRoundTrip(n: nat)
    ensures BookNumber(BookPath(n)) == Some(n)
  {
    var p := BookPath(n);
    assert p[..|FlyGuyDir|] == FlyGuyDir;
    assert p[|p| - 5..] == ".json";
    assert p[|FlyGuyDir|..|p| - 5] == PadTwo(n);
  }

  /** The book ranges of the Fly Guy series; any other minor level has
      none. */
  function BookRange(minor: Option<string>): (r: Option<(nat, nat)>)
    ensures r.Some? ==> 1 <= r.value.0 <= r.value.1 <= 15
  {
    if minor == Some("book1to5") then Some((1, 5))
    else if minor == Some("book6to10") then Some((6, 10))
    else if minor == Some("book11to15") then Some((11, 15))
    else if minor == Some(CertSystem.FinalExam) then Some((1, 15))
    else None
  }

  /** `f(lo), …, f(hi)`. */
  function Numbered(lo: nat, hi: nat, f: nat -> string): (r: seq<string>)
    ensures |r| == if lo <= hi then hi - lo + 1 else 0
    ensures forall i :: 0 <= i < |r| ==> r[i] == f(lo + i)
    decreases hi + 1 - lo
  {
    if lo > hi then []
    else
      var rest := Numbered(lo + 1, hi, f);
      assert forall i :: 1 <= i <= |rest| ==> ([f(lo)] + rest)[i] == rest[i - 1];
      [f(lo)] + rest
  }

  /** The paths of books lo..hi, in order. */
  function BookPaths(lo: nat, hi: nat): (r: seq<string>)
    ensures |r| == if lo <= hi then hi - lo + 1 else 0
    ensures forall i :: 0 <= i < |r| ==> r[i] == BookPath(lo + i)
  {
    Numbered(lo, hi, BookPath)
  }

  /** `_getExtracurricularExamFiles`: only the Fly Guy series has files. */
  function ExtracurricularExamFiles(major: string, minor: Option<string>): (r: seq<string>)
    ensures r != [] <==> major == "flyGuy" && BookRange(minor).Some?
    ensures r != [] ==>
              var (lo, hi) := BookRange(minor).value;
              |r| == hi - lo + 1 && forall i :: 0 <= i < |r| ==> BookNumber(r[i]) == Some(lo + i)
  {
    var range := BookRange(minor);
    if major == "flyGuy" && range.Some? then
      BookPathsNumbered(range.value.0, range.value.1);
      BookPaths(range.value.0, range.value.1)
    else []
  }

  /** Each path of a run of books names its book. */
  lemma BookPathsNumbered(lo: nat, hi: nat)
    ensures var r := BookPaths(lo, hi);
            forall i :: 0 <= i < |r| ==> BookNumber(r[i]) == Some(lo + i)
  {
    var r := BookPaths(lo, hi);
    forall i | 0 <= i < |r| ensures BookNumber(r[i]) == Some(lo + i) {
      BookPathRoundTrip(lo + i);
    }
  }

  /** No Fly Guy exam loads a file twice. */
  lemma ExtracurricularFilesDistinct(major: string, minor: Option<string>)
    ensures Distinct(ExtracurricularExamFiles(major, minor))
  {
    var r := ExtracurricularExamFiles(major, minor);
    forall i, j | 0 <= i < j < |r| ensures r[i] != r[j] {
      assert BookNumber(r[i]) != BookNumber(r[j]);
    }
  }

  /** A run of books splits at any book inside it. */
  lemma BookPathsSplit(lo: nat, mid: nat, hi: nat)
    requires lo <= mid + 1 && mid <= hi
    ensures BookPaths(lo, hi) == BookPaths(lo, mid) + BookPaths(mid + 1, hi)
  {
    NumberedSplit(lo, mid, hi, BookPath);
  }

  lemma {:induction false} NumberedSplit(lo: nat, mid: nat, hi: nat, f: nat -> string)
    requires lo <= mid + 1 && mid <= hi
    ensures Numbered(lo, hi, f) == Numbered(lo, mid, f) + Numbered(mid + 1, hi, f)
    decreases mid + 1 - lo
  {
    if lo <= mid {
      NumberedSplit(lo + 1, mid, hi, f);
    }
  }

  /** The Fly Guy final exam covers the three book ranges back to back. */
  lemma FlyGuyFinalCoversRanges()
    ensures ExtracurricularExamFiles("flyGuy", Some(CertSystem.FinalExam))
         == ExtracurricularExamFiles("flyGuy", Some("book1to5"))
          + ExtracurricularExamFiles("flyGuy", Some("book6to10"))
          + ExtracurricularExamFiles("flyGuy", Some("book11to15"))
  {
    FlyGuyFiles(Some(CertSystem.FinalExam), 1, 15);
    FlyGuyFiles(Some("book1to5"), 1, 5);
    FlyGuyFiles(Some("book6to10"), 6, 10);
    FlyGuyFiles(Some("book11to15"), 11, 15);
    BookPathsSplit(1, 5, 15);
    BookPathsSplit(6, 10, 15);
  }

  lemma FlyGuyFiles(minor: Option<string>, lo: nat, hi: nat)
    requires BookRange(minor) == Some((lo, hi))
    ensures ExtracurricularExamFiles("flyGuy", minor) == BookPaths(lo, hi)
  {
  }

  // ---------------------------------------------------------------------
  // Phonics exams

  /** One entry of `phonics-categories.json`: its learning days and its
      test days, each absent when the field is missing. */
  datatype PhonicsCategory = PhonicsCategory(name: string, dailyPhonics: Option<seq<string>>, testDays: Option<seq<string>>)

  const DailyDir: string := "./words/daily-phonics/"

  function DayPath(day: string): string {
    DailyDir + day + ".json"
  }

  lemma DayPathInjective(d1: string, d2: string)
    ensures DayPath(d1) == DayPath(d2) ==> d1 == d2
  {
    if DayPath(d1) == DayPath(d2) {
      assert |d1| == |d2|;
      assert DayPath(d1)[|DailyDir|..|DailyDir| + |d1|] == d1;
      assert DayPath(d2)[|DailyDir|..|DailyDir| + |d2|] == d2;
    }
  }

  function DayPaths(days: seq<string>): (r: seq<string>)
    ensures |r| == |days|
    ensures forall i :: 0 <= i < |r| ==> r[i] == DayPath(days[i])
  {
    if |days| == 0 then [] else [DayPath(days[0])] + DayPaths(days[1..])
  }

  /** A category's learning days, then its test days. */
  function CategoryDays(c: PhonicsCategory): seq<string> {
    c.dailyPhonics.GetOr([]) + c.testDays.GetOr([])
  }

  /** Every category's days, in category order (`Object.values`). */
  function AllDays(categories: seq<(string, PhonicsCategory)>): seq<string>
    decreases |categories|
  {
    if |categories| == 0 then []
    else CategoryDays(categories[0].1) + AllDays(categories[1..])
  }

  /** `config.categories[key]`. */
  function FindCategory(categories: seq<(string, PhonicsCategory)>, key: string): (r: Option<PhonicsCategory>)
    ensures r.Some? <==> exists i :: 0 <= i < |categories| && categories[i].0 == key
    decreases |categories|
  {
    if |categories| == 0 then None
    else if categories[0].0 == key then Some(categories[0].1)
    else FindCategory(categories[1..], key)
  }

  /** The category found is the first one listed under the key. */
  lemma {:induction false} FindCategoryIsFirst(categories: seq<(string, PhonicsCategory)>, key: string)
    ensures var r := FindCategory(categories, key);
            r.Some? ==> exists i :: 0 <= i < |categories| && categories[i] == (key, r.value)
                                    && forall k :: 0 <= k < i ==> categories[k].0 != key
    decreases |categories|
  {
    if |categories| > 0 && categories[0].0 != key {
      FindCategoryIsFirst(categories[1..], key);
      var r := FindCategory(categories, key);
      if r.Some? {
        var i :| 0 <= i < |categories[1..]| && categories[1..][i] == (key, r.value)
                 && forall k :: 0 <= k < i ==> categories[1..][k].0 != key;
        assert categories[i + 1] == (key, r.value);
        forall k | 0 <= k < i + 1 ensures categories[k].0 != key {
          if k > 0 {
            assert categories[k] == categories[1..][k - 1];
          }
        }
      }
    }
  }

  function Identity(d: string): string { d }

  /** `_getPhonicsExamFiles`. `config` is the parsed categories object;
      `None` stands for a failed fetch or parse, which the source catches
      and answers with no files. The final exam takes every day of every
      category once, first occurrence first; a single-category exam takes
      that category's learning days as listed. */
  function PhonicsExamFiles(config: Option<seq<(string, PhonicsCategory)>>, major: string, minor: Option<string>): (r: seq<string>)
    ensures config.None? ==> r == []
    ensures config.Some? && !CertSystem.IsFinal(minor) ==>
              var c := FindCategory(config.value, major);
              if c.Some? && c.value.dailyPhonics.Some? then r == DayPaths(c.value.dailyPhonics.value) else r == []
  {
    if config.None? then []
    else if CertSystem.IsFinal(minor) then DayPaths(KeepFirst(AllDays(config.value), Identity, {}))
    else
      var c := FindCategory(config.value, major);
      if c.Some? && c.value.dailyPhonics.Some? then DayPaths(c.value.dailyPhonics.value) else []
  }

  lemma DayPathsMember(days: seq<string>, d: string)
    ensures DayPath(d) in DayPaths(days) <==> d in days
  {
    var r := DayPaths(days);
    if DayPath(d) in r {
      var i :| 0 <= i < |r| && r[i] == DayPath(d);
      DayPathInjective(days[i], d);
    }
    if d in days {
      var i :| 0 <= i < |days| && days[i] == d;
      assert r[i] == DayPath(d);
    }
  }

  lemma DayPathsDistinct(days: seq<string>)
    requires Distinct(days)
    ensures Distinct(DayPaths(days))
  {
    var r := DayPaths(days);
    forall i, j | 0 <= i < j < |r| ensures r[i] != r[j] {
      DayPathInjective(days[i], days[j]);
    }
  }

  /** The phonics final exam loads each day's file exactly once, and a day
      has its file loaded iff some category lists it as a learning or test
      day. */
  lemma PhonicsFinalCoversEveryDayOnce(categories: seq<(string, PhonicsCategory)>, d: string)
    ensures Distinct(PhonicsExamFiles(Some(categories), "", Some(CertSystem.FinalExam)))
    ensures DayPath(d) in PhonicsExamFiles(Some(categories), "", Some(CertSystem.FinalExam)) <==> d in AllDays(categories)
  {
    var days := AllDays(categories);
    var kept := KeepFirst(days, Identity, {});
    assert CertSystem.IsFinal(Some(CertSystem.FinalExam));
    assert PhonicsExamFiles(Some(categories), "", Some(CertSystem.FinalExam)) == DayPaths(kept);
    KeepFirstDays(days);
    DayPathsDistinct(kept);
    DayPathsMember(kept, d);
  }

  /** Keeping the first occurrence of each day leaves every day once. */
  lemma KeepFirstDays(days: seq<string>)
    ensures var kept := KeepFirst(days, Identity, {});
            Distinct(kept) && forall d :: d in kept <==> d in days
  {
    var kept := KeepFirst(days, Identity, {});
    assert DistinctKeys(kept, Identity);
    forall i, j | 0 <= i < j < |kept| ensures kept[i] != kept[j] {
      assert Identity(kept[i]) != Identity(kept[j]);
    }
    assert KeySet(kept, Identity) == KeySet(days, Identity);
    forall d ensures d in kept <==> d in days {
      if d in kept {
        var i :| 0 <= i < |kept| && kept[i] == d;
        assert Identity(kept[i]) in KeySet(days, Identity);
        var j :| 0 <= j < |days| && Identity(days[j]) == d;
      }
      if d in days {
        var j :| 0 <= j < |days| && days[j] == d;
        assert Identity(days[j]) in KeySet(kept, Identity);
        var i :| 0 <= i < |kept| && Identity(kept[i]) == d;
      }
    }
  }

  // ---------------------------------------------------------------------
  // Dispatch

  /** `getExamVocabularyFiles`: the academic series (and any unknown one)
      has no exam files. */
  function ExamVocabularyFiles(config: Option<seq<(string, PhonicsCategory)>>, series: CertSystem.Series,
                               major: string, minor: Option<string>): (r: seq<string>)
    ensures series in {CertSystem.Academic, CertSystem.OtherSeries} ==> r == []
    ensures series == CertSystem.Phonics ==> r == PhonicsExamFiles(config, major, minor)
    ensures series == CertSystem.PrimaryGrades ==> r == GradeExamFiles(major, minor)
    ensures series == CertSystem.Extracurricular ==> r == ExtracurricularExamFiles(major, minor)
  {
    match series
    case Phonics => PhonicsExamFiles(config, major, minor)
    case PrimaryGrades => GradeExamFiles(major, minor)
    case Extracurricular => ExtracurricularExamFiles(major, minor)
    case _ => []
  }

  /** Every primary-grade exam has files to load. */
  lemma GradeExamsHaveFiles(config: Option<seq<(string, PhonicsCategory)>>, major: string, minor: Option<string>)
    ensures |ExamVocabularyFiles(config, CertSystem.PrimaryGrades, major, minor)| >= 4
  {
  }

  // ---------------------------------------------------------------------
  // Loading words from the files

  /** One word as stored in a word file: `phonetic` and `meaning` may be
      missing, `difficulty` may be missing or zero. */
  datatype RawExamWord = RawExamWord(word: string, phonetic: Option<string>, meaning: Option<string>, difficulty: Option<int>)

  /** One word of the exam, tagged with the file it came from. */
  datatype ExamWord = ExamWord(word: string, phonetic: string, meaning: string, difficulty: int, source: string)

  /** `w.phonetic || ''`, `w.meaning || ''`, `w.difficulty || 1`. */
  function ToExamWord(w: RawExamWord, path: string): (r: ExamWord)
    ensures r.word == w.word && r.source == path
    ensures r.difficulty != 0
    ensures w.difficulty.Some? && w.difficulty.value != 0 ==> r.difficulty == w.difficulty.value
    ensures w.phonetic.Some? ==> r.phonetic == w.phonetic.value
  {
    ExamWord(w.word, w.phonetic.GetOr(""), w.meaning.GetOr(""),
             if w.difficulty.Some? && w.difficulty.value != 0 then w.difficulty.value else 1, path)
  }

  function FileWords(ws: seq<RawExamWord>, path: string): (r: seq<ExamWord>)
    ensures |r| == |ws|
    ensures forall i :: 0 <= i < |r| ==> r[i] == ToExamWord(ws[i], path)
  {
    if |ws| == 0 then [] else [ToExamWord(ws[0], path)] + FileWords(ws[1..], path)
  }

  /** `loadWordsFromFiles`. `fetched(path)` is the `words` array of the
      file, or `None` when the request fails, the file is not JSON or it
      has no `words` array; such a file contributes nothing. Files are
      concatenated in list order. */
  function LoadWordsFromFiles(files: seq<string>, fetched: string -> Option<seq<RawExamWord>>): (r: seq<ExamWord>)
    ensures forall i :: 0 <= i < |r| ==> r[i].source in files
    decreases |files|
  {
    if |files| == 0 then []
    else
      var here := if fetched(files[0]).Some? then FileWords(fetched(files[0]).value, files[0]) else [];
      here + LoadWordsFromFiles(files[1..], fetched)
  }

  /** Loading a concatenation of file lists is loading each list in turn. */
  lemma {:induction false} LoadWordsAppend(a: seq<string>, b: seq<string>, fetched: string -> Option<seq<RawExamWord>>)
    ensures LoadWordsFromFiles(a + b, fetched) == LoadWordsFromFiles(a, fetched) + LoadWordsFromFiles(b, fetched)
    decreases |a|
  {
    if |a| == 0 {
      assert a + b == b;
    } else {
      assert (a + b)[0] == a[0];
      assert (a + b)[1..] == a[1..] + b;
      LoadWordsAppend(a[1..], b, fetched);
    }
  }

  // ---------------------------------------------------------------------
  // De-duplication and the exam size

  function ExamWordKey(w: ExamWord): string {
    Lower(w.word)
  }

  /** `_deduplicateWords`: the first word of each lower-cased spelling, in
      order. */
  function DeduplicateWords(words: seq<ExamWord>): (r: seq<ExamWord>)
    ensures |r| <= |words|
    ensures DistinctKeys(r, ExamWordKey)
    ensures KeySet(r, ExamWordKey) == KeySet(words, ExamWordKey)
    ensures forall w :: w in r ==> w in words
  {
    KeepFirst(words, ExamWordKey, {})
  }

  /** Each kept word is the first word of its spelling in the loaded
      list, and de-duplicating twice changes nothing. */
  lemma DeduplicateKeepsFirst(words: seq<ExamWord>)
    ensures forall x :: x in DeduplicateWords(words) ==>
              exists j :: IsFirstOccurrence(words, ExamWordKey, {}, j) && words[j] == x
    ensures DeduplicateWords(DeduplicateWords(words)) == DeduplicateWords(words)
  {
    KeptAreFirst(words, ExamWordKey, {});
    KeepFirstIdempotent(words, ExamWordKey);
  }

  /** The random reordering `sort(() => Math.random() - 0.5)`, drawn as a
      sequence of swaps: some arrangement of the same words. */
  predicate ValidDraws(choose: nat -> nat, n: nat) {
    forall k :: 0 < k < n ==> choose(k) <= k
  }

  /** `_applyWordCountLimit`: only a list longer than the target is
      reordered and cut to the target. */
  function ApplyWordCountLimit(words: seq<ExamWord>, target: nat, choose: nat -> nat): (r: seq<ExamWord>)
    requires ValidDraws(choose, |words|)
    ensures |words| <= target ==> r == words
    ensures |r| == Min(|words|, target)
    ensures multiset(r) <= multiset(words)
  {
    if |words| > target then
      var shuffled := WordPool.Shuffle(words, choose);
      assert shuffled == shuffled[..target] + shuffled[target..];
      shuffled[..target]
    else words
  }

  /** The cut in `loadExamVocabulary`: a target of 0, or one at least the
      list's size, keeps every word; otherwise exactly the first `target`
      words of the reordered list. */
  function SelectExamWords(unique: seq<ExamWord>, target: nat, choose: nat -> nat): (r: seq<ExamWord>)
    requires ValidDraws(choose, |unique|)
    ensures target == 0 || target >= |unique| ==> multiset(r) == multiset(unique)
    ensures |r| == if target == 0 then |unique| else Min(target, |unique|)
    ensures multiset(r) <= multiset(unique)
  {
    var shuffled := WordPool.Shuffle(unique, choose);
    if target == 0 || target >= |shuffled| then shuffled
    else
      assert shuffled == shuffled[..target] + shuffled[target..];
      shuffled[..target]
  }

  /** The words an exam uses are drawn from the loaded words, no two spelt
      alike. */
  lemma SelectedWordsAreDistinct(words: seq<ExamWord>, target: nat, choose: nat -> nat)
    requires ValidDraws(choose, |DeduplicateWords(words)|)
    ensures var r := SelectExamWords(DeduplicateWords(words), target, choose);
            DistinctKeys(r, ExamWordKey) && forall w :: w in r ==> w in words
  {
    var u := DeduplicateWords(words);
    var r := SelectExamWords(u, target, choose);
    forall w | w in r ensures w in u {
      assert w in multiset(r);
    }
    forall i, j | 0 <= i < j < |r| ensures ExamWordKey(r[i]) != ExamWordKey(r[j]) {
      MultisetPairIn(r, u, i, j);
      var a, b :| 0 <= a < |u| && 0 <= b < |u| && a != b && u[a] == r[i] && u[b] == r[j];
    }
  }

  /** Two positions of a sub-multiset sit at two distinct positions of the
      larger sequence. */
  lemma MultisetPairIn<T>(r: seq<T>, u: seq<T>, i: nat, j: nat)
    requires multiset(r) <= multiset(u)
    requires i < j < |r|
    ensures exists a, b :: 0 <= a < |u| && 0 <= b < |u| && a != b && u[a] == r[i] && u[b] == r[j]
  {
    if r[i] == r[j] {
      TwiceInMultiset(r, i, j);
      assert multiset(u)[r[i]] >= 2;
      var a :| 0 <= a < |u| && u[a] == r[i];
      var b := SecondIndex(u, r[i], a);
    } else {
      assert r[i] in multiset(u) && r[j] in multiset(u);
      var a :| 0 <= a < |u| && u[a] == r[i];
      var b :| 0 <= b < |u| && u[b] == r[j];
    }
  }

  lemma TwiceInMultiset<T>(r: seq<T>, i: nat, j: nat)
    requires i < j < |r| && r[i] == r[j]
    ensures multiset(r)[r[i]] >= 2
  {
    var x := r[i];
    assert r == r[..j] + r[j..];
    assert r[..j][i] == x;
    assert r[j..][0] == x;
    assert multiset(r[..j])[x] >= 1 && multiset(r[j..])[x] >= 1;
  }

  /** An element that occurs at least twice occurs somewhere other than
      position `a`. */
  lemma SecondIndex<T>(u: seq<T>, x: T, a: nat) returns (b: nat)
    requires a < |u| && u[a] == x && multiset(u)[x] >= 2
    ensures b < |u| && b != a && u[b] == x
  {
    var rest := u[..a] + u[a + 1..];
    assert u == u[..a] + [u[a]] + u[a + 1..];
    assert multiset(rest)[x] >= 1;
    assert x in rest;
    var k :| 0 <= k < |rest| && rest[k] == x;
    if k < a {
      b := k;
    } else {
      b := k + 1;
      assert u[b] == rest[k];
    }
  }

  // ---------------------------------------------------------------------
  // The exam word list and its backup

  /** The vocabulary manager's word list and the copy set aside when the
      first exam of a session loaded its words. */
  datatype ExamVocabulary = ExamVocabulary(allWords: seq<ExamWord>, original: Option<seq<ExamWord>>)

  /** `loadExamVocabulary` as written: note the fallback after a failed
      load cuts to `target` even when the target is 0 ("all words"). */
  function LoadExamVocabularyAsWritten(v: ExamVocabulary, target: nat, files: seq<string>,
                                       loaded: seq<ExamWord>, choose: nat -> nat): (r: ExamVocabulary)
    requires ValidDraws(choose, |v.allWords|) && ValidDraws(choose, |loaded|)
    ensures r.original == if v.original.None? then Some(v.allWords) else v.original
  {
    var backup := if v.original.None? then Some(v.allWords) else v.original;
    if |files| == 0 then
      ExamVocabulary(if target != 0 then ApplyWordCountLimit(v.allWords, target, choose) else v.allWords, backup)
    else if |loaded| == 0 then
      ExamVocabulary(ApplyWordCountLimit(v.allWords, target, choose), backup)
    else
      var u := DeduplicateWords(loaded);
      ExamVocabulary(SelectExamWords(u, target, choose), backup)
  }

  /** Every exam asks for all its words (a target of 0); if its files
      yield no words at all, the written fallback empties the word list. */
  lemma FailedLoadEmptiesVocabulary(v: ExamVocabulary, files: seq<string>, choose: nat -> nat)
    requires ValidDraws(choose, |v.allWords|)
    requires |files| > 0
    ensures LoadExamVocabularyAsWritten(v, 0, files, [], choose).allWords == []
  {
  }

  /** `loadExamVocabulary` with the fallback guarded the same way in both
      branches: the current list is kept when the exam wants all words. */
  function LoadExamVocabulary(v: ExamVocabulary, target: nat, files: seq<string>,
                              loaded: seq<ExamWord>, choose: nat -> nat): (r: ExamVocabulary)
    requires ValidDraws(choose, |v.allWords|) && ValidDraws(choose, |loaded|)
    ensures r.original == if v.original.None? then Some(v.allWords) else v.original
    ensures |files| > 0 && |loaded| > 0 ==>
              DistinctKeys(r.allWords, ExamWordKey) && (forall w :: w in r.allWords ==> w in loaded)
              && KeySet(r.allWords, ExamWordKey) <= KeySet(loaded, ExamWordKey)
    ensures (|files| == 0 || |loaded| == 0) ==> multiset(r.allWords) <= multiset(v.allWords)
    ensures (|files| == 0 || |loaded| == 0) && target == 0 ==> r.allWords == v.allWords
  {
    var backup := if v.original.None? then Some(v.allWords) else v.original;
    if |files| == 0 || |loaded| == 0 then
      ExamVocabulary(if target != 0 then ApplyWordCountLimit(v.allWords, target, choose) else v.allWords, backup)
    else
      var u := DeduplicateWords(loaded);
      assert |u| <= |loaded|;
      SelectedWordsAreDistinct(loaded, target, choose);
      var r := SelectExamWords(u, target, choose);
      forall y | y in KeySet(r, ExamWordKey) ensures y in KeySet(loaded, ExamWordKey) {
        var i :| 0 <= i < |r| && ExamWordKey(r[i]) == y;
        assert r[i] in loaded;
        var j :| 0 <= j < |loaded| && loaded[j] == r[i];
      }
      ExamVocabulary(r, backup)
  }

  /** A full exam with words to load uses every distinct spelling among
      them, each once. */
  lemma FullExamUsesEverySpelling(v: ExamVocabulary, files: seq<string>, loaded: seq<ExamWord>, choose: nat -> nat)
    requires ValidDraws(choose, |v.allWords|) && ValidDraws(choose, |loaded|)
    requires |files| > 0 && |loaded| > 0
    ensures KeySet(LoadExamVocabulary(v, 0, files, loaded, choose).allWords, ExamWordKey) == KeySet(loaded, ExamWordKey)
  {
    var u := DeduplicateWords(loaded);
    var r := LoadExamVocabulary(v, 0, files, loaded, choose).allWords;
    assert multiset(r) == multiset(u);
    forall y | y in KeySet(u, ExamWordKey) ensures y in KeySet(r, ExamWordKey) {
      var i :| 0 <= i < |u| && ExamWordKey(u[i]) == y;
      assert u[i] in multiset(r);
      var j :| 0 <= j < |r| && r[j] == u[i];
    }
  }

  /** `restoreOriginalVocabulary`: put the backed-up list back and forget
      the backup. */
  function RestoreOriginalVocabulary(v: ExamVocabulary): (r: ExamVocabulary)
    ensures r.original.None?
    ensures v.original.None? ==> r == v
    ensures v.original.Some? ==> r.allWords == v.original.value
  {
    if v.original.Some? then ExamVocabulary(v.original.value, None) else v
  }

  /** However many exams are loaded before the exam ends (a retry loads
      again), restoring brings back the list from before the first one. */
  lemma RestoreUndoesLoads(v: ExamVocabulary, t1: nat, f1: seq<string>, l1: seq<ExamWord>,
                           t2: nat, f2: seq<string>, l2: seq<ExamWord>, choose: nat -> nat)
    requires v.original.None?
    requires ValidDraws(choose, |v.allWords|) && ValidDraws(choose, |l1|) && ValidDraws(choose, |l2|)
    requires ValidDraws(choose, |LoadExamVocabulary(v, t1, f1, l1, choose).allWords|)
    ensures var once := LoadExamVocabulary(v, t1, f1, l1, choose);
            var twice := LoadExamVocabulary(once, t2, f2, l2, choose);
            RestoreOriginalVocabulary(once) == ExamVocabulary(v.allWords, None)
            && RestoreOriginalVocabulary(twice) == ExamVocabulary(v.allWords, None)
  {
  }

  // ---------------------------------------------------------------------
  // Correct rate

  /** The counts `getExamCorrectRate` reads: the sizes of the game's hit
      and fallen word sets. */
  datatype ExamCounts = ExamCounts(hit: nat, fallen: nat)

  /** `getExamCorrectRate`: no game gives 0; otherwise the percentage of
      fallen words that were hit, 0 when nothing has fallen. */
  function ExamCorrectRate(game: Option<ExamCounts>): (r: nat)
    ensures game.None? || game.value.fallen == 0 ==> r == 0
    ensures game.Some? && game.value.fallen > 0 ==>
              (2 * r - 1) * game.value.fallen <= 200 * game.value.hit < (2 * r + 1) * game.value.fallen
  {
    if game.None? then 0 else Percent(game.value.hit, game.value.fallen)
  }

  /** With no more hits than fallen words the rate is a percentage, and the
      exam is passed (rate at least 90) exactly when at least 89.5% of the
      fallen words were hit. */
  lemma CorrectRateIsPercentage(c: ExamCounts)
    requires c.fallen > 0
    ensures c.hit <= c.fallen ==> ExamCorrectRate(Some(c)) <= 100
    ensures ExamCorrectRate(Some(c)) >= CertSystem.PassThreshold <==> 200 * c.hit >= 179 * c.fallen
  {
    PercentBounds(c.hit, c.fallen, 90);
  }
}
