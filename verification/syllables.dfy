/** Stress highlighting of the current manager: `getStressPositions` maps
    each stress mark of the phonetic transcription to a vowel of the word
    and widens it to its syllable with `getWholeSyllable`, falling back to
    `findNearestVowel` when the given position is not a vowel. */
module Syllables {
  import opened Wrappers
  import opened Text
  import opened Ordering
  import opened Masking

  /** The vowels the syllable rules look for (lower case only). */
  predicate IsVowel(c: char) {
    c in "aeiou"
  }

  predicate IsConsonant(c: char) {
    !IsVowel(c)
  }

  /** The vowels `findNearestVowel` looks for. */
  predicate IsAnyVowel(c: char) {
    c in "aeiouAEIOU"
  }

  /** The first position from `i` on whose character satisfies `p`. */
  function FirstFrom(word: string, i: nat, p: char -> bool): (r: Option<nat>)
    ensures r.Some? ==> i <= r.value < |word| && p(word[r.value])
    ensures r.Some? ==> forall j :: i <= j < r.value ==> !p(word[j])
    ensures r.None? ==> forall j :: i <= j < |word| ==> !p(word[j])
    decreases |word| - i
  {
    if i >= |word| then None
    else if p(word[i]) then Some(i)
    else FirstFrom(word, i + 1, p)
  }

  /** The last position before `i` whose character satisfies `p`. */
  function LastBefore(word: string, i: nat, p: char -> bool): (r: Option<nat>)
    requires i <= |word|
    ensures r.Some? ==> r.value < i && p(word[r.value])
    ensures r.Some? ==> forall j :: r.value < j < i ==> !p(word[j])
    ensures r.None? ==> forall j :: 0 <= j < i ==> !p(word[j])
    decreases i
  {
    if i == 0 then None
    else if p(word[i - 1]) then Some(i - 1)
    else LastBefore(word, i - 1, p)
  }

  /** `findNearestVowel`: scan right from `start`, then left; -1 when the
      word has no vowel at all. */
  function NearestVowel(word: string, start: nat): (r: int)
    ensures r == -1 <==> forall i :: 0 <= i < |word| ==> !IsAnyVowel(word[i])
    ensures r != -1 ==> 0 <= r < |word| && IsAnyVowel(word[r])
    ensures r >= start ==> forall i :: start <= i < r ==> !IsAnyVowel(word[i])
    ensures -1 < r < start ==> forall i :: r < i < |word| ==> !IsAnyVowel(word[i])
  {
    match FirstFrom(word, start, IsAnyVowel)
    case Some(i) => i
    case None =>
      match LastBefore(word, Min(start, |word|), IsAnyVowel)
      case Some(i) => i
      case None => -1
  }

  /** The positions `lo` to `hi`, both included. */
  function Interval(lo: nat, hi: nat): (r: seq<nat>)
    requires lo <= hi + 1
    ensures |r| == hi + 1 - lo
    ensures forall k :: 0 <= k < |r| ==> r[k] == lo + k
  {
    seq(hi + 1 - lo, k requires 0 <= k < hi + 1 - lo => lo + k)
  }

  /** The last position of the vowel run that starts at `c`. */
  function RunEnd(word: string, c: nat): (r: nat)
    requires c < |word|
    ensures c <= r < |word|
    ensures forall j :: c < j <= r ==> IsVowel(word[j])
    ensures r == |word| - 1 || IsConsonant(word[r + 1])
  {
    match FirstFrom(word, c + 1, IsConsonant)
    case None => |word| - 1
    case Some(j) => j - 1
  }

  /** Where the syllable of the vowel at `c` starts: every consonant before
      it when no vowel precedes, else the later half (rounded up) of the
      consonants since the previous vowel. */
  function SyllableStart(word: string, c: nat): (left: nat)
    requires c < |word|
    ensures left <= c
    ensures forall j :: left <= j < c ==> IsConsonant(word[j])
    ensures LastBefore(word, c, IsVowel).None? ==> left == 0
    ensures LastBefore(word, c, IsVowel).Some? ==> LastBefore(word, c, IsVowel).value < left
  {
    match LastBefore(word, c, IsVowel)
    case None => 0
    case Some(t) =>
      var consonants := c - 1 - t;
      c - (consonants + 1) / 2
  }

  /** Where it ends: after the vowel run, and after the trailing consonants
      too when no vowel follows them. */
  function SyllableEnd(word: string, c: nat): (right: nat)
    requires c < |word|
    ensures c <= right < |word|
    ensures right == RunEnd(word, c) || right == |word| - 1
    ensures FirstFrom(word, RunEnd(word, c) + 1, IsVowel).Some? ==> right == RunEnd(word, c)
    ensures FirstFrom(word, RunEnd(word, c) + 1, IsVowel).None? ==> right == |word| - 1
  {
    var run := RunEnd(word, c);
    match FirstFrom(word, run + 1, IsVowel)
    case Some(_) => run
    case None => |word| - 1
  }

  /** `getWholeSyllable`. */
  function WholeSyllable(word: string, idx: nat): (r: seq<nat>)
    ensures InRange(r, |word|)
    ensures forall k :: 0 < k < |r| ==> r[k] == r[k - 1] + 1
    ensures |word| > 0 ==> |r| > 0
    ensures (forall i :: 0 <= i < |word| ==> !IsAnyVowel(word[i])) ==> r == Range(|word|)
    ensures idx < |word| && IsVowel(word[idx]) ==> idx in r
  {
    var c := if idx < |word| && IsVowel(word[idx]) then idx else NearestVowel(word, idx);
    if c == -1 then Range(|word|)
    else
      var r := Interval(SyllableStart(word, c), SyllableEnd(word, c));
      assert r[c - SyllableStart(word, c)] == c;
      r
  }

  /** A syllable is built around its vowel: every letter before the vowel
      is a consonant, and it ends either at the end of the word or right
      before a consonant that another vowel comes after. */
  lemma SyllableShape(word: string, idx: nat)
    requires idx < |word| && IsVowel(word[idx])
    ensures var r := WholeSyllable(word, idx);
            && (forall k :: 0 <= k < |r| && r[k] < idx ==> IsConsonant(word[r[k]]))
            && (r[|r| - 1] == |word| - 1
                || (IsConsonant(word[r[|r| - 1] + 1]) && exists j :: r[|r| - 1] < j < |word| && IsVowel(word[j])))
  {
    var r := WholeSyllable(word, idx);
    assert r == Interval(SyllableStart(word, idx), SyllableEnd(word, idx));
  }

  /** Two vowels separated by a consonant get syllables that do not
      overlap: the earlier syllable ends before the later one starts. */
  lemma SyllablesDoNotOverlap(word: string, a: nat, b: nat, k: nat)
    requires a < k < b < |word|
    requires IsVowel(word[a]) && IsVowel(word[b]) && IsConsonant(word[k])
    ensures var x := WholeSyllable(word, a);
            var y := WholeSyllable(word, b);
            x[|x| - 1] < y[0]
  {
    var x := WholeSyllable(word, a);
    var y := WholeSyllable(word, b);
    assert x == Interval(SyllableStart(word, a), SyllableEnd(word, a));
    assert y == Interval(SyllableStart(word, b), SyllableEnd(word, b));
    var run := RunEnd(word, a);
    assert run < k;
    var t := LastBefore(word, b, IsVowel).value;
    assert a <= t;
    if k <= t {
      assert run < t;
    } else {
      assert IsConsonant(word[t + 1]);
      assert run <= t;
    }
  }

  // ---------------------------------------------------------------------
  // Stress marks

  const PrimaryStress: char := '\U{02C8}'
  const SecondaryStress: char := '\U{02CC}'

  /** The character class `[əæɑɒɔɪiːɜɛeʊuːʌɔːaʊ]` of the syllable count. */
  predicate IsPhoneticVowel(c: char) {
    c in "\U{0259}\U{00E6}\U{0251}\U{0252}\U{0254}\U{026A}i\U{02D0}\U{025C}\U{025B}e\U{028A}u\U{028C}a"
  }

  /** The positions of `s` whose character satisfies `p`, ascending. */
  function Positions(s: string, p: char -> bool, from: nat): (r: seq<nat>)
    ensures forall i :: i in r <==> from <= i < |s| && p(s[i])
    ensures forall k :: 0 <= k < |r| ==> from <= r[k] < |s|
    ensures Ascending(r)
    decreases |s| - from
  {
    if from >= |s| then []
    else
      var rest := Positions(s, p, from + 1);
      if p(s[from]) then [from] + rest else rest
  }

  predicate IsStressMark(c: char) {
    c == PrimaryStress || c == SecondaryStress
  }

  predicate IsPrimaryStress(c: char) {
    c == PrimaryStress
  }

  /** The marks that are mapped: the primary ones when there are any, else
      every mark. */
  function MarksToProcess(phonetic: string): (r: seq<nat>)
    ensures forall k :: 0 <= k < |r| ==> r[k] < |phonetic| && IsStressMark(phonetic[r[k]])
    ensures |r| == 0 <==> forall i :: 0 <= i < |phonetic| ==> !IsStressMark(phonetic[i])
    ensures (exists i :: 0 <= i < |phonetic| && phonetic[i] == PrimaryStress) ==>
              forall k :: 0 <= k < |r| ==> phonetic[r[k]] == PrimaryStress
  {
    var primary := Positions(phonetic, IsPrimaryStress, 0);
    var all := Positions(phonetic, IsStressMark, 0);
    if |primary| > 0 then
      assert primary[0] in primary;
      primary
    else
      assert forall i :: 0 <= i < |phonetic| && IsStressMark(phonetic[i]) ==> i in all;
      all
  }

  /** The number of maximal runs of phonetic vowels in `s`: the matches of
      the global regular expression. */
  function VowelRuns(s: string): (n: nat)
    ensures n <= |s|
    decreases |s|
  {
    if |s| == 0 then 0
    else
      var starts := IsPhoneticVowel(s[|s| - 1]) && (|s| == 1 || !IsPhoneticVowel(s[|s| - 2]));
      VowelRuns(s[..|s| - 1]) + (if starts then 1 else 0)
  }

  /** A longer prefix never has fewer runs. */
  lemma {:induction false} VowelRunsMonotone(s: string, i: nat, j: nat)
    requires i <= j <= |s|
    ensures VowelRuns(s[..i]) <= VowelRuns(s[..j])
    decreases j - i
  {
    if i < j {
      VowelRunsMonotone(s, i, j - 1);
      VowelRunsGrow(s[..j]);
      assert s[..j][..j - 1] == s[..j - 1];
    }
  }

  lemma VowelRunsGrow(t: string)
    requires |t| > 0
    ensures VowelRuns(t[..|t| - 1]) <= VowelRuns(t)
  {
  }

  /** The number of vowels in `s`. */
  function VowelCount(s: string): (n: nat)
    ensures n <= |s|
    decreases |s|
  {
    if |s| == 0 then 0
    else VowelCount(s[..|s| - 1]) + (if IsVowel(s[|s| - 1]) then 1 else 0)
  }

  lemma {:induction false} VowelCountMonotone(s: string, i: nat, j: nat)
    requires i <= j <= |s|
    ensures VowelCount(s[..i]) <= VowelCount(s[..j])
    ensures i < j && IsVowel(s[i]) ==> VowelCount(s[..i]) < VowelCount(s[..j])
    decreases j - i
  {
    if i < j {
      VowelCountMonotone(s, i, j - 1);
      assert s[..j][..j - 1] == s[..j - 1];
      if i == j - 1 && IsVowel(s[i]) {
        assert s[..j][j - 1] == s[i];
      }
    }
  }

  /** The position of the vowel with `n` vowels before it. */
  function NthVowel(word: string, n: nat, from: nat): (r: Option<nat>)
    requires from <= |word| && VowelCount(word[..from]) <= n
    ensures r.Some? ==> from <= r.value < |word| && IsVowel(word[r.value]) && VowelCount(word[..r.value]) == n
    ensures r.None? <==> VowelCount(word) <= n
    decreases |word| - from
  {
    if from == |word| then
      assert word[..from] == word;
      None
    else
      assert word[..from + 1][..from] == word[..from];
      if IsVowel(word[from]) && VowelCount(word[..from]) == n then
        VowelCountMonotone(word, from, |word|);
        assert word[..|word|] == word;
        Some(from)
      else
        NthVowel(word, n, from + 1)
  }

  /** A later stress mark never lands on an earlier vowel. */
  lemma LaterMarkLaterVowel(word: string, phonetic: string, m1: nat, m2: nat)
    requires m1 <= m2 <= |phonetic|
    requires NthVowel(word, VowelRuns(phonetic[..m1]), 0).Some? && NthVowel(word, VowelRuns(phonetic[..m2]), 0).Some?
    ensures NthVowel(word, VowelRuns(phonetic[..m1]), 0).value <= NthVowel(word, VowelRuns(phonetic[..m2]), 0).value
  {
    VowelRunsMonotone(phonetic, m1, m2);
    var p := NthVowel(word, VowelRuns(phonetic[..m1]), 0).value;
    var q := NthVowel(word, VowelRuns(phonetic[..m2]), 0).value;
    if q < p {
      VowelCountMonotone(word, q, p);
    }
  }

  /** The letters one stress mark highlights: the syllable of the vowel
      that has as many vowels before it as the transcription has vowel
      groups before the mark; nothing if the word has too few vowels. */
  function MarkSyllable(word: string, phonetic: string, m: nat): (r: seq<nat>)
    requires m <= |phonetic|
    ensures InRange(r, |word|)
  {
    match NthVowel(word, VowelRuns(phonetic[..m]), 0)
    case None => []
    case Some(i) => WholeSyllable(word, i)
  }

  /** The accumulation loop: append each syllable position not seen yet. */
  function AddNew(acc: seq<nat>, ps: seq<nat>): (r: seq<nat>)
    requires Distinct(acc)
    ensures Distinct(r) && acc <= r
    ensures forall p :: p in r <==> p in acc || p in ps
    decreases |ps|
  {
    if |ps| == 0 then acc
    else if ps[0] in acc then AddNew(acc, ps[1..])
    else AddNew(acc + [ps[0]], ps[1..])
  }

  function Collect(word: string, phonetic: string, marks: seq<nat>, acc: seq<nat>): (r: seq<nat>)
    requires Distinct(acc) && InRange(acc, |word|)
    requires forall k :: 0 <= k < |marks| ==> marks[k] <= |phonetic|
    ensures Distinct(r) && InRange(r, |word|)
    ensures forall p :: p in r <==> p in acc || exists k :: 0 <= k < |marks| && p in MarkSyllable(word, phonetic, marks[k])
    decreases |marks|
  {
    if |marks| == 0 then acc
    else
      var ms := MarkSyllable(word, phonetic, marks[0]);
      var next := AddNew(acc, ms);
      assert InRange(next, |word|) by {
        forall k | 0 <= k < |next| ensures 0 <= next[k] < |word| {
          assert next[k] in acc || next[k] in ms;
        }
      }
      var r := Collect(word, phonetic, marks[1..], next);
      assert forall k :: 0 < k < |marks| ==> marks[k] == marks[1..][k - 1];
      r
  }

  /** `getStressPositions`: nothing without a word, a transcription or a
      stress mark; otherwise the letters of the stressed syllables, each
      once, in ascending order. */
  function StressPositions(word: string, phonetic: string): (r: seq<nat>)
    ensures |word| == 0 || |phonetic| == 0 || (forall i :: 0 <= i < |phonetic| ==> !IsStressMark(phonetic[i])) ==> r == []
    ensures Ascending(r) && InRange(r, |word|)
    ensures |word| > 0 ==> forall p :: p in r <==>
              exists m :: m in MarksToProcess(phonetic) && p in MarkSyllable(Lower(word), phonetic, m)
  {
    if |word| == 0 || |phonetic| == 0 then []
    else
      var lower := Lower(word);
      var marks := MarksToProcess(phonetic);
      if |marks| == 0 then []
      else
        CollectedMembers(lower, phonetic, marks);
        SortIndices(Collect(lower, phonetic, marks, []))
  }

  /** Sorting the collected positions keeps exactly the positions of the
      marks' syllables. */
  lemma CollectedMembers(word: string, phonetic: string, marks: seq<nat>)
    requires forall k :: 0 <= k < |marks| ==> marks[k] <= |phonetic|
    ensures forall p :: p in SortIndices(Collect(word, phonetic, marks, [])) <==>
              exists m :: m in marks && p in MarkSyllable(word, phonetic, m)
    ensures InRange(SortIndices(Collect(word, phonetic, marks, [])), |word|)
  {
    var found := Collect(word, phonetic, marks, []);
    var r := SortIndices(found);
    SameElements(found, r);
    forall k | 0 <= k < |r| ensures 0 <= r[k] < |word| {
      assert r[k] in found;
    }
    forall p ensures p in found <==> exists m :: m in marks && p in MarkSyllable(word, phonetic, m) {
      if p in found {
        var k :| 0 <= k < |marks| && p in MarkSyllable(word, phonetic, marks[k]);
        assert marks[k] in marks;
      }
    }
  }

  /** Two orderings of the same multiset hold the same elements. */
  lemma SameElements(a: seq<nat>, b: seq<nat>)
    requires multiset(a) == multiset(b)
    ensures forall p :: p in a <==> p in b
  {
    forall p ensures p in a <==> p in b {
      assert p in a <==> p in multiset(a);
      assert p in b <==> p in multiset(b);
    }
  }

  /** "banana" transcribed [bəˈnɑːnə] stresses "na": one vowel group
      precedes the mark, so the second vowel is stressed, and its syllable
      takes the single consonant before it. */
  lemma BananaStress()
    ensures WholeSyllable("banana", 3) == [2, 3]
  {
    var w := "banana";
    assert LastBefore(w, 3, IsVowel) == Some(1);
    assert FirstFrom(w, 4, IsConsonant) == Some(4);
    assert RunEnd(w, 3) == 3;
    assert FirstFrom(w, 4, IsVowel) == Some(5);
    assert SyllableStart(w, 3) == 2;
    assert SyllableEnd(w, 3) == 3;
  }
}
