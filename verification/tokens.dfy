/** The two word regular expressions of the Python tools and the
    left-to-right, non-overlapping search (`re.findall`) over free text.

    `[A-Za-z]+(?:[-'][A-Za-z]+)*` (any number of hyphen/apostrophe joiners)
    is used by proj/tools/scan_words.py and proj/tools/download_word_audio.py;
    `[a-zA-Z]+(?:[-'][a-zA-Z]+)?` (at most one joiner) by
    proj/tools/analyze_words.py. */
module Tokens {
  import opened Text

  predicate IsJoiner(c: char) { c == '-' || c == '\'' }

  /** The word pattern read as an automaton: a letter must come first ... */
  predicate MatchesWord(s: string)
    decreases |s|
  {
    |s| > 0 && IsLetter(s[0]) && MatchesWordRest(s[1..])
  }

  /** ... after which either the input ends, another letter follows, or a
      joiner follows that must itself start a new letter run. */
  predicate MatchesWordRest(s: string)
    decreases |s|
  {
    |s| == 0
    || (IsLetter(s[0]) && MatchesWordRest(s[1..]))
    || (IsJoiner(s[0]) && MatchesWord(s[1..]))
  }

  predicate LettersOrJoiners(s: string) {
    forall i :: 0 <= i < |s| ==> IsLetter(s[i]) || IsJoiner(s[i])
  }

  predicate NoAdjacentJoiners(s: string) {
    forall i :: 0 < i < |s| ==> !(IsJoiner(s[i - 1]) && IsJoiner(s[i]))
  }

  /** A description of the language by its characters: letters and joiners
      only, starting and ending with a letter, no two joiners in a row. */
  predicate WordShape(s: string) {
    |s| > 0 && IsLetter(s[0]) && IsLetter(s[|s| - 1])
    && LettersOrJoiners(s) && NoAdjacentJoiners(s)
  }

  lemma {:induction false} RestShape(s: string)
    ensures MatchesWordRest(s) <==>
            (|s| == 0 || (IsLetter(s[|s| - 1]) && LettersOrJoiners(s) && NoAdjacentJoiners(s)))
    decreases |s|
  {
    if |s| > 0 {
      var t := s[1..];
      RestShape(t);
      if |t| > 0 {
        RestShape(t[1..]);
        assert MatchesWord(t) <==> IsLetter(t[0]) && MatchesWordRest(t[1..]);
      }
      assert forall i :: 0 < i < |t| ==> t[i - 1] == s[i] && t[i] == s[i + 1];
    }
  }

  /** The automaton accepts exactly the strings of that shape. */
  lemma WordShapeMatches(s: string)
    ensures MatchesWord(s) <==> WordShape(s)
  {
    if |s| > 0 {
      RestShape(s[1..]);
      assert forall i :: 0 < i < |s[1..]| ==> s[1..][i - 1] == s[i] && s[1..][i] == s[i + 1];
    }
  }

  /** Number of leading letters. */
  function LetterRun(s: string): (n: nat)
    ensures n <= |s|
    ensures forall i :: 0 <= i < n ==> IsLetter(s[i])
    ensures n == |s| || !IsLetter(s[n])
    decreases |s|
  {
    if |s| > 0 && IsLetter(s[0]) then 1 + LetterRun(s[1..]) else 0
  }

  lemma LettersMatchRest(s: string)
    requires forall i :: 0 <= i < |s| ==> IsLetter(s[i])
    ensures MatchesWordRest(s)
    decreases |s|
  {
    if |s| > 0 {
      LettersMatchRest(s[1..]);
    }
  }

  /** Letters followed by a string accepted after a letter are again
      accepted after a letter. */
  lemma {:induction false} LettersThenRest(s: string, k: nat)
    requires 0 < k <= |s|
    requires forall i :: 0 <= i < k ==> IsLetter(s[i])
    requires MatchesWordRest(s[k..])
    ensures MatchesWordRest(s[1..])
    decreases k
  {
    if k > 1 {
      LettersThenRest(s[1..], k - 1);
      assert s[1..][k - 1..] == s[k..];
      assert MatchesWordRest(s[1..][1..]);
    } else {
      assert s[1..] == s[k..];
    }
  }

  /** Length of the match `re.findall` takes at the start of `s`: the pattern
      is greedy, so it takes every letter and then every joiner that is
      followed by a letter. */
  function MatchLength(s: string): (n: nat)
    requires |s| > 0 && IsLetter(s[0])
    ensures 0 < n <= |s|
    ensures MatchesWord(s[..n])
    ensures n == |s| || !IsLetter(s[n])
    ensures n + 1 < |s| ==> !(IsJoiner(s[n]) && IsLetter(s[n + 1]))
    decreases |s|
  {
    var k := LetterRun(s);
    if k + 1 < |s| && IsJoiner(s[k]) && IsLetter(s[k + 1]) then
      var m := MatchLength(s[k + 1..]);
      var n := k + 1 + m;
      var w := s[..n];
      assert w[k + 1..] == s[k + 1..][..m];
      assert w[k..][1..] == w[k + 1..];
      assert MatchesWordRest(w[k..]);
      assert forall i :: 0 <= i < k ==> w[i] == s[i];
      LettersThenRest(w, k);
      n
    else
      var w := s[..k];
      assert w[1..] == s[1..k];
      LettersMatchRest(w[1..]);
      k
  }

  /** `WORD_PATTERN.findall(text)`: leftmost matches, scanning on from the
      end of each match; characters that cannot start a match are skipped. */
  function FindAll(s: string): (r: seq<string>)
    ensures forall i :: 0 <= i < |r| ==> MatchesWord(r[i])
    decreases |s|
  {
    if |s| == 0 then []
    else if !IsLetter(s[0]) then FindAll(s[1..])
    else
      var n := MatchLength(s);
      [s[..n]] + FindAll(s[n..])
  }

  function LetterCount(s: string): nat
    decreases |s|
  {
    if |s| == 0 then 0 else (if IsLetter(s[0]) then 1 else 0) + LetterCount(s[1..])
  }

  function Concat(parts: seq<string>): string
    decreases |parts|
  {
    if |parts| == 0 then "" else parts[0] + Concat(parts[1..])
  }

  lemma {:induction false} LetterCountAppend(a: string, b: string)
    ensures LetterCount(a + b) == LetterCount(a) + LetterCount(b)
    decreases |a|
  {
    if |a| > 0 {
      assert (a + b)[0] == a[0];
      assert (a + b)[1..] == a[1..] + b;
      LetterCountAppend(a[1..], b);
    } else {
      assert a + b == b;
    }
  }

  /** No letter of the text is lost: every letter lies inside some match,
      since a match never stops just before a letter. */
  lemma {:induction false} FindAllKeepsLetters(s: string)
    ensures LetterCount(Concat(FindAll(s))) == LetterCount(s)
    decreases |s|
  {
    if |s| > 0 {
      if !IsLetter(s[0]) {
        FindAllKeepsLetters(s[1..]);
      } else {
        var n := MatchLength(s);
        FindAllKeepsLetters(s[n..]);
        assert FindAll(s) == [s[..n]] + FindAll(s[n..]);
        assert Concat(FindAll(s)) == s[..n] + Concat(FindAll(s[n..]));
        LetterCountAppend(s[..n], Concat(FindAll(s[n..])));
        LetterCountAppend(s[..n], s[n..]);
        assert s[..n] + s[n..] == s;
      }
    }
  }

  // ----- the one-joiner pattern of proj/tools/analyze_words.py -----

  predicate IsLetters(s: string) {
    |s| > 0 && forall i :: 0 <= i < |s| ==> IsLetter(s[i])
  }

  /** `[a-zA-Z]+(?:[-'][a-zA-Z]+)?`. */
  predicate MatchesShortWord(s: string) {
    IsLetters(s)
    || exists k :: 0 < k < |s| - 1 && IsLetters(s[..k]) && IsJoiner(s[k]) && IsLetters(s[k + 1..])
  }

  /** Every match of the one-joiner pattern also matches the word pattern
      that allows any number of joiners. */
  lemma ShortWordIsWord(s: string)
    requires MatchesShortWord(s)
    ensures MatchesWord(s)
  {
    if !IsLetters(s) {
      var k :| 0 < k < |s| - 1 && IsLetters(s[..k]) && IsJoiner(s[k]) && IsLetters(s[k + 1..]);
      JoinedShape(s, k);
    }
    WordShapeMatches(s);
  }

  lemma JoinedShape(s: string, k: nat)
    requires 0 < k < |s| - 1 && IsLetters(s[..k]) && IsJoiner(s[k]) && IsLetters(s[k + 1..])
    ensures WordShape(s)
  {
    assert forall i :: 0 <= i < k ==> IsLetter(s[i]) by {
      assert forall i :: 0 <= i < k ==> s[..k][i] == s[i];
    }
    assert forall i :: k < i < |s| ==> IsLetter(s[i]) by {
      assert forall i :: k < i < |s| ==> s[k + 1..][i - k - 1] == s[i];
    }
  }

  /** Length of the one-joiner match at the start of `s`. */
  function ShortMatchLength(s: string): (n: nat)
    requires |s| > 0 && IsLetter(s[0])
    ensures 0 < n <= |s|
    ensures MatchesShortWord(s[..n])
    ensures n == |s| || !IsLetter(s[n])
    ensures IsLetters(s[..n]) && n + 1 < |s| ==> !(IsJoiner(s[n]) && IsLetter(s[n + 1]))
  {
    var k := LetterRun(s);
    if k + 1 < |s| && IsJoiner(s[k]) && IsLetter(s[k + 1]) then
      var m := LetterRun(s[k + 1..]);
      var n := k + 1 + m;
      var w := s[..n];
      assert w[..k] == s[..k];
      assert w[k + 1..] == s[k + 1..][..m];
      assert IsLetters(w[..k]) && IsJoiner(w[k]) && IsLetters(w[k + 1..]);
      n
    else
      assert IsLetters(s[..k]);
      k
  }

  /** `re.findall` with the one-joiner pattern. */
  function FindAllShort(s: string): (r: seq<string>)
    ensures forall i :: 0 <= i < |r| ==> MatchesShortWord(r[i])
    decreases |s|
  {
    if |s| == 0 then []
    else if !IsLetter(s[0]) then FindAllShort(s[1..])
    else
      var n := ShortMatchLength(s);
      [s[..n]] + FindAllShort(s[n..])
  }

  // ----- what `findall` returns, described without scanning -----

  /** The text rebuilt from the gaps between matches and the matches:
      `gaps[0] + r[0] + gaps[1] + ... + r[k-1] + gaps[k]`. */
  function Weave(gaps: seq<string>, r: seq<string>): (s: string)
    requires |gaps| == |r| + 1
    decreases |r|
  {
    if |r| == 0 then gaps[0] else gaps[0] + r[0] + Weave(gaps[1..], r[1..])
  }

  predicate NoLetter(g: string) {
    forall i :: 0 <= i < |g| ==> !IsLetter(g[i])
  }

  /** `r` is what a left-to-right search for `fits` returns on `s`: the
      text is letter-free gaps woven with the matches, and `fits(r[i],
      after)` holds of each match and the text after it. Since every match
      starts with a letter and no gap holds one, each match starts at the
      first letter after the previous one. */
  predicate Scans(s: string, gaps: seq<string>, r: seq<string>, fits: (string, string) -> bool) {
    |gaps| == |r| + 1 && s == Weave(gaps, r)
    && (forall i :: 0 <= i < |gaps| ==> NoLetter(gaps[i]))
    && (forall i :: 0 <= i < |r| ==> fits(r[i], Weave(gaps[i + 1..], r[i + 1..])))
  }

  /** A match of the word pattern that the regex engine would not extend:
      neither a letter nor a joiner followed by a letter comes next. */
  predicate WordEnd(m: string, after: string) {
    MatchesWord(m)
    && (|after| == 0 || (!IsLetter(after[0]) && !(|after| > 1 && IsJoiner(after[0]) && IsLetter(after[1]))))
  }

  /** The same for the one-joiner pattern: a match that already holds its
      joiner stops before any non-letter. */
  predicate ShortWordEnd(m: string, after: string) {
    MatchesShortWord(m)
    && (|after| == 0
        || (!IsLetter(after[0]) && (IsLetters(m) ==> !(|after| > 1 && IsJoiner(after[0]) && IsLetter(after[1])))))
  }

  /** A gap grown by one character in front rebuilds the text grown by it. */
  lemma WeaveCons(c: char, gaps: seq<string>, r: seq<string>)
    requires |gaps| == |r| + 1
    ensures Weave([[c] + gaps[0]] + gaps[1..], r) == [c] + Weave(gaps, r)
  {
    var g := [[c] + gaps[0]] + gaps[1..];
    assert g[1..] == gaps[1..];
  }

  /** Moving the first character out of the first gap keeps a scan. */
  lemma ScansCons(c: char, gaps: seq<string>, r: seq<string>, fits: (string, string) -> bool)
    requires !IsLetter(c) && |gaps| == |r| + 1
    requires Scans(Weave(gaps, r), gaps, r, fits)
    ensures Scans([c] + Weave(gaps, r), [[c] + gaps[0]] + gaps[1..], r, fits)
  {
    var g := [[c] + gaps[0]] + gaps[1..];
    WeaveCons(c, gaps, r);
    forall i | 0 <= i < |r| ensures fits(r[i], Weave(g[i + 1..], r[i + 1..])) {
      assert g[i + 1..] == gaps[i + 1..];
    }
    assert NoLetter(g[0]) by {
      assert forall i :: 0 < i < |g[0]| ==> g[0][i] == gaps[0][i - 1];
    }
  }

  /** A match in front of the text, with an empty gap before it. */
  lemma WeaveMatch(m: string, gaps: seq<string>, r: seq<string>)
    requires |gaps| == |r| + 1
    ensures Weave([""] + gaps, [m] + r) == m + Weave(gaps, r)
  {
    var g := [""] + gaps;
    var q := [m] + r;
    assert g[1..] == gaps && q[1..] == r;
    assert "" + m == m;
  }

  /** A match in front of a scan, with an empty first gap, is a scan. */
  lemma ScansMatch(m: string, gaps: seq<string>, r: seq<string>, fits: (string, string) -> bool)
    requires |gaps| == |r| + 1
    requires fits(m, Weave(gaps, r))
    requires Scans(Weave(gaps, r), gaps, r, fits)
    ensures Scans(m + Weave(gaps, r), [""] + gaps, [m] + r, fits)
  {
    var g := [""] + gaps;
    var q := [m] + r;
    WeaveMatch(m, gaps, r);
    forall i | 0 <= i < |g| ensures NoLetter(g[i]) {
      if i > 0 {
        assert g[i] == gaps[i - 1];
      }
    }
    forall i | 0 <= i < |q| ensures fits(q[i], Weave(g[i + 1..], q[i + 1..])) {
      if i == 0 {
        assert g[1..] == gaps && q[1..] == r;
      } else {
        assert g[i + 1..] == gaps[i..] && q[i + 1..] == r[i..] && q[i] == r[i - 1];
      }
    }
  }

  /** Undoing `ScansCons`: a scan whose first gap starts with `c`. */
  lemma ScansTail(s: string, gaps: seq<string>, r: seq<string>, fits: (string, string) -> bool)
    requires Scans(s, gaps, r, fits) && |gaps[0]| > 0
    ensures |s| > 0 && s[0] == gaps[0][0] && !IsLetter(s[0])
    ensures Scans(s[1..], [gaps[0][1..]] + gaps[1..], r, fits)
  {
    var c := gaps[0][0];
    var g := [gaps[0][1..]] + gaps[1..];
    assert [[c] + g[0]] + g[1..] == gaps by {
      assert [c] + g[0] == gaps[0];
      assert g[1..] == gaps[1..];
    }
    WeaveCons(c, g, r);
    forall i | 0 <= i < |r| ensures fits(r[i], Weave(g[i + 1..], r[i + 1..])) {
      assert g[i + 1..] == gaps[i + 1..];
    }
    assert NoLetter(g[0]) by {
      assert forall i :: 0 <= i < |g[0]| ==> g[0][i] == gaps[0][i + 1];
    }
    assert s == [c] + Weave(g, r);
    assert s[1..] == Weave(g, r);
  }

  /** Undoing `ScansMatch`: a scan whose first gap is empty and that has a
      match. */
  lemma ScansHead(s: string, gaps: seq<string>, r: seq<string>, fits: (string, string) -> bool)
    requires Scans(s, gaps, r, fits) && |gaps[0]| == 0 && |r| > 0
    ensures s == r[0] + Weave(gaps[1..], r[1..])
    ensures fits(r[0], Weave(gaps[1..], r[1..]))
    ensures Scans(Weave(gaps[1..], r[1..]), gaps[1..], r[1..], fits)
  {
    assert gaps[0] == "";
    assert "" + r[0] + Weave(gaps[1..], r[1..]) == r[0] + Weave(gaps[1..], r[1..]);
    forall i | 0 <= i < |r| - 1 ensures gaps[1..][i + 1..] == gaps[i + 2..] && r[1..][i + 1..] == r[i + 2..] && r[1..][i] == r[i + 1] { }
    forall i | 0 <= i < |gaps| - 1 ensures gaps[1..][i] == gaps[i + 1] { }
  }

  /** A string that starts with letters and whose next character is not a
      letter has exactly that letter run. */
  lemma {:induction false} LetterRunIs(s: string, k: nat)
    requires k <= |s| && (forall i :: 0 <= i < k ==> IsLetter(s[i])) && (k == |s| || !IsLetter(s[k]))
    ensures LetterRun(s) == k
    decreases k
  {
    if k > 0 {
      LetterRunIs(s[1..], k - 1);
    }
  }

  /** Inside a word, a joiner is followed by a letter. */
  lemma JoinerInWord(w: string, j: nat)
    requires MatchesWord(w) && j < |w| && !IsLetter(w[j])
    ensures IsJoiner(w[j]) && j + 1 < |w| && IsLetter(w[j + 1])
  {
    WordShapeMatches(w);
  }

  /** The greedy match is the only prefix that is a word and that the
      engine would not extend. */
  lemma MatchLengthUnique(s: string, m: nat)
    requires 0 < m <= |s| && WordEnd(s[..m], s[m..])
    ensures |s| > 0 && IsLetter(s[0]) && MatchLength(s) == m
  {
    WordShapeMatches(s[..m]);
    assert s[0] == s[..m][0];
    var n := MatchLength(s);
    if n < m {
      JoinerInWord(s[..m], n);
    } else if m < n {
      JoinerInWord(s[..n], m);
    }
  }

  /** `FindAll` is a scan for the word pattern. */
  lemma {:induction false} FindAllScans(s: string) returns (gaps: seq<string>)
    ensures Scans(s, gaps, FindAll(s), WordEnd)
    decreases |s|
  {
    if |s| == 0 {
      gaps := [""];
    } else if !IsLetter(s[0]) {
      var g := FindAllScans(s[1..]);
      ScansCons(s[0], g, FindAll(s[1..]), WordEnd);
      assert [s[0]] + s[1..] == s;
      gaps := [[s[0]] + g[0]] + g[1..];
    } else {
      var n := MatchLength(s);
      var g := FindAllScans(s[n..]);
      ScansMatch(s[..n], g, FindAll(s[n..]), WordEnd);
      assert s[..n] + s[n..] == s;
      gaps := [""] + g;
    }
  }

  /** ... and the only one: any scan for the word pattern is `FindAll`'s
      result. Together with `FindAllScans` this says `FindAll` returns
      every maximal word, in order, and nothing else. */
  lemma {:induction false} ScansAreFindAll(s: string, gaps: seq<string>, r: seq<string>)
    requires Scans(s, gaps, r, WordEnd)
    ensures r == FindAll(s)
    decreases |s|, |gaps[0]|
  {
    if |gaps[0]| > 0 {
      ScansTail(s, gaps, r, WordEnd);
      ScansAreFindAll(s[1..], [gaps[0][1..]] + gaps[1..], r);
    } else if |r| == 0 {
      assert s == gaps[0] == "";
    } else {
      ScansHead(s, gaps, r, WordEnd);
      var rest := Weave(gaps[1..], r[1..]);
      var m := |r[0]|;
      assert r[0] == s[..m] && rest == s[m..];
      assert m > 0 by { assert MatchesWord(r[0]); }
      MatchLengthUnique(s, m);
      ScansAreFindAll(rest, gaps[1..], r[1..]);
    }
  }

  /** The one-joiner match is the only prefix that fits the pattern and
      that the engine would not extend. */
  lemma ShortMatchLengthUnique(s: string, m: nat)
    requires 0 < m <= |s| && ShortWordEnd(s[..m], s[m..])
    ensures |s| > 0 && IsLetter(s[0]) && ShortMatchLength(s) == m
  {
    var w := s[..m];
    assert s[0] == w[0];
    if m < |s| {
      assert s[m..][0] == s[m];
      if m + 1 < |s| {
        assert s[m..][1] == s[m + 1];
      }
    }
    if IsLetters(w) {
      LettersMatchLength(s, m);
    } else {
      var k :| 0 < k < |w| - 1 && IsLetters(w[..k]) && IsJoiner(w[k]) && IsLetters(w[k + 1..]);
      assert w[..k] == s[..k] && w[k + 1..] == s[k + 1..m] && w[k] == s[k];
      JoinedMatchLength(s, k, m);
    }
  }

  /** A letter run the engine cannot extend by a joiner and letters. */
  lemma LettersMatchLength(s: string, m: nat)
    requires 0 < m <= |s| && IsLetters(s[..m])
    requires m == |s| || (!IsLetter(s[m]) && !(m + 1 < |s| && IsJoiner(s[m]) && IsLetter(s[m + 1])))
    ensures IsLetter(s[0]) && ShortMatchLength(s) == m
  {
    assert forall i :: 0 <= i < m ==> s[..m][i] == s[i];
    LetterRunIs(s, m);
  }

  /** A letter run, a joiner and a letter run that no letter follows. */
  lemma JoinedMatchLength(s: string, k: nat, m: nat)
    requires 0 < k < m - 1 && m <= |s|
    requires IsLetters(s[..k]) && IsJoiner(s[k]) && IsLetters(s[k + 1..m])
    requires m == |s| || !IsLetter(s[m])
    ensures IsLetter(s[0]) && ShortMatchLength(s) == m
  {
    assert forall i :: 0 <= i < k ==> s[..k][i] == s[i];
    LetterRunIs(s, k);
    var t := s[k + 1..];
    assert forall i :: 0 <= i < m - k - 1 ==> s[k + 1..m][i] == t[i];
    assert m < |s| ==> t[m - k - 1] == s[m];
    LetterRunIs(t, m - k - 1);
    assert IsLetter(s[k + 1]) by { assert s[k + 1] == s[k + 1..m][0]; }
  }

  /** `FindAllShort` is a scan for the one-joiner pattern. */
  lemma {:induction false} FindAllShortScans(s: string) returns (gaps: seq<string>)
    ensures Scans(s, gaps, FindAllShort(s), ShortWordEnd)
    decreases |s|
  {
    if |s| == 0 {
      gaps := [""];
    } else if !IsLetter(s[0]) {
      var g := FindAllShortScans(s[1..]);
      ScansCons(s[0], g, FindAllShort(s[1..]), ShortWordEnd);
      assert [s[0]] + s[1..] == s;
      gaps := [[s[0]] + g[0]] + g[1..];
    } else {
      var n := ShortMatchLength(s);
      var g := FindAllShortScans(s[n..]);
      ScansMatch(s[..n], g, FindAllShort(s[n..]), ShortWordEnd);
      assert s[..n] + s[n..] == s;
      gaps := [""] + g;
    }
  }

  /** ... and the only one. */
  lemma {:induction false} ScansAreFindAllShort(s: string, gaps: seq<string>, r: seq<string>)
    requires Scans(s, gaps, r, ShortWordEnd)
    ensures r == FindAllShort(s)
    decreases |s|, |gaps[0]|
  {
    if |gaps[0]| > 0 {
      ScansTail(s, gaps, r, ShortWordEnd);
      ScansAreFindAllShort(s[1..], [gaps[0][1..]] + gaps[1..], r);
    } else if |r| == 0 {
      assert s == gaps[0] == "";
    } else {
      ScansHead(s, gaps, r, ShortWordEnd);
      var rest := Weave(gaps[1..], r[1..]);
      var m := |r[0]|;
      assert r[0] == s[..m] && rest == s[m..];
      assert m > 0 by { assert MatchesShortWord(r[0]); }
      ShortMatchLengthUnique(s, m);
      ScansAreFindAllShort(rest, gaps[1..], r[1..]);
    }
  }
}
