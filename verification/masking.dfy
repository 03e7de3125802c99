/** Missing-letter puzzles: which positions of a word are hidden, how the
    word is shown with blanks, which letters the player must type, and how
    an answer is judged. Every generation of the vocabulary manager has its
    own `generateMissingIndices`; `Math.random` is modelled by `draws`, the
    successive values of `Math.floor(Math.random() * word.length)`. */
module Masking {
  import opened Wrappers
  import opened Text
  import opened Ordering

  /** `Array.from({length: n}, (_, i) => i)`. */
  function Range(n: nat): (r: seq<nat>)
    ensures |r| == n
    ensures forall i :: 0 <= i < n ==> r[i] == i
  {
    seq(n, i requires 0 <= i < n => i)
  }

  predicate InRange(idx: seq<int>, len: nat) {
    forall k :: 0 <= k < |idx| ==> 0 <= idx[k] < len
  }

  predicate Ascending(idx: seq<int>) {
    forall i, j :: 0 <= i < j < |idx| ==> idx[i] < idx[j]
  }

  /** The rejection loop shared by every variant: draw until `want` distinct
      values have been collected, skipping values already taken. The loop in
      the source runs until it succeeds; here `None` means the given draws
      ran out first. */
  function Gather(draws: seq<nat>, want: nat, acc: seq<nat>): (r: Option<seq<nat>>)
    requires |acc| <= want && Distinct(acc)
    ensures r.Some? ==> |r.value| == want && Distinct(r.value) && acc <= r.value
    ensures r.Some? ==> forall x :: x in r.value ==> x in acc || x in draws
    decreases |draws|
  {
    if |acc| == want then Some(acc)
    else if |draws| == 0 then None
    else if draws[0] in acc then Gather(draws[1..], want, acc)
    else Gather(draws[1..], want, acc + [draws[0]])
  }

  /** The loop succeeds exactly when the draws hold enough values that were
      not taken already. */
  lemma {:induction false} GatherSucceedsIff(draws: seq<nat>, want: nat, acc: seq<nat>)
    requires |acc| <= want && Distinct(acc)
    ensures Gather(draws, want, acc).Some? <==> |ToSet(draws) - ToSet(acc)| >= want - |acc|
    decreases |draws|
  {
    ToSetSize(acc);
    if |acc| == want {
    } else if |draws| == 0 {
      assert ToSet(draws) == {};
    } else {
      var d := draws[0];
      assert ToSet(draws) == {d} + ToSet(draws[1..]);
      FreshCount(d, ToSet(draws[1..]), ToSet(acc));
      if d in acc {
        GatherSucceedsIff(draws[1..], want, acc);
      } else {
        var acc' := acc + [d];
        assert Distinct(acc');
        assert ToSet(acc') == ToSet(acc) + {d};
        GatherSucceedsIff(draws[1..], want, acc');
      }
    }
  }

  /** Drawing `d` before the values `rest` adds one fresh value exactly
      when `d` is not taken. */
  lemma FreshCount(d: nat, rest: set<nat>, taken: set<nat>)
    ensures d in taken ==> |({d} + rest) - taken| == |rest - taken|
    ensures d !in taken ==> |({d} + rest) - taken| == |rest - (taken + {d})| + 1
  {
    if d in taken {
      assert ({d} + rest) - taken == rest - taken;
    } else {
      assert ({d} + rest) - taken == (rest - (taken + {d})) + {d};
    }
  }

  lemma DrawnInRange(draws: seq<nat>, len: nat, r: seq<nat>)
    requires forall k :: 0 <= k < |draws| ==> draws[k] < len
    requires forall x :: x in r ==> x in draws
    ensures InRange(r, len)
  {
    forall k | 0 <= k < |r| ensures r[k] < len {
      assert r[k] in draws;
    }
  }

  lemma EmptyToSet()
    ensures ToSet<nat>([]) == {}
  {
  }

  predicate NatLeq(a: nat, b: nat) {
    a <= b
  }

  lemma NatLeqIsTotal()
    ensures Total(NatLeq)
  {
  }

  lemma {:induction false} SortedDistinctAscending(s: seq<nat>)
    requires SortedBy(s, NatLeq) && Distinct(s)
    ensures Ascending(s)
  {
    forall i, j | 0 <= i < j < |s| ensures s[i] < s[j] {
      StepUp(s, i, j);
    }
  }

  lemma {:induction false} StepUp(s: seq<nat>, i: nat, j: nat)
    requires SortedBy(s, NatLeq) && Distinct(s)
    requires i < j < |s|
    ensures s[i] < s[j]
    decreases j - i
  {
    assert NatLeq(s[j - 1], s[j]);
    if i < j - 1 {
      StepUp(s, i, j - 1);
    }
  }

  /** `indices.sort((a, b) => a - b)` on distinct indices. */
  function SortIndices(s: seq<nat>): (r: seq<nat>)
    requires Distinct(s)
    ensures multiset(r) == multiset(s)
    ensures Ascending(r)
  {
    NatLeqIsTotal();
    SortKeepsDistinct(s, NatLeq);
    var r := SortBy(s, NatLeq);
    SortedDistinctAscending(r);
    r
  }

  /** `generateMissingIndices` of both version-2 managers: every position
      when `count` reaches the length, otherwise `count` distinct drawn
      positions in ascending order. */
  function MissingIndices(len: nat, count: nat, draws: seq<nat>): (r: Option<seq<nat>>)
    requires forall k :: 0 <= k < |draws| ==> draws[k] < len
    ensures count >= len ==> r == Some(Range(len))
    ensures r.None? <==> count < len && |ToSet(draws)| < count
    ensures r.Some? ==> |r.value| == Min(count, len) && Ascending(r.value) && InRange(r.value, len)
    ensures r.Some? && count < len ==> forall x :: x in r.value ==> x in draws
  {
    if count >= len then
      assert Ascending(Range(len));
      Some(Range(len))
    else
      GatherSucceedsIff(draws, count, []);
      EmptyToSet();
      match Gather(draws, count, [])
      case None => None
      case Some(g) =>
        var r := SortIndices(g);
        assert forall x :: x in r ==> x in g by {
          forall x | x in r ensures x in g {
            assert x in multiset(r);
          }
        }
        DrawnInRange(draws, len, r);
        Some(r)
  }

  /** `generateMissingIndices` of the first manager and of the review-book
      manager: at most `length - 1` positions, so one letter always stays
      visible. */
  function MissingIndicesKeepOne(len: nat, count: nat, draws: seq<nat>): (r: Option<seq<nat>>)
    requires forall k :: 0 <= k < |draws| ==> draws[k] < len
    ensures var want := if len == 0 then 0 else Min(count, len - 1);
            (r.None? <==> |ToSet(draws)| < want)
            && (r.Some? ==> |r.value| == want)
    ensures r.Some? ==> Ascending(r.value) && InRange(r.value, len)
  {
    var want: nat := if len == 0 then 0 else Min(count, len - 1);
    GatherSucceedsIff(draws, want, []);
    EmptyToSet();
    match Gather(draws, want, [])
    case None => None
    case Some(g) =>
      var r := SortIndices(g);
      assert forall x :: x in r ==> x in g by {
        forall x | x in r ensures x in g {
          assert x in multiset(r);
        }
      }
      DrawnInRange(draws, len, r);
      Some(r)
  }

  /** A non-empty word always keeps at least one visible letter. */
  lemma KeepOneLeavesALetter(len: nat, count: nat, draws: seq<nat>)
    requires forall k :: 0 <= k < |draws| ==> draws[k] < len
    requires len > 0
    requires MissingIndicesKeepOne(len, count, draws).Some?
    ensures |MissingIndicesKeepOne(len, count, draws).value| < len
    ensures exists i :: 0 <= i < len && i !in MissingIndicesKeepOne(len, count, draws).value
  {
    var r := MissingIndicesKeepOne(len, count, draws).value;
    ToSetSize(r);
    ToSetSize(Range(len));
    assert Distinct(Range(len));
    assert |r| < len;
    if forall i :: 0 <= i < len ==> i in r {
      SubsetSize(ToSet(Range(len)), ToSet(r));
      assert false;
    }
  }

  lemma SubsetSize<T>(a: set<T>, b: set<T>)
    requires a <= b
    ensures |a| <= |b|
  {
    assert b == a + (b - a);
  }

  /** The review puzzle of the review-book manager: `count` (one or two)
      distinct positions, no more than the word has, left in drawing order. */
  function ReviewIndices(len: nat, count: nat, draws: seq<nat>): (r: Option<seq<nat>>)
    requires forall k :: 0 <= k < |draws| ==> draws[k] < len
    ensures r.None? <==> |ToSet(draws)| < Min(count, len)
    ensures r.Some? ==> |r.value| == Min(count, len) && Distinct(r.value) && InRange(r.value, len)
  {
    GatherSucceedsIff(draws, Min(count, len), []);
    EmptyToSet();
    var r := Gather(draws, Min(count, len), []);
    if r.Some? then
      DrawnInRange(draws, len, r.value);
      r
    else r
  }

  /** Unlike the other variants, review positions are not sorted. */
  lemma ReviewIndicesUnsorted()
    ensures ReviewIndices(5, 2, [3, 1]) == Some([3, 1])
    ensures !Ascending(ReviewIndices(5, 2, [3, 1]).value)
  {
    assert [3, 1][1..] == [1];
    assert [] + [3] == [3];
    assert Gather([3, 1], 2, []) == Gather([1], 2, [3]);
    assert [1][1..] == [];
    assert [3] + [1] == [3, 1];
    assert Gather([1], 2, [3]) == Gather([], 2, [3, 1]);
  }

  /** `createDisplayWord`: listed positions inside the word become `_`. */
  function DisplayWord(word: string, idx: seq<int>): (r: string)
    ensures |r| == |word|
    ensures forall i :: 0 <= i < |word| ==> r[i] == (if i in idx then '_' else word[i])
  {
    seq(|word|, i requires 0 <= i < |word| => if i in idx then '_' else word[i])
  }

  /** `getMissingLetters`: the letters at the listed positions, in list
      order; a position outside the word reads `undefined`, which `join`
      renders as nothing. */
  function MissingLetters(word: string, idx: seq<int>): (r: string)
    ensures |r| <= |idx|
    ensures InRange(idx, |word|) ==> |r| == |idx| && forall k :: 0 <= k < |idx| ==> r[k] == word[idx[k]]
    decreases |idx|
  {
    if |idx| == 0 then ""
    else
      var rest := MissingLetters(word, idx[1..]);
      (if 0 <= idx[0] < |word| then [word[idx[0]]] else []) + rest
  }

  /** The player's side of the puzzle: typing `letters` in order fills the
      listed positions of the shown word. */
  function Fill(shown: string, idx: seq<int>, letters: string): (r: string)
    requires InRange(idx, |shown|) && |letters| == |idx|
    ensures |r| == |shown|
    decreases |idx|
  {
    if |idx| == 0 then shown
    else Fill(shown[idx[0] := letters[0]], idx[1..], letters[1..])
  }

  lemma {:induction false} FillRestores(word: string, shown: string, idx: seq<int>)
    requires |shown| == |word| && InRange(idx, |word|)
    requires forall i :: 0 <= i < |word| && i !in idx ==> shown[i] == word[i]
    ensures Fill(shown, idx, MissingLetters(word, idx)) == word
    decreases |idx|
  {
    if |idx| > 0 {
      var letters := MissingLetters(word, idx);
      assert letters[1..] == MissingLetters(word, idx[1..]);
      var next := shown[idx[0] := letters[0]];
      forall i | 0 <= i < |word| && i !in idx[1..] ensures next[i] == word[i] {
        if i != idx[0] {
          assert i !in idx;
        }
      }
      FillRestores(word, next, idx[1..]);
    }
  }

  /** Filling the blanks of the displayed word with the expected letters
      gives the word back: the puzzle hides exactly what the answer
      supplies. */
  lemma DisplayRoundTrip(word: string, idx: seq<int>)
    requires InRange(idx, |word|)
    ensures Fill(DisplayWord(word, idx), idx, MissingLetters(word, idx)) == word
    ensures forall i :: 0 <= i < |word| ==> (DisplayWord(word, idx)[i] == word[i] || i in idx)
  {
    FillRestores(word, DisplayWord(word, idx), idx);
  }

  /** With every position hidden (challenge mode), the word is all blanks
      and the expected answer is the whole word. */
  lemma ChallengeHidesEverything(word: string, draws: seq<nat>)
    requires forall k :: 0 <= k < |draws| ==> draws[k] < |word|
    ensures MissingIndices(|word|, |word|, draws) == Some(Range(|word|))
    ensures forall i :: 0 <= i < |word| ==> DisplayWord(word, Range(|word|))[i] == '_'
    ensures MissingLetters(word, Range(|word|)) == word
  {
    var r := Range(|word|);
    forall i | 0 <= i < |word| ensures i in r {
      assert r[i] == i;
    }
  }

  /** The puzzle object every manager hands to the game. */
  datatype Puzzle = Puzzle(original: string, missing: seq<nat>, display: string, missingLetters: string)

  /** The shown word has the original's length, the hidden positions lie
      inside it, and there is one expected letter per hidden position. */
  predicate WellFormed(p: Puzzle) {
    |p.display| == |p.original| && InRange(p.missing, |p.display|) && |p.missingLetters| == |p.missing|
  }

  function MakePuzzle(word: string, idx: seq<nat>): (p: Puzzle)
    requires InRange(idx, |word|)
    ensures p.original == word && p.missing == idx && WellFormed(p)
    ensures Fill(p.display, p.missing, p.missingLetters) == word
  {
    DisplayRoundTrip(word, idx);
    Puzzle(word, idx, DisplayWord(word, idx), MissingLetters(word, idx))
  }

  /** `checkAnswer`: upper-case the expected letters, upper-case then trim
      the input, and compare. */
  function CheckAnswer(missingLetters: string, input: string): (r: bool)
    ensures r <==> Upper(missingLetters) == Upper(Trim(input))
  {
    TrimUpper(input);
    Upper(missingLetters) == Trim(Upper(input))
  }

  /** An answer is accepted in any letter case and with any white space
      around it: whatever upper-cases to the expected letters, padded with
      white space, is right. */
  lemma AnswerIgnoresCaseAndSpace(missing: string, typed: string, pre: string, post: string)
    requires Upper(typed) == Upper(missing)
    requires forall i :: 0 <= i < |pre| ==> IsSpace(pre[i])
    requires forall i :: 0 <= i < |post| ==> IsSpace(post[i])
    requires |typed| > 0 ==> !IsSpace(typed[0]) && !IsSpace(typed[|typed| - 1])
    ensures CheckAnswer(missing, pre + typed + post)
  {
    TrimPadded(pre, typed, post);
  }

  lemma UpperLower(s: string)
    ensures Upper(Lower(s)) == Upper(s)
  {
    forall i | 0 <= i < |s| ensures UpperChar(LowerChar(s[i])) == UpperChar(s[i]) {
      var c := s[i];
      if IsUpperLetter(c) {
        assert LowerChar(c) as int == c as int + 32;
      }
    }
  }

  /** In particular the expected letters typed in lower case are accepted. */
  lemma LowerCaseAnswerAccepted(missing: string)
    requires |missing| > 0 ==> IsLetter(missing[0]) && IsLetter(missing[|missing| - 1])
    ensures CheckAnswer(missing, Lower(missing))
  {
    var l := Lower(missing);
    UpperLower(missing);
    assert l == "" + l + "";
    AnswerIgnoresCaseAndSpace(missing, l, "", "");
  }

  /** An answer of a different length (after trimming) is rejected. */
  lemma AnswerLengthMatters(missing: string, input: string)
    requires |Trim(input)| != |missing|
    ensures !CheckAnswer(missing, input)
  {
  }
}
