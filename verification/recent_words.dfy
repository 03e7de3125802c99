/** The bounded most-recently-used word list every manager keeps to avoid
    showing the same word twice in a short span. */
module RecentWords {
  import opened Ordering

  /** `maxRecentWords` of both version-2 managers. */
  const MaxRecentWords: nat := 15

  /** `list.filter(x => x !== w)`. */
  function Without(list: seq<string>, w: string): (r: seq<string>)
    ensures |r| <= |list|
    ensures w !in r
    ensures forall x :: x in r <==> x in list && x != w
    ensures w !in list ==> r == list
    decreases |list|
  {
    if |list| == 0 then []
    else if list[0] == w then Without(list[1..], w)
    else [list[0]] + Without(list[1..], w)
  }

  lemma {:induction false} WithoutKeepsDistinct(list: seq<string>, w: string)
    requires Distinct(list)
    ensures Distinct(Without(list, w))
    decreases |list|
  {
    if |list| > 0 {
      WithoutKeepsDistinct(list[1..], w);
      assert list[0] !in list[1..];
    }
  }

  /** `addToRecentWords` of both version-2 managers: drop every earlier copy
      of `w`, put `w` in front, cut the list to `max` entries. */
  function AddToRecent(recent: seq<string>, w: string, max: nat): (r: seq<string>)
    ensures |r| == Min(|Without(recent, w)| + 1, max)
    ensures |r| <= max
    ensures max > 0 ==> r[0] == w && w !in r[1..]
    ensures max > 0 ==> r[1..] == Without(recent, w)[..|r| - 1]
    ensures forall x :: x in r ==> x == w || x in recent
  {
    var moved := [w] + Without(recent, w);
    if |moved| > max then moved[..max] else moved
  }

  /** The list never holds a word twice. */
  lemma AddToRecentKeepsDistinct(recent: seq<string>, w: string, max: nat)
    requires Distinct(recent)
    ensures Distinct(AddToRecent(recent, w, max))
  {
    WithoutKeepsDistinct(recent, w);
  }

  /** A word is remembered right after it is shown, and a word already in
      the list that is not pushed past the bound stays remembered. */
  lemma AddToRecentRemembers(recent: seq<string>, w: string, max: nat, x: string)
    requires max > 0
    ensures w in AddToRecent(recent, w, max)
    ensures x in recent && x != w && |Without(recent, w)| < max ==> x in AddToRecent(recent, w, max)
  {
    var r := AddToRecent(recent, w, max);
    assert r[0] == w;
    if x in recent && x != w && |Without(recent, w)| < max {
      assert r[1..] == Without(recent, w);
      assert x in r[1..];
    }
  }

  /** The list after showing the words of `shown` one by one. */
  function AddAll(recent: seq<string>, shown: seq<string>, max: nat): (r: seq<string>)
    decreases |shown|
  {
    if |shown| == 0 then recent
    else AddAll(AddToRecent(recent, shown[0], max), shown[1..], max)
  }

  /** Starting from any duplicate-free list within the bound (the empty
      list in particular), any sequence of additions leaves a duplicate-free
      list of at most `max` words. */
  lemma {:induction false} AddAllKeepsDistinct(recent: seq<string>, shown: seq<string>, max: nat)
    requires Distinct(recent) && |recent| <= max
    ensures Distinct(AddAll(recent, shown, max)) && |AddAll(recent, shown, max)| <= max
    decreases |shown|
  {
    if |shown| > 0 {
      AddToRecentKeepsDistinct(recent, shown[0], max);
      AddAllKeepsDistinct(AddToRecent(recent, shown[0], max), shown[1..], max);
    }
  }

  /** `recentWords.splice(recentWords.indexOf(w), 1)`: only the first copy
      goes. */
  function RemoveFirst(list: seq<string>, w: string): (r: seq<string>)
    ensures w in list ==> |r| == |list| - 1
    ensures w !in list ==> r == list
    decreases |list|
  {
    if |list| == 0 then []
    else if list[0] == w then list[1..]
    else [list[0]] + RemoveFirst(list[1..], w)
  }

  /** `addToRecentWords` of the first manager. */
  function AddToRecentSplice(recent: seq<string>, w: string, max: nat): (r: seq<string>)
    ensures |r| == Min(|RemoveFirst(recent, w)| + 1, max)
    ensures max > 0 ==> r[0] == w
  {
    var moved := [w] + RemoveFirst(recent, w);
    if |moved| > max then moved[..max] else moved
  }

  lemma {:induction false} RemoveFirstOfDistinct(list: seq<string>, w: string)
    requires Distinct(list)
    ensures RemoveFirst(list, w) == Without(list, w)
    decreases |list|
  {
    if |list| > 0 {
      assert list[0] !in list[1..];
      RemoveFirstOfDistinct(list[1..], w);
    }
  }

  /** On a duplicate-free list (the only kind the managers build) removing
      the first copy and removing every copy agree, so the two
      generations keep the same list. */
  lemma SpliceAgreesWithFilter(recent: seq<string>, w: string, max: nat)
    requires Distinct(recent)
    ensures AddToRecentSplice(recent, w, max) == AddToRecent(recent, w, max)
  {
    RemoveFirstOfDistinct(recent, w);
  }

  /** They differ on a list with a repeated word. */
  lemma SpliceDiffersOnRepeats()
    ensures AddToRecentSplice(["a", "a"], "a", 15) == ["a", "a"]
    ensures AddToRecent(["a", "a"], "a", 15) == ["a"]
  {
    assert RemoveFirst(["a", "a"], "a") == ["a"];
    assert Without(["a", "a"], "a") == Without(["a"], "a");
    assert Without(["a"], "a") == Without([], "a");
  }

  /** The first manager's bound, `min(15, floor(0.7 * size))`. */
  function MaxRecentFor(vocabularySize: nat): (r: nat)
    ensures r <= MaxRecentWords
    ensures r <= vocabularySize
    ensures vocabularySize >= 22 ==> r == MaxRecentWords
  {
    Min(15, 7 * vocabularySize / 10)
  }

  /** With fewer than two words the first manager keeps no history at all:
      the bound is 0, so the list is cut back to empty after every pick. */
  lemma TinyVocabularyForgets(recent: seq<string>, w: string)
    ensures MaxRecentFor(1) == 0
    ensures AddToRecentSplice(recent, w, MaxRecentFor(1)) == []
  {
  }

  /** While the vocabulary has at least two words the bound leaves at least
      one word out of the window, so some word is never recent. */
  lemma WindowLeavesAWordOut(vocabularySize: nat)
    requires vocabularySize >= 2
    ensures 1 <= MaxRecentFor(vocabularySize) < vocabularySize
  {
  }
}
