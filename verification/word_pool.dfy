/** The shuffled word pool of the current manager (`initializeWordPool`,
    `shuffleWordPool`, `getRandomWordFromAll`, `onLevelUp`): every game
    deals the whole vocabulary once, in random order, from the front. */
module WordPool {
  import opened Wrappers
  import opened Masking
  import opened RecentWords
  import opened Collection

  datatype PoolState = PoolState(pool: seq<WordRecord>, usedInGame: set<string>, levelWordsCount: nat, recent: seq<string>)

  /** Swapping two positions keeps the same words. */
  lemma SwapKeepsWords<T>(s: seq<T>, i: nat, j: nat)
    requires i < |s| && j < |s|
    ensures multiset(s[i := s[j]][j := s[i]]) == multiset(s)
  {
    if i != j {
      var u := s[i := s[j]];
      assert multiset(u) == multiset(s) - multiset{s[i]} + multiset{s[j]};
      var t := u[j := s[i]];
      assert multiset(t) == multiset(u) - multiset{u[j]} + multiset{s[i]};
    }
  }

  /** `shuffleWordPool`: for `i` from the last position down to 1, swap
      position `i` with position `choose(i)`, the draw
      `Math.floor(Math.random() * (i + 1))`. */
  function ShuffleDown<T>(s: seq<T>, i: nat, choose: nat -> nat): (r: seq<T>)
    requires i < |s| || (i == 0 && |s| == 0)
    requires forall k :: 0 < k <= i ==> choose(k) <= k
    ensures |r| == |s|
    decreases i
  {
    if i == 0 then s
    else
      var j := choose(i);
      ShuffleDown(s[i := s[j]][j := s[i]], i - 1, choose)
  }

  /** Fisher-Yates only swaps, so it keeps every element with its
      multiplicity. */
  lemma {:induction false} ShuffleDownKeepsWords<T>(s: seq<T>, i: nat, choose: nat -> nat)
    requires i < |s| || (i == 0 && |s| == 0)
    requires forall k :: 0 < k <= i ==> choose(k) <= k
    ensures multiset(ShuffleDown(s, i, choose)) == multiset(s)
    decreases i
  {
    if i > 0 {
      var j := choose(i);
      SwapKeepsWords(s, i, j);
      ShuffleDownKeepsWords(s[i := s[j]][j := s[i]], i - 1, choose);
    }
  }

  function Shuffle<T>(s: seq<T>, choose: nat -> nat): (r: seq<T>)
    requires forall k :: 0 < k < |s| ==> choose(k) <= k
    ensures |r| == |s| && multiset(r) == multiset(s)
  {
    if |s| == 0 then s
    else
      ShuffleDownKeepsWords(s, |s| - 1, choose);
      ShuffleDown(s, |s| - 1, choose)
  }

  /** Fisher-Yates never touches a position above the one being filled, so
      a draw that always picks the current position leaves the order alone. */
  lemma {:induction false} IdentityDrawsKeepOrder<T>(s: seq<T>, i: nat)
    requires i < |s| || (i == 0 && |s| == 0)
    ensures ShuffleDown(s, i, k => k) == s
    decreases i
  {
    if i > 0 {
      assert s[i := s[i]][i := s[i]] == s;
      IdentityDrawsKeepOrder(s, i - 1);
    }
  }

  /** `initializeWordPool`: the pool is a shuffled copy of the vocabulary,
      the per-game record is cleared; the recent list is kept. */
  function InitializePool(allWords: seq<WordRecord>, recent: seq<string>, choose: nat -> nat): (st: PoolState)
    requires forall k :: 0 < k < |allWords| ==> choose(k) <= k
    ensures multiset(st.pool) == multiset(allWords)
    ensures st.usedInGame == {} && st.levelWordsCount == 0 && st.recent == recent
  {
    PoolState(Shuffle(allWords, choose), {}, 0, recent)
  }

  /** `onLevelUp`: only the per-level counter restarts. */
  function OnLevelUp(st: PoolState): (r: PoolState)
    ensures r.pool == st.pool && r.usedInGame == st.usedInGame && r.recent == st.recent
    ensures r.levelWordsCount == 0
  {
    st.(levelWordsCount := 0)
  }

  /** The state change of one deal: the front word leaves the pool and is
      recorded as used and recent. */
  function TakeFront(st: PoolState): (r: PoolState)
    requires |st.pool| > 0
    ensures r.pool == st.pool[1..] && |r.pool| == |st.pool| - 1
    ensures r.usedInGame == st.usedInGame + {st.pool[0].word}
    ensures r.levelWordsCount == st.levelWordsCount + 1
    ensures r.recent == AddToRecent(st.recent, st.pool[0].word, MaxRecentWords)
  {
    var w := st.pool[0];
    PoolState(st.pool[1..], st.usedInGame + {w.word}, st.levelWordsCount + 1,
              AddToRecent(st.recent, w.word, MaxRecentWords))
  }

  /** `getRandomWordFromAll`: nothing loaded or an empty pool gives no word
      and no change. Otherwise the front word is dealt; in challenge mode
      every letter is hidden, else one or two (`twoLetters`). The result is
      also `None` if the supplied index draws run out. */
  function GetRandomWordFromAll(st: PoolState, loaded: bool, vocabularySize: nat, challenge: bool,
                                twoLetters: bool, draws: seq<nat>): (r: (Option<Puzzle>, PoolState))
    requires |st.pool| > 0 ==> forall k :: 0 <= k < |draws| ==> draws[k] < |st.pool[0].word|
    ensures !loaded || vocabularySize == 0 || |st.pool| == 0 ==> r == (None, st)
    ensures loaded && vocabularySize > 0 && |st.pool| > 0 ==> r.1 == TakeFront(st)
    ensures r.0.Some? ==> |st.pool| > 0 && r.0.value.original == st.pool[0].word && WellFormed(r.0.value)
    ensures r.0.Some? ==> Fill(r.0.value.display, r.0.value.missing, r.0.value.missingLetters) == r.0.value.original
    ensures r.0.Some? && !challenge ==> 1 <= |r.0.value.missing| <= 2 || |r.0.value.original| <= |r.0.value.missing|
    ensures loaded && vocabularySize > 0 && |st.pool| > 0 && challenge ==>
              r.0.Some? && forall i :: 0 <= i < |r.0.value.display| ==> r.0.value.display[i] == '_'
  {
    if !loaded || vocabularySize == 0 || |st.pool| == 0 then (None, st)
    else
      var w := st.pool[0].word;
      var count: nat := if challenge then |w| else if twoLetters then 2 else 1;
      var next := TakeFront(st);
      if challenge then
        ChallengeHidesEverything(w, draws);
        (Some(MakePuzzle(w, Range(|w|))), next)
      else
        match MissingIndices(|w|, count, draws)
        case None => (None, next)
        case Some(idx) => (Some(MakePuzzle(w, idx)), next)
  }

  /** The words dealt by `n` deals in a row, front first. */
  function Deal(st: PoolState, n: nat): (r: seq<string>)
    requires n <= |st.pool|
    ensures |r| == n
    decreases n
  {
    if n == 0 then [] else [st.pool[0].word] + Deal(TakeFront(st), n - 1)
  }

  function WordsOf(ws: seq<WordRecord>): (r: seq<string>)
    ensures |r| == |ws| && forall i :: 0 <= i < |ws| ==> r[i] == ws[i].word
  {
    seq(|ws|, i requires 0 <= i < |ws| => ws[i].word)
  }

  /** Dealing deals the pool in order. */
  lemma {:induction false} DealIsPoolOrder(st: PoolState, n: nat)
    requires n <= |st.pool|
    ensures Deal(st, n) == WordsOf(st.pool[..n])
    decreases n
  {
    if n > 0 {
      DealIsPoolOrder(TakeFront(st), n - 1);
      assert st.pool[1..][..n - 1] == st.pool[1..n];
    }
  }

  lemma SwapWords(s: seq<WordRecord>, i: nat, j: nat)
    requires i < |s| && j < |s|
    ensures WordsOf(s[i := s[j]][j := s[i]]) == WordsOf(s)[i := WordsOf(s)[j]][j := WordsOf(s)[i]]
  {
  }

  /** Shuffling the records and then reading their words gives the same
      sequence as shuffling the words with the same draws. */
  lemma {:induction false} ShuffleDownWords(s: seq<WordRecord>, i: nat, choose: nat -> nat)
    requires i < |s| || (i == 0 && |s| == 0)
    requires forall k :: 0 < k <= i ==> choose(k) <= k
    ensures WordsOf(ShuffleDown(s, i, choose)) == ShuffleDown(WordsOf(s), i, choose)
    decreases i
  {
    if i > 0 {
      var j := choose(i);
      var w := WordsOf(s);
      var t := s[i := s[j]][j := s[i]];
      SwapWords(s, i, j);
      ShuffleDownWords(t, i - 1, choose);
    }
  }

  /** One game deals every vocabulary word exactly as often as it occurs in
      the vocabulary, and nothing else: a fresh pool drained to the end is
      a permutation of the vocabulary. */
  lemma GameDealsEveryWordOnce(allWords: seq<WordRecord>, recent: seq<string>, choose: nat -> nat)
    requires forall k :: 0 < k < |allWords| ==> choose(k) <= k
    ensures var st := InitializePool(allWords, recent, choose);
            multiset(Deal(st, |st.pool|)) == multiset(WordsOf(allWords))
  {
    var st := InitializePool(allWords, recent, choose);
    DealIsPoolOrder(st, |st.pool|);
    assert st.pool[..|st.pool|] == st.pool;
    if |allWords| > 0 {
      ShuffleDownWords(allWords, |allWords| - 1, choose);
      ShuffleDownKeepsWords(WordsOf(allWords), |allWords| - 1, choose);
    }
  }
}
