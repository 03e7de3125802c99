/** The first generation of the game loop (`game.js`): the same scoring,
    but a buffer whose lights accumulate and release the word after three
    seconds, a missed-word book that is emptied at every level-up, a
    row-count game-over test and the automatic shot of a word whose blanks
    were typed in. Words, stack cells and the score rule are shared with
    the later generation in `TetrisGame`. */
module LegacyGame {
  import opened Wrappers
  import opened Text
  import opened Ordering
  import MissedBook
  import TetrisGame

  // ---------------------------------------------------------------------
  // Buffer countdown

  /** Frames at which the red, yellow and green lights come on; the green
      light also releases the word. */
  const RedFrame: nat := 60
  const YellowFrame: nat := 120
  const GreenFrame: nat := 180

  /** `updateBufferCountdown`: each light stays on once lit, and the third
      one hands over to `releaseWord`, which does nothing when no word is
      waiting. */
  function UpdateBufferCountdown(b: TetrisGame.Buffer, hasNext: bool): (r: TetrisGame.Tick)
    ensures b.phase != TetrisGame.Countdown ==> r == TetrisGame.Tick(b, false)
    ensures r.released <==> b.phase == TetrisGame.Countdown && b.timer + 1 == GreenFrame && hasNext
    ensures r.released ==> r.buffer == TetrisGame.Buffer(TetrisGame.Idle, 0, TetrisGame.Dark)
  {
    if b.phase != TetrisGame.Countdown then TetrisGame.Tick(b, false)
    else
      var t := b.timer + 1;
      var l := b.lights;
      if t == RedFrame then TetrisGame.Tick(TetrisGame.Buffer(TetrisGame.Countdown, t, l.(red := true)), false)
      else if t == YellowFrame then TetrisGame.Tick(TetrisGame.Buffer(TetrisGame.Countdown, t, l.(yellow := true)), false)
      else if t == GreenFrame then
        if hasNext then TetrisGame.Tick(TetrisGame.Buffer(TetrisGame.Idle, 0, TetrisGame.Dark), true)
        else TetrisGame.Tick(TetrisGame.Buffer(TetrisGame.Countdown, t, l.(green := true)), false)
      else TetrisGame.Tick(TetrisGame.Buffer(TetrisGame.Countdown, t, l), false)
  }

  /** The buffer after `n` frames. */
  function Frames(b: TetrisGame.Buffer, n: nat, hasNext: bool): TetrisGame.Buffer
    decreases n
  {
    if n == 0 then b else UpdateBufferCountdown(Frames(b, n - 1, hasNext), hasNext).buffer
  }

  /** The lights `t` frames into a countdown: none, then red, then red and
      yellow, then all three. */
  function LightsAt(t: nat): TetrisGame.Lights {
    TetrisGame.Lights(t >= RedFrame, t >= YellowFrame, t >= GreenFrame)
  }

  function LitCount(l: TetrisGame.Lights): nat {
    (if l.red then 1 else 0) + (if l.yellow then 1 else 0) + (if l.green then 1 else 0)
  }

  /** Before the release frame the buffer counts frames and shows every
      light whose moment has come. */
  lemma {:induction false} CountdownSchedule(n: nat, hasNext: bool)
    requires n < GreenFrame
    ensures Frames(TetrisGame.StartBufferCountdown(TetrisGame.Buffer(TetrisGame.Idle, 0, TetrisGame.Dark)), n, hasNext)
            == TetrisGame.Buffer(TetrisGame.Countdown, n, LightsAt(n))
    decreases n
  {
    if n > 0 {
      CountdownSchedule(n - 1, hasNext);
    }
  }

  /** Lights only accumulate: a later frame never shows fewer. */
  lemma LightsAccumulate(s: nat, t: nat)
    requires s <= t
    ensures LitCount(LightsAt(s)) <= LitCount(LightsAt(t))
    ensures LitCount(LightsAt(t)) == (if t < RedFrame then 0 else if t < YellowFrame then 1 else if t < GreenFrame then 2 else 3)
  {
  }

  /** The word is released on frame 180, sixty frames (one second) earlier than
      in the later generation, and never before. */
  lemma ReleaseOnFrame180(n: nat)
    requires 0 < n <= GreenFrame
    ensures var start := TetrisGame.StartBufferCountdown(TetrisGame.Buffer(TetrisGame.Idle, 0, TetrisGame.Dark));
            UpdateBufferCountdown(Frames(start, n - 1, true), true).released <==> n == GreenFrame
    ensures GreenFrame + 60 == TetrisGame.ReleaseFrame
  {
    CountdownSchedule(n - 1, true);
  }

  /** With no word waiting at frame 180 the timer runs past it, so the
      buffer never leaves its countdown. */
  lemma {:induction false} NoWordNoRelease(n: nat)
    ensures Frames(TetrisGame.StartBufferCountdown(TetrisGame.Buffer(TetrisGame.Idle, 0, TetrisGame.Dark)), n, false).phase
            == TetrisGame.Countdown
    ensures Frames(TetrisGame.StartBufferCountdown(TetrisGame.Buffer(TetrisGame.Idle, 0, TetrisGame.Dark)), n, false).timer == n
    decreases n
  {
    if n > 0 {
      NoWordNoRelease(n - 1);
    }
  }

  // ---------------------------------------------------------------------
  // The game record

  datatype Game = Game(
    phase: TetrisGame.Phase, score: int, level: int, targetScore: int, spawnRate: int,
    combo: nat, maxCombo: nat, perfectLevel: bool, perfectLevels: nat, levelWordCount: nat,
    falling: seq<TetrisGame.FallingWord>, stack: seq<TetrisGame.StackedWord>, book: MissedBook.Book,
    wordsHit: nat, givenUp: nat, failed: nat)

  /** The word of every stacked entry is in the book. */
  predicate StackInBook(stack: seq<TetrisGame.StackedWord>, book: MissedBook.Book) {
    forall i :: 0 <= i < |stack| ==> MissedBook.IndexOf(book, stack[i].word.original).Some?
  }

  /** What every reachable game keeps true: the target follows the level,
      the score never goes negative, the spawn interval stays at or above
      120 frames, the stack is laid out row by row, and the book records
      exactly the misses of the stack of the current level. */
  predicate Inv(g: Game) {
    g.score >= 0 && g.level >= 1 && g.targetScore == 100 * g.level && g.spawnRate >= 120
    && TetrisGame.WellStacked(g.stack)
    && MissedBook.WellKeyed(g.book) && MissedBook.Balanced(g.book)
    && MissedBook.TotalMisses(g.book) == |g.stack|
    && StackInBook(g.stack, g.book)
  }

  /** The constructor's game. */
  function NewGame(): (g: Game)
    ensures Inv(g) && g.phase == TetrisGame.Stopped && g.stack == [] && g.book == []
  {
    var g := Game(TetrisGame.Stopped, 0, 1, 100, 180, 0, 0, true, 0, 0, [], [], [], 0, 0, 0);
    assert MissedBook.TotalMisses(g.book) == 0;
    g
  }

  /** What `addMissedWord` receives: the legacy book keeps no phonetic. */
  function MissOf(w: TetrisGame.FallingWord, giveUp: bool): MissedBook.Miss {
    MissedBook.Miss(w.original, w.meaning, "", giveUp, w.level)
  }

  /** Adding a miss keeps every word already in the book there, and a
      repeat does not grow the book. */
  lemma AddMissedKeepsWords(book: MissedBook.Book, m: MissedBook.Miss, k: string)
    ensures MissedBook.IndexOf(book, k).Some? ==> MissedBook.IndexOf(MissedBook.AddMissed(book, m), k).Some?
    ensures MissedBook.IndexOf(book, m.original).Some? ==> |MissedBook.AddMissed(book, m)| == |book|
  {
    MissedBook.AddMissedRepeat(book, m);
    var r := MissedBook.AddMissed(book, m);
    if MissedBook.IndexOf(book, k).Some? {
      var j := MissedBook.IndexOf(book, k).value;
      assert r[j].word == k;
    }
  }

  /** `addToStack`: the miss goes into the book (there is no check for a
      missing spelling here) and the word takes the next stack cell. */
  function AddToStack(g: Game, w: TetrisGame.FallingWord, giveUp: bool): (r: Game)
    ensures |r.stack| == |g.stack| + 1 && r.stack[..|g.stack|] == g.stack
    ensures r.stack[|g.stack|] == TetrisGame.StackedWord(w, giveUp, |g.stack| / 5, |g.stack| % 5)
    ensures r == g.(book := r.book, stack := r.stack)
  {
    var n := |g.stack|;
    g.(book := MissedBook.AddMissed(g.book, MissOf(w, giveUp)),
       stack := g.stack + [TetrisGame.StackedWord(w, giveUp, n / TetrisGame.WordsPerRow, n % TetrisGame.WordsPerRow)])
  }

  /** A stacked word keeps the layout, the book's keys and counts, and the
      book's total in step with the stack. */
  lemma AddToStackKeepsInv(g: Game, w: TetrisGame.FallingWord, giveUp: bool)
    requires Inv(g)
    ensures Inv(AddToStack(g, w, giveUp))
  {
    var r := AddToStack(g, w, giveUp);
    var m := MissOf(w, giveUp);
    MissedBook.AddMissedCountsOne(g.book, m);
    MissedBook.AddMissedInvariant(g.book, m);
    forall i | 0 <= i < |r.stack|
      ensures MissedBook.IndexOf(r.book, r.stack[i].word.original).Some?
    {
      if i < |g.stack| {
        assert r.stack[i] == g.stack[i];
        AddMissedKeepsWords(g.book, m, g.stack[i].word.original);
      }
    }
  }

  /** `stackedWords.forEach(word => addMissedWord(word))` inside `levelUp`. */
  function RecordAll(book: MissedBook.Book, stack: seq<TetrisGame.StackedWord>): MissedBook.Book
    decreases |stack|
  {
    if |stack| == 0 then book
    else RecordAll(MissedBook.AddMissed(book, MissOf(stack[0].word, stack[0].giveUp)), stack[1..])
  }

  /** Re-recording words already in the book adds no entry. */
  lemma {:induction false} RecordAllKeepsSize(book: MissedBook.Book, stack: seq<TetrisGame.StackedWord>)
    requires StackInBook(stack, book)
    ensures |RecordAll(book, stack)| == |book|
    decreases |stack|
  {
    if |stack| > 0 {
      var m := MissOf(stack[0].word, stack[0].giveUp);
      var next := MissedBook.AddMissed(book, m);
      AddMissedKeepsWords(book, m, m.original);
      forall i | 0 <= i < |stack[1..]|
        ensures MissedBook.IndexOf(next, stack[1..][i].word.original).Some?
      {
        assert stack[1..][i] == stack[i + 1];
        AddMissedKeepsWords(book, m, stack[i + 1].word.original);
      }
      RecordAllKeepsSize(next, stack[1..]);
    }
  }

  /** `levelUp`: the perfect bonus; the stack goes into the book once more
      and the level-up window reports how many words the book then holds,
      after which the book is emptied; the next level and its target, a
      faster spawn interval that never drops below 120 frames, and a fresh
      level. The game keeps playing. */
  function LevelUp(g: Game): (r: (Game, nat))
    ensures var (n, shown) := r;
            n.level == g.level + 1 && n.targetScore == 100 * n.level
            && n.spawnRate == Max(120, g.spawnRate - 10)
            && n.stack == [] && n.book == [] && n.combo == 0 && n.levelWordCount == 0 && n.perfectLevel
            && n.score == g.score + (if g.perfectLevel then 20 else 0)
            && n.phase == g.phase && n.maxCombo == g.maxCombo
  {
    var bonus := if g.perfectLevel then 20 else 0;
    var shown := |RecordAll(g.book, g.stack)|;
    (g.(score := g.score + bonus, perfectLevels := g.perfectLevels + (if g.perfectLevel then 1 else 0),
        book := [], stack := [], level := g.level + 1, targetScore := (g.level + 1) * 100,
        spawnRate := Max(120, g.spawnRate - 10), perfectLevel := true, combo := 0, levelWordCount := 0),
     shown)
  }

  /** Level-up keeps the invariant, and the count it shows is the number of
      different words missed during the level: re-recording the stack
      changes nothing the window shows. */
  lemma LevelUpKeepsInv(g: Game)
    requires Inv(g)
    ensures Inv(LevelUp(g).0)
    ensures LevelUp(g).1 == |g.book|
  {
    RecordAllKeepsSize(g.book, g.stack);
    assert MissedBook.TotalMisses(LevelUp(g).0.book) == 0;
  }

  /** `autoShoot`: `index` is where `fallingWords.indexOf(word)` found the
      word. In play and with the word still falling, it is shot down: its
      score is added, the combo and the hit counter grow, the best combo is
      kept, and reaching the target levels up. */
  function AutoShoot(g: Game, index: Option<nat>, now: int): (r: Game)
    requires index.Some? ==> index.value < |g.falling|
    ensures g.phase != TetrisGame.Playing || index.None? ==> r == g
    ensures g.phase == TetrisGame.Playing && index.Some? ==>
              var w := g.falling[index.value];
              var points := TetrisGame.CalculateScore(w.missing, w.spawnTime, now, g.combo);
              r.falling == RemoveAt(g.falling, index.value)
              && r.wordsHit == g.wordsHit + 1 && r.maxCombo == Max(g.maxCombo, g.combo + 1)
              && r.maxCombo >= r.combo
              && (g.score + points < g.targetScore ==> r.score == g.score + points && r.combo == g.combo + 1 && r.level == g.level)
              && (g.score + points >= g.targetScore ==> r.level == g.level + 1 && r.combo == 0)
  {
    if g.phase != TetrisGame.Playing || index.None? then g
    else
      var w := g.falling[index.value];
      var points := TetrisGame.CalculateScore(w.missing, w.spawnTime, now, g.combo);
      var shot := g.(falling := RemoveAt(g.falling, index.value), score := g.score + points,
                     combo := g.combo + 1, wordsHit := g.wordsHit + 1, maxCombo := Max(g.maxCombo, g.combo + 1));
      if shot.score >= shot.targetScore then LevelUp(shot).0 else shot
  }

  /** `submitAnswer`. `matches(w)` is the vocabulary manager's
      `checkAnswer(w, input)`. Unlike `autoShoot` it counts no hit and does
      not touch the best combo. */
  function SubmitAnswer(g: Game, input: string, matches: TetrisGame.FallingWord -> bool, now: int): (r: Game)
    ensures g.phase != TetrisGame.Playing || Trim(input) == "" ==> r == g
    ensures g.phase == TetrisGame.Playing && Trim(input) != "" && TetrisGame.FirstMatch(g.falling, matches).None? ==>
              r == g.(combo := 0, perfectLevel := false)
    ensures g.phase == TetrisGame.Playing && Trim(input) != "" && TetrisGame.FirstMatch(g.falling, matches).Some? ==>
              var i := TetrisGame.FirstMatch(g.falling, matches).value;
              var points := TetrisGame.CalculateScore(g.falling[i].missing, g.falling[i].spawnTime, now, g.combo);
              r.falling == RemoveAt(g.falling, i) && r.wordsHit == g.wordsHit && r.maxCombo == g.maxCombo
              && (g.score + points < g.targetScore ==> r.score == g.score + points && r.combo == g.combo + 1)
              && (g.score + points >= g.targetScore ==> r.level == g.level + 1)
  {
    if g.phase != TetrisGame.Playing || Trim(input) == "" then g
    else
      match TetrisGame.FirstMatch(g.falling, matches)
      case None => g.(combo := 0, perfectLevel := false)
      case Some(i) =>
        var w := g.falling[i];
        var points := TetrisGame.CalculateScore(w.missing, w.spawnTime, now, g.combo);
        var shot := g.(falling := RemoveAt(g.falling, i), score := g.score + points, combo := g.combo + 1);
        if shot.score >= shot.targetScore then LevelUp(shot).0 else shot
  }

  /** `giveUpCurrentWord`: the oldest falling word goes onto the stack as
      given up, costing a point (never below zero) and the combo. */
  function GiveUpCurrentWord(g: Game): (r: Game)
    ensures g.phase != TetrisGame.Playing || |g.falling| == 0 ==> r == g
    ensures g.phase == TetrisGame.Playing && |g.falling| > 0 ==>
              r.score == Max(0, g.score - 1) && r.combo == 0 && !r.perfectLevel
              && r.falling == g.falling[1..] && r.givenUp == g.givenUp + 1
              && r.stack == g.stack + [TetrisGame.StackedWord(g.falling[0], true, |g.stack| / 5, |g.stack| % 5)]
  {
    if g.phase != TetrisGame.Playing || |g.falling| == 0 then g
    else
      var dropped := g.(falling := g.falling[1..], score := Max(0, g.score - 1), combo := 0,
                        perfectLevel := false, givenUp := g.givenUp + 1);
      AddToStack(dropped, g.falling[0], true)
  }

  /** The failure branch of `updateFallingWords`: falling word `i` reached
      the bottom and joins the stack as failed. */
  function WordReachesBottom(g: Game, i: nat): (r: Game)
    requires i < |g.falling|
    ensures r.falling == RemoveAt(g.falling, i) && r.failed == g.failed + 1
    ensures r.combo == 0 && !r.perfectLevel && r.score == g.score
    ensures r.stack == g.stack + [TetrisGame.StackedWord(g.falling[i], false, |g.stack| / 5, |g.stack| % 5)]
  {
    var stacked := AddToStack(g.(falling := RemoveAt(g.falling, i)), g.falling[i], false);
    stacked.(combo := 0, perfectLevel := false, failed := g.failed + 1)
  }

  /** Every move keeps the invariant. */
  lemma AutoShootKeepsInv(g: Game, index: Option<nat>, now: int)
    requires Inv(g) && (index.Some? ==> index.value < |g.falling|)
    ensures Inv(AutoShoot(g, index, now))
  {
    if g.phase == TetrisGame.Playing && index.Some? {
      var w := g.falling[index.value];
      var points := TetrisGame.CalculateScore(w.missing, w.spawnTime, now, g.combo);
      var shot := g.(falling := RemoveAt(g.falling, index.value), score := g.score + points,
                     combo := g.combo + 1, wordsHit := g.wordsHit + 1, maxCombo := Max(g.maxCombo, g.combo + 1));
      LevelUpKeepsInv(shot);
    }
  }

  lemma SubmitKeepsInv(g: Game, input: string, matches: TetrisGame.FallingWord -> bool, now: int)
    requires Inv(g)
    ensures Inv(SubmitAnswer(g, input, matches, now))
  {
    if g.phase == TetrisGame.Playing && Trim(input) != "" && TetrisGame.FirstMatch(g.falling, matches).Some? {
      var i := TetrisGame.FirstMatch(g.falling, matches).value;
      var w := g.falling[i];
      var points := TetrisGame.CalculateScore(w.missing, w.spawnTime, now, g.combo);
      LevelUpKeepsInv(g.(falling := RemoveAt(g.falling, i), score := g.score + points, combo := g.combo + 1));
    }
  }

  lemma GiveUpKeepsInv(g: Game)
    requires Inv(g)
    ensures Inv(GiveUpCurrentWord(g))
  {
    if g.phase == TetrisGame.Playing && |g.falling| > 0 {
      AddToStackKeepsInv(g.(falling := g.falling[1..], score := Max(0, g.score - 1), combo := 0,
                            perfectLevel := false, givenUp := g.givenUp + 1), g.falling[0], true);
    }
  }

  lemma WordReachesBottomKeepsInv(g: Game, i: nat)
    requires Inv(g) && i < |g.falling|
    ensures Inv(WordReachesBottom(g, i))
  {
    AddToStackKeepsInv(g.(falling := RemoveAt(g.falling, i)), g.falling[i], false);
  }

  // ---------------------------------------------------------------------
  // Game over

  /** Row height of a stacked word: 25 pixels and a 2-pixel gap. */
  const RowHeight: int := 27

  /** `checkGameOver`: the stack's rows (a partly filled row counts) reach
      the number of rows that fit below the buffer, less a 50-pixel
      margin. */
  predicate IsGameOver(stackSize: nat, gameAreaHeight: int) {
    (stackSize + 4) / 5 >= (gameAreaHeight - 50) / RowHeight
  }

  /** The game ends exactly when the stack holds a word in the last row
      that fits; an area too short for one row ends it at once. */
  lemma GameOverThreshold(stackSize: nat, gameAreaHeight: int)
    ensures var maxRows := (gameAreaHeight - 50) / RowHeight;
            (maxRows <= 0 ==> IsGameOver(stackSize, gameAreaHeight))
            && (maxRows > 0 ==> (IsGameOver(stackSize, gameAreaHeight) <==> stackSize >= 5 * maxRows - 4))
  {
  }

  /** More stacked words never undo a game over. */
  lemma GameOverStays(n: nat, m: nat, gameAreaHeight: int)
    requires n <= m && IsGameOver(n, gameAreaHeight)
    ensures IsGameOver(m, gameAreaHeight)
  {
  }
}
