/** The rules of the Word Tetris game loop: the buffer countdown that
    releases each word, scoring a hit, giving up, words piling onto the
    stack, levelling up, the end-of-game test, the exam statistics and the
    missed-word card saved at the end. Frames, pixels and milliseconds are
    integers; the clock is a parameter. */
module TetrisGame {
  import opened Wrappers
  import opened Text
  import opened Ordering
  import MissedBook
  import ExamFiles

  // ---------------------------------------------------------------------
  // Buffer countdown

  datatype Lights = Lights(red: bool, yellow: bool, green: bool)

  const Dark: Lights := Lights(false, false, false)

  datatype BufferPhase = Idle | Countdown

  datatype Buffer = Buffer(phase: BufferPhase, timer: nat, lights: Lights)

  /** Frames at which the red, yellow and green lights come on and the word
      is released. */
  const RedFrame: nat := 60
  const YellowFrame: nat := 120
  const GreenFrame: nat := 180
  const ReleaseFrame: nat := 240

  /** `startBufferCountdown`: only an idle buffer starts counting. */
  function StartBufferCountdown(b: Buffer): (r: Buffer)
    ensures b.phase == Idle ==> r.phase == Countdown && r.timer == 0 && r.lights == Dark
    ensures b.phase != Idle ==> r == b
  {
    if b.phase != Idle then b else Buffer(Countdown, 0, Dark)
  }

  /** One frame of `updateBufferCountdown` and whether it released the
      waiting word. */
  datatype Tick = Tick(buffer: Buffer, released: bool)

  /** `updateBufferCountdown`. `hasNext` says whether a word is waiting;
      `releaseWord` does nothing without one, so the buffer then stays in
      its countdown. */
  function UpdateBufferCountdown(b: Buffer, hasNext: bool): (r: Tick)
    ensures b.phase != Countdown ==> r == Tick(b, false)
    ensures r.released <==> b.phase == Countdown && b.timer + 1 == ReleaseFrame && hasNext
    ensures r.released ==> r.buffer == Buffer(Idle, 0, Dark)
  {
    if b.phase != Countdown then Tick(b, false)
    else
      var t := b.timer + 1;
      if t == RedFrame then Tick(Buffer(Countdown, t, Lights(true, false, false)), false)
      else if t == YellowFrame then Tick(Buffer(Countdown, t, Lights(false, true, false)), false)
      else if t == GreenFrame then Tick(Buffer(Countdown, t, Lights(false, false, true)), false)
      else if t == ReleaseFrame && hasNext then Tick(Buffer(Idle, 0, Dark), true)
      else Tick(Buffer(Countdown, t, b.lights), false)
  }

  /** The buffer after `n` frames. */
  function Frames(b: Buffer, n: nat, hasNext: bool): Buffer
    decreases n
  {
    if n == 0 then b else UpdateBufferCountdown(Frames(b, n - 1, hasNext), hasNext).buffer
  }

  /** The lights `t` frames into a countdown: none, then red, yellow and
      green, each alone. */
  function LightsAt(t: nat): Lights {
    if t < RedFrame then Dark
    else if t < YellowFrame then Lights(true, false, false)
    else if t < GreenFrame then Lights(false, true, false)
    else Lights(false, false, true)
  }

  predicate OneLight(l: Lights) {
    (if l.red then 1 else 0) + (if l.yellow then 1 else 0) + (if l.green then 1 else 0) == 1
  }

  /** For the 240 frames after a start the buffer counts frames and shows
      the light of that moment. */
  lemma {:induction false} CountdownSchedule(n: nat, hasNext: bool)
    requires n < ReleaseFrame
    ensures Frames(StartBufferCountdown(Buffer(Idle, 0, Dark)), n, hasNext) == Buffer(Countdown, n, LightsAt(n))
    decreases n
  {
    if n > 0 {
      CountdownSchedule(n - 1, hasNext);
    }
  }

  /** From the first light on, exactly one light is lit. */
  lemma OneLightAfterRed(t: nat)
    requires t >= RedFrame
    ensures OneLight(LightsAt(t))
  {
  }

  /** The word is released on frame 240 exactly, never earlier. */
  lemma ReleaseOnFrame240(n: nat)
    requires 0 < n <= ReleaseFrame
    ensures var start := StartBufferCountdown(Buffer(Idle, 0, Dark));
            UpdateBufferCountdown(Frames(start, n - 1, true), true).released <==> n == ReleaseFrame
  {
    CountdownSchedule(n - 1, true);
  }

  /** With no word waiting the countdown never ends, which keeps new
      countdowns from starting. */
  lemma {:induction false} NoWordNoRelease(n: nat)
    ensures Frames(StartBufferCountdown(Buffer(Idle, 0, Dark)), n, false).phase == Countdown
    decreases n
  {
    if n > 0 {
      NoWordNoRelease(n - 1);
    }
  }

  // ---------------------------------------------------------------------
  // Scoring

  /** A hit within this many milliseconds of the word's release earns the
      speed bonus. */
  const FastHitMs: int := 2000

  /** `word.spawnTime || currentTime`: a missing (zero) spawn time counts
      as now. */
  function Elapsed(spawnTime: int, now: int): int {
    now - (if spawnTime == 0 then now else spawnTime)
  }

  /** `calculateScore`: one point per missing letter, half as much again
      (rounded down) for a fast hit, one more on a combo of three or
      more. */
  function CalculateScore(missing: nat, spawnTime: int, now: int, combo: nat): (r: nat)
    ensures var base := r - (if combo >= 3 then 1 else 0);
            missing <= base && 2 * base <= 3 * missing
            && (Elapsed(spawnTime, now) < FastHitMs ==> 3 * missing < 2 * base + 2)
            && (Elapsed(spawnTime, now) >= FastHitMs ==> base == missing)
  {
    var base := if Elapsed(spawnTime, now) < FastHitMs then missing + missing / 2 else missing;
    base + (if combo >= 3 then 1 else 0)
  }

  /** A fast hit never scores less than a slow one, and a combo adds
      exactly one point. */
  lemma ScoreBonuses(missing: nat, spawnTime: int, now: int, later: int, combo: nat)
    requires Elapsed(spawnTime, now) < FastHitMs <= Elapsed(spawnTime, later)
    ensures CalculateScore(missing, spawnTime, now, combo) >= CalculateScore(missing, spawnTime, later, combo)
    ensures CalculateScore(missing, spawnTime, now, 3) == CalculateScore(missing, spawnTime, now, 0) + 1
  {
  }

  // ---------------------------------------------------------------------
  // The game record

  datatype Phase = Stopped | Playing | Paused | LevelUpPause | Over

  /** A word on screen: its spelling, what the missed-word book records,
      how many letters are blanked, when it was released. */
  datatype FallingWord = FallingWord(original: string, meaning: string, phonetic: string,
                                     missing: nat, spawnTime: int, level: Option<int>)

  /** A word on the stack, with the cell `addToStack` gave it. */
  datatype StackedWord = StackedWord(word: FallingWord, giveUp: bool, row: nat, col: nat)

  datatype Game = Game(
    phase: Phase, score: int, level: int, targetScore: int, spawnRate: int,
    combo: nat, perfectLevel: bool, perfectLevels: nat, levelWordCount: nat,
    falling: seq<FallingWord>, stack: seq<StackedWord>, book: MissedBook.Book,
    hit: set<string>, fallen: set<string>, givenUp: nat, failed: nat)

  const WordsPerRow: nat := 5

  /** The `n`-th stacked word sits in row `n / 5`, column `n % 5`. */
  predicate WellStacked(stack: seq<StackedWord>) {
    forall i :: 0 <= i < |stack| ==> stack[i].row == i / WordsPerRow && stack[i].col == i % WordsPerRow
  }

  /** What every reachable game keeps true: the target follows the level,
      the score never goes negative, the spawn interval stays at or above
      120 frames, the stack is laid out row by row, every word on screen
      and every word hit has fallen, and the missed-word book counts each
      give-up and failure once. */
  predicate Inv(g: Game) {
    g.score >= 0 && g.level >= 1 && g.targetScore == 100 * g.level && g.spawnRate >= 120
    && WellStacked(g.stack)
    && (forall i :: 0 <= i < |g.falling| ==> g.falling[i].original != "" && Lower(g.falling[i].original) in g.fallen)
    && g.hit <= g.fallen
    && MissedBook.WellKeyed(g.book) && MissedBook.Balanced(g.book)
    && MissedBook.TotalMisses(g.book) == g.givenUp + g.failed
  }

  /** The constructor's game. */
  function NewGame(): (g: Game)
    ensures Inv(g) && g.phase == Stopped && g.stack == [] && g.fallen == {}
  {
    var g := Game(Stopped, 0, 1, 100, 180, 0, true, 0, 0, [], [], [], {}, {}, 0, 0);
    assert MissedBook.TotalMisses(g.book) == 0;
    assert WellStacked(g.stack) && MissedBook.WellKeyed(g.book) && MissedBook.Balanced(g.book);
    g
  }

  /** `resetGame`: score, level, words, statistics and the book are
      cleared; the spawn interval, combo and perfect flag are not. */
  function ResetGame(g: Game): (r: Game)
    ensures Inv(g) ==> Inv(r)
    ensures r.phase == Stopped && r.score == 0 && r.level == 1 && r.stack == [] && r.falling == []
    ensures r.spawnRate == g.spawnRate && r.combo == g.combo
    ensures r.book == [] && r.hit == {} && r.fallen == {} && r.givenUp == 0 && r.failed == 0 && r.perfectLevels == 0
  {
    g.(phase := Stopped, score := 0, level := 1, targetScore := 100, falling := [], stack := [],
       book := [], hit := {}, fallen := {}, givenUp := 0, failed := 0, perfectLevels := 0)
  }

  /** `addToStack`: a word without a spelling is refused; otherwise the
      miss goes into the book and the word takes the next stack cell. */
  function AddToStack(g: Game, w: FallingWord, giveUp: bool): (r: Game)
    ensures w.original == "" ==> r == g
    ensures w.original != "" ==>
              |r.stack| == |g.stack| + 1 && r.stack[..|g.stack|] == g.stack
              && r.stack[|g.stack|].word == w && r.stack[|g.stack|].giveUp == giveUp
    ensures r == g.(book := r.book, stack := r.stack)
  {
    if w.original == "" then g
    else
      var miss := MissedBook.Miss(w.original, w.meaning, w.phonetic, giveUp, w.level);
      var n := |g.stack|;
      g.(book := MissedBook.AddMissed(g.book, miss),
         stack := g.stack + [StackedWord(w, giveUp, n / WordsPerRow, n % WordsPerRow)])
  }

  /** A stacked word takes the next cell of the layout and is recorded once
      in the book, which keeps its words unique and its counts balanced. */
  lemma AddToStackKeepsLayout(g: Game, w: FallingWord, giveUp: bool)
    ensures var r := AddToStack(g, w, giveUp);
            (WellStacked(g.stack) ==> WellStacked(r.stack))
            && (MissedBook.WellKeyed(g.book) && MissedBook.Balanced(g.book) ==>
                  MissedBook.WellKeyed(r.book) && MissedBook.Balanced(r.book))
            && MissedBook.TotalMisses(r.book) == MissedBook.TotalMisses(g.book) + (if w.original == "" then 0 else 1)
  {
    if w.original != "" {
      var miss := MissedBook.Miss(w.original, w.meaning, w.phonetic, giveUp, w.level);
      MissedBook.AddMissedCountsOne(g.book, miss);
      if MissedBook.WellKeyed(g.book) && MissedBook.Balanced(g.book) {
        MissedBook.AddMissedInvariant(g.book, miss);
      }
    }
  }

  /** `releaseWord`: the waiting word starts falling at `now` and counts as
      fallen. */
  function ReleaseWord(g: Game, w: FallingWord, now: int): (r: Game)
    ensures r.falling == g.falling + [w.(spawnTime := now)]
    ensures r.fallen == g.fallen + {Lower(w.original)}
  {
    g.(falling := g.falling + [w.(spawnTime := now)], fallen := g.fallen + {Lower(w.original)})
  }

  lemma ReleaseKeepsInv(g: Game, w: FallingWord, now: int)
    requires Inv(g) && w.original != ""
    ensures Inv(ReleaseWord(g, w, now))
  {
    var r := ReleaseWord(g, w, now);
    forall i | 0 <= i < |r.falling| ensures r.falling[i].original != "" && Lower(r.falling[i].original) in r.fallen {
      if i < |g.falling| {
        assert r.falling[i] == g.falling[i];
      }
    }
  }

  /** `levelUp` as written: the stacked words go into the missed-word book
      a second time, although `addToStack` already recorded each. */
  function LevelUpAsWritten(g: Game): (r: Game)
    ensures r.level == g.level + 1 && r.targetScore == 100 * r.level
    ensures r.spawnRate == Max(120, g.spawnRate - 10)
    ensures r.stack == [] && r.combo == 0 && r.levelWordCount == 0 && r.perfectLevel
    ensures r.score == g.score + (if g.perfectLevel then 20 else 0)
  {
    var bonus := if g.perfectLevel then 20 else 0;
    g.(score := g.score + bonus, perfectLevels := g.perfectLevels + (if g.perfectLevel then 1 else 0),
       book := RecordAll(g.book, g.stack), stack := [], level := g.level + 1,
       targetScore := (g.level + 1) * 100, spawnRate := Max(120, g.spawnRate - 10),
       perfectLevel := true, combo := 0, levelWordCount := 0, phase := LevelUpPause)
  }

  /** `stackedWords.forEach(word => addMissedWord(word))`. */
  function RecordAll(book: MissedBook.Book, stack: seq<StackedWord>): (r: MissedBook.Book)
    ensures MissedBook.TotalMisses(r) == MissedBook.TotalMisses(book) + |stack|
    decreases |stack|
  {
    if |stack| == 0 then book
    else
      var s := stack[0];
      var miss := MissedBook.Miss(s.word.original, s.word.meaning, s.word.phonetic, s.giveUp, s.word.level);
      MissedBook.AddMissedCountsOne(book, miss);
      RecordAll(MissedBook.AddMissed(book, miss), stack[1..])
  }

  /** A word that fell onto the stack and stayed there until the level
      ended is in the book twice, though it was missed once. */
  lemma LevelUpCountsStackTwice(g: Game)
    requires Inv(g) && |g.stack| > 0
    ensures MissedBook.TotalMisses(LevelUpAsWritten(g).book) > LevelUpAsWritten(g).givenUp + LevelUpAsWritten(g).failed
  {
  }

  /** `levelUp` with each miss recorded once, when the word joined the
      stack: the perfect bonus, the next level and its target, a faster
      spawn interval that never drops below 120 frames, and a fresh
      level. */
  function LevelUp(g: Game): (r: Game)
    ensures r.level == g.level + 1 && r.targetScore == 100 * r.level
    ensures r.spawnRate == Max(120, g.spawnRate - 10)
    ensures r.stack == [] && r.combo == 0 && r.levelWordCount == 0 && r.perfectLevel
    ensures r.score == g.score + (if g.perfectLevel then 20 else 0)
    ensures r.book == g.book && r.hit == g.hit && r.fallen == g.fallen && r.falling == g.falling
  {
    var bonus := if g.perfectLevel then 20 else 0;
    g.(score := g.score + bonus, perfectLevels := g.perfectLevels + (if g.perfectLevel then 1 else 0),
       stack := [], level := g.level + 1,
       targetScore := (g.level + 1) * 100, spawnRate := Max(120, g.spawnRate - 10),
       perfectLevel := true, combo := 0, levelWordCount := 0, phase := LevelUpPause)
  }

  /** The spawn interval after `k` level-ups. */
  function SpawnRateAfter(rate: int, k: nat): int
    decreases k
  {
    if k == 0 then rate else Max(120, SpawnRateAfter(rate, k - 1) - 10)
  }

  /** Each level takes ten frames off the spawn interval until it reaches
      120 frames (two seconds), where it stays. */
  lemma {:induction false} SpawnRateFloor(rate: int, k: nat)
    requires k > 0
    ensures SpawnRateAfter(rate, k) == Max(120, rate - 10 * k)
    decreases k
  {
    if k > 1 {
      SpawnRateFloor(rate, k - 1);
    }
  }

  /** The first falling word `matches` accepts, if any. */
  function FirstMatch(falling: seq<FallingWord>, matches: FallingWord -> bool): (r: Option<nat>)
    ensures r.Some? ==> r.value < |falling| && matches(falling[r.value])
                        && forall k :: 0 <= k < r.value ==> !matches(falling[k])
    ensures r.None? ==> forall k :: 0 <= k < |falling| ==> !matches(falling[k])
    decreases |falling|
  {
    if |falling| == 0 then None
    else if matches(falling[0]) then Some(0)
    else
      var r := FirstMatch(falling[1..], matches);
      if r.None? then None
      else
        assert forall k :: 1 <= k <= r.value ==> falling[k] == falling[1..][k - 1];
        Some(r.value + 1)
  }

  /** `submitAnswer`. `matches(w)` is the vocabulary manager's
      `checkAnswer(w, input)`. The first word it accepts is shot down:
      its score is added, the combo grows and the word counts as hit, and
      reaching the target levels up. If none is accepted the combo and the
      perfect flag are lost. Outside play, or with a blank input, nothing
      happens. */
  function SubmitAnswer(g: Game, input: string, matches: FallingWord -> bool, now: int): (r: Game)
    ensures g.phase != Playing || Trim(input) == "" ==> r == g
    ensures g.phase == Playing && Trim(input) != "" && FirstMatch(g.falling, matches).None? ==>
              r == g.(combo := 0, perfectLevel := false)
    ensures g.phase == Playing && Trim(input) != "" && FirstMatch(g.falling, matches).Some? ==>
              var w := g.falling[FirstMatch(g.falling, matches).value];
              var points := CalculateScore(w.missing, w.spawnTime, now, g.combo);
              r.hit == g.hit + {Lower(w.original)} && r.book == g.book
              && r.falling == RemoveAt(g.falling, FirstMatch(g.falling, matches).value)
              && (g.score + points < g.targetScore ==>
                    r.score == g.score + points && r.combo == g.combo + 1 && r.level == g.level)
              && (g.score + points >= g.targetScore ==>
                    r.level == g.level + 1 && r.combo == 0 && r.stack == []
                    && r.score == g.score + points + (if g.perfectLevel then 20 else 0))
  {
    if g.phase != Playing || Trim(input) == "" then g
    else
      match FirstMatch(g.falling, matches)
      case None => g.(combo := 0, perfectLevel := false)
      case Some(i) =>
        var w := g.falling[i];
        var points := CalculateScore(w.missing, w.spawnTime, now, g.combo);
        var shot := g.(falling := RemoveAt(g.falling, i), score := g.score + points,
                       combo := g.combo + 1, hit := g.hit + {Lower(w.original)});
        if shot.score >= shot.targetScore then LevelUp(shot) else shot
  }

  /** `giveUpCurrentWord`: the oldest falling word goes onto the stack as
      given up, costing a point (never below zero) and the combo. */
  function GiveUpCurrentWord(g: Game): (r: Game)
    ensures g.phase != Playing || |g.falling| == 0 || g.falling[0].original == "" ==> r == g
    ensures g.phase == Playing && |g.falling| > 0 && g.falling[0].original != "" ==>
              r.score == Max(0, g.score - 1) && r.combo == 0 && !r.perfectLevel
              && r.falling == g.falling[1..] && r.givenUp == g.givenUp + 1
              && |r.stack| == |g.stack| + 1 && r.stack[|g.stack|] == StackedWord(g.falling[0], true, |g.stack| / 5, |g.stack| % 5)
  {
    if g.phase != Playing || |g.falling| == 0 || g.falling[0].original == "" then g
    else
      var w := g.falling[0];
      var dropped := g.(falling := g.falling[1..], score := Max(0, g.score - 1), combo := 0,
                        perfectLevel := false, givenUp := g.givenUp + 1);
      AddToStack(dropped, w, true)
  }

  /** The failure branch of `updateFallingWords`: falling word `i` touched
      the stack and joins it as failed; the combo and the perfect flag are
      lost. */
  function WordReachesStack(g: Game, i: nat): (r: Game)
    requires i < |g.falling|
    ensures r.falling == RemoveAt(g.falling, i) && r.failed == g.failed + 1 && r.combo == 0 && !r.perfectLevel
    ensures g.falling[i].original != "" ==> |r.stack| == |g.stack| + 1 && r.stack[|g.stack|].word == g.falling[i] && !r.stack[|g.stack|].giveUp
  {
    var w := g.falling[i];
    var dropped := g.(falling := RemoveAt(g.falling, i));
    var stacked := AddToStack(dropped, w, false);
    stacked.(combo := 0, perfectLevel := false, failed := g.failed + 1)
  }

  /** Every move of the game keeps the invariant. */
  lemma LevelUpKeepsInv(g: Game)
    requires Inv(g)
    ensures Inv(LevelUp(g))
  {
  }

  lemma SubmitKeepsInv(g: Game, input: string, matches: FallingWord -> bool, now: int)
    requires Inv(g)
    ensures Inv(SubmitAnswer(g, input, matches, now))
  {
    if g.phase == Playing && Trim(input) != "" && FirstMatch(g.falling, matches).Some? {
      var i := FirstMatch(g.falling, matches).value;
      var w := g.falling[i];
      var rest := RemoveAt(g.falling, i);
      assert forall k :: 0 <= k < |rest| ==> rest[k] in g.falling;
    }
  }

  lemma GiveUpKeepsInv(g: Game)
    requires Inv(g)
    ensures Inv(GiveUpCurrentWord(g))
  {
    if g.phase == Playing && |g.falling| > 0 && g.falling[0].original != "" {
      var w := g.falling[0];
      var dropped := g.(falling := g.falling[1..], score := Max(0, g.score - 1), combo := 0,
                        perfectLevel := false, givenUp := g.givenUp + 1);
      AddToStackKeepsLayout(dropped, w, true);
    }
  }

  lemma WordReachesStackKeepsInv(g: Game, i: nat)
    requires Inv(g) && i < |g.falling|
    ensures Inv(WordReachesStack(g, i))
  {
    var w := g.falling[i];
    var dropped := g.(falling := RemoveAt(g.falling, i));
    AddToStackKeepsLayout(dropped, w, false);
    assert forall k :: 0 <= k < |dropped.falling| ==> dropped.falling[k] in g.falling;
  }

  // ---------------------------------------------------------------------
  // Stack height and game over

  const WordHeight: int := 50

  /** `getStackTopY`: the canvas bottom for an empty stack, else the top
      edge of the highest row (rows are 50 pixels plus a 2-pixel gap). */
  function StackTopY(canvasHeight: int, n: nat): (r: int)
    ensures n == 0 ==> r == canvasHeight
    ensures n > 0 ==> r == canvasHeight - WordHeight - ((n - 1) / WordsPerRow) * (WordHeight + 2)
  {
    if n == 0 then canvasHeight
    else canvasHeight - WordHeight - ((n - 1) / WordsPerRow) * (WordHeight + 2)
  }

  /** `checkGameOver`: the stack has climbed to within a word of the
      buffer. */
  predicate IsGameOver(g: Game, canvasHeight: int, gameAreaTop: int) {
    StackTopY(canvasHeight, |g.stack|) <= gameAreaTop + WordHeight
  }

  /** A taller stack never has a lower top edge. */
  lemma StackTopMonotone(canvasHeight: int, n: nat, m: nat)
    requires n <= m
    ensures StackTopY(canvasHeight, m) <= StackTopY(canvasHeight, n)
  {
    if 0 < n {
      assert (n - 1) / WordsPerRow <= (m - 1) / WordsPerRow;
      MulLeq((n - 1) / WordsPerRow, (m - 1) / WordsPerRow, 52);
    }
  }

  /** Once the stack has reached the top it stays there: more stacked words
      never end the game-over state. */
  lemma GameOverStays(g: Game, h: Game, canvasHeight: int, gameAreaTop: int)
    requires |g.stack| <= |h.stack|
    requires IsGameOver(g, canvasHeight, gameAreaTop)
    ensures IsGameOver(h, canvasHeight, gameAreaTop)
  {
    StackTopMonotone(canvasHeight, |g.stack|, |h.stack|);
  }

  /** Every five words start a new row 52 pixels higher. */
  lemma NewRowEveryFiveWords(canvasHeight: int, k: nat)
    ensures StackTopY(canvasHeight, 5 * k + 1) == canvasHeight - WordHeight - 52 * k
    ensures StackTopY(canvasHeight, 5 * k + 5) == StackTopY(canvasHeight, 5 * k + 1)
  {
  }

  // ---------------------------------------------------------------------
  // Exam statistics and completion

  datatype ExamStats = ExamStats(remaining: nat, hitPercentage: nat, coveragePercentage: nat)

  /** `updateExamStats`: words not yet fallen (never negative), the share
      of fallen words hit, and the share of the whole word list hit; a
      zero denominator gives 0. */
  function UpdateExamStats(totalWords: nat, g: Game): (r: ExamStats)
    ensures r.remaining + |g.fallen| >= totalWords
    ensures |g.fallen| <= totalWords ==> r.remaining == totalWords - |g.fallen|
    ensures |g.fallen| >= totalWords ==> r.remaining == 0
    ensures |g.fallen| == 0 ==> r.hitPercentage == 0
    ensures totalWords == 0 ==> r.coveragePercentage == 0
  {
    var fallen := |g.fallen|;
    ExamStats(if totalWords > fallen then totalWords - fallen else 0,
              Percent(|g.hit|, fallen), Percent(|g.hit|, totalWords))
  }

  /** The hit percentage the game hands to the exam when it completes is
      the exam's own correct rate, and in a reachable game it is at most
      100. */
  lemma HitPercentageIsCorrectRate(totalWords: nat, g: Game)
    requires Inv(g)
    ensures UpdateExamStats(totalWords, g).hitPercentage
         == ExamFiles.ExamCorrectRate(Some(ExamFiles.ExamCounts(|g.hit|, |g.fallen|)))
    ensures UpdateExamStats(totalWords, g).hitPercentage <= 100
  {
    SubsetSize(g.hit, g.fallen);
    if |g.fallen| > 0 {
      PercentBounds(|g.hit|, |g.fallen|, 0);
    }
  }

  lemma SubsetSize<T>(a: set<T>, b: set<T>)
    requires a <= b
    ensures |a| <= |b|
  {
    assert b == a + (b - a);
  }

  /** `checkAllWordsCompleted` and `checkGameCompletion`: the game is
      complete once the words are loaded, the pool and the waiting slot are
      empty, nothing is falling and the buffer is idle; it is reported
      once. */
  function GameComplete(loaded: bool, poolEmpty: bool, hasNext: bool, g: Game, b: Buffer, alreadyTriggered: bool): (r: bool)
    ensures r ==> !alreadyTriggered && loaded && poolEmpty && !hasNext && |g.falling| == 0 && b.phase == Idle
    ensures !alreadyTriggered && loaded && poolEmpty && !hasNext && |g.falling| == 0 && b.phase == Idle ==> r
  {
    !alreadyTriggered && loaded && poolEmpty && !hasNext && |g.falling| == 0 && b.phase == Idle
  }

  // ---------------------------------------------------------------------
  // The missed-word card saved at the end of a game

  /** A word on a saved card. */
  datatype CardWord = CardWord(word: string, phonetic: string, meaning: string, errorCount: nat)

  /** A word of the game's missed-word book as the card saver sees it. */
  datatype BookWord = BookWord(word: string, original: string, phonetic: string, meaning: string)

  /** `word.word || word.original`. */
  function Spelling(w: BookWord): string {
    if w.word != "" then w.word else w.original
  }

  /** A `Map` from lower-cased spellings, in insertion order. */
  type CardMap = seq<(string, CardWord)>

  predicate GoodMap(m: CardMap) {
    (forall i, j :: 0 <= i < j < |m| ==> m[i].0 != m[j].0)
    && forall i :: 0 <= i < |m| ==> Lower(m[i].1.word) == m[i].0
  }

  function Find(m: CardMap, k: string): (r: Option<nat>)
    ensures r.Some? ==> r.value < |m| && m[r.value].0 == k
    ensures r.None? ==> forall i :: 0 <= i < |m| ==> m[i].0 != k
    decreases |m|
  {
    if |m| == 0 then None
    else if m[|m| - 1].0 == k then Some(|m| - 1)
    else Find(m[..|m| - 1], k)
  }

  function Get(m: CardMap, k: string): Option<CardWord> {
    match Find(m, k)
    case Some(i) => Some(m[i].1)
    case None => None
  }

  /** `wordMap.set(key, w)` for a word already on the card. */
  function Put(m: CardMap, k: string, v: CardWord): (r: CardMap)
    ensures |r| >= |m|
  {
    match Find(m, k)
    case Some(i) => m[i := (k, v)]
    case None => m + [(k, v)]
  }

  lemma PutGet(m: CardMap, k: string, v: CardWord, k2: string)
    requires GoodMap(m)
    ensures Get(Put(m, k, v), k2) == if k2 == k then Some(v) else Get(m, k2)
    ensures Lower(v.word) == k ==> GoodMap(Put(m, k, v))
  {
    var r := Put(m, k, v);
    match Find(m, k) {
      case Some(i) =>
        FindSameKeys(m, r, k2);
        if k2 == k {
          FindUnique(m, k, i);
        }
      case None =>
        assert r[..|m|] == m;
    }
  }

  /** Two maps with the same keys in the same order find a key at the same
      place. */
  lemma {:induction false} FindSameKeys(m: CardMap, r: CardMap, k: string)
    requires |m| == |r| && forall i :: 0 <= i < |m| ==> m[i].0 == r[i].0
    ensures Find(m, k) == Find(r, k)
    decreases |m|
  {
    if |m| > 0 && m[|m| - 1].0 != k {
      FindSameKeys(m[..|m| - 1], r[..|r| - 1], k);
    }
  }

  lemma FindUnique(m: CardMap, k: string, j: nat)
    requires (forall i, i2 :: 0 <= i < i2 < |m| ==> m[i].0 != m[i2].0) && j < |m| && m[j].0 == k
    ensures Find(m, k) == Some(j)
  {
  }

  /** `existingWords.forEach`: words with a spelling go in under their
      lower-cased spelling. */
  function SeedMap(m: CardMap, existing: seq<CardWord>): (r: CardMap)
    decreases |existing|
  {
    if |existing| == 0 then m
    else
      var w := existing[0];
      SeedMap(if w.word != "" then Put(m, Lower(w.word), w) else m, existing[1..])
  }

  /** One book word: a repeat adds to the error count, a new spelling
      starts at 1. */
  function AddBookWord(m: CardMap, w: BookWord): (r: CardMap) {
    var k := Lower(Spelling(w));
    match Get(m, k)
    case Some(e) => Put(m, k, e.(errorCount := OrOne(e.errorCount) + 1))
    case None => Put(m, k, CardWord(Spelling(w), w.phonetic, w.meaning, 1))
  }

  function AddBookWords(m: CardMap, book: seq<BookWord>): (r: CardMap)
    decreases |book|
  {
    if |book| == 0 then m else AddBookWords(AddBookWord(m, book[0]), book[1..])
  }

  /** How many book words share the spelling key `k`. */
  function Occurrences(book: seq<BookWord>, k: string): nat
    decreases |book|
  {
    if |book| == 0 then 0
    else (if Lower(Spelling(book[0])) == k then 1 else 0) + Occurrences(book[1..], k)
  }

  /** One book word changes only its own key: a repeat bumps the error
      count (a missing count counting as 1), a new spelling starts at 1. */
  lemma AddBookWordStep(m: CardMap, w: BookWord, k: string)
    requires GoodMap(m)
    ensures GoodMap(AddBookWord(m, w))
    ensures k != Lower(Spelling(w)) ==> Get(AddBookWord(m, w), k) == Get(m, k)
    ensures k == Lower(Spelling(w)) ==>
              Get(AddBookWord(m, w), k).Some?
              && Get(AddBookWord(m, w), k).value.errorCount
                 == (if Get(m, k).Some? then OrOne(Get(m, k).value.errorCount) + 1 else 1)
  {
    var kw := Lower(Spelling(w));
    if Get(m, kw).Some? {
      var e := Get(m, kw).value;
      var i := Find(m, kw).value;
      assert m[i].1 == e;
      PutGet(m, kw, e.(errorCount := OrOne(e.errorCount) + 1), k);
    } else {
      PutGet(m, kw, CardWord(Spelling(w), w.phonetic, w.meaning, 1), k);
    }
  }

  /** After the whole book, a key's error count has grown by the number of
      book words with that spelling; a spelling new to the card counts
      exactly its occurrences. */
  lemma {:induction false} AddBookWordsCounts(m: CardMap, book: seq<BookWord>, k: string)
    requires GoodMap(m)
    ensures GoodMap(AddBookWords(m, book))
    ensures var c := Occurrences(book, k);
            var after := Get(AddBookWords(m, book), k);
            if c == 0 then after == Get(m, k)
            else after.Some?
                 && after.value.errorCount == (if Get(m, k).Some? then OrOne(Get(m, k).value.errorCount) + c else c)
    decreases |book|
  {
    if |book| > 0 {
      var m1 := AddBookWord(m, book[0]);
      AddBookWordStep(m, book[0], k);
      AddBookWordsCounts(m1, book[1..], k);
      assert AddBookWords(m, book) == AddBookWords(m1, book[1..]);
      assert Occurrences(book, k) == (if Lower(Spelling(book[0])) == k then 1 else 0) + Occurrences(book[1..], k);
    }
  }

  /** The card words already present: every one with a spelling, under its
      lower-cased spelling. */
  lemma {:induction false} SeedMapKeys(m: CardMap, existing: seq<CardWord>, k: string)
    requires GoodMap(m)
    ensures GoodMap(SeedMap(m, existing))
    ensures (Get(m, k).None? && forall i :: 0 <= i < |existing| ==> existing[i].word == "" || Lower(existing[i].word) != k)
            ==> Get(SeedMap(m, existing), k).None?
    decreases |existing|
  {
    if |existing| > 0 {
      var w := existing[0];
      var m1 := if w.word != "" then Put(m, Lower(w.word), w) else m;
      if w.word != "" {
        PutGet(m, Lower(w.word), w, k);
      }
      SeedMapKeys(m1, existing[1..], k);
      if Get(m, k).None? && forall i :: 0 <= i < |existing| ==> existing[i].word == "" || Lower(existing[i].word) != k {
        assert forall i :: 0 <= i < |existing[1..]| ==> existing[1..][i] == existing[i + 1];
      }
    }
  }

  function Values(m: CardMap): (r: seq<CardWord>)
    ensures |r| == |m| && forall i :: 0 <= i < |m| ==> r[i] == m[i].1
  {
    seq(|m|, i requires 0 <= i < |m| => m[i].1)
  }

  /** `saveMissedWordsToGlobal`'s merge: the card's words keyed by
      lower-cased spelling, then each missed word of this game, in
      order. */
  function MergeMissedWords(existing: seq<CardWord>, book: seq<BookWord>): (r: seq<CardWord>) {
    Values(AddBookWords(SeedMap([], existing), book))
  }

  /** No two words of the merged card share a spelling up to case, and a
      spelling the card did not have yet appears iff the game missed it,
      with an error count equal to the number of times it was missed. */
  lemma MergeMissedWordsCounts(existing: seq<CardWord>, book: seq<BookWord>, k: string)
    requires forall i :: 0 <= i < |existing| ==> existing[i].word == "" || Lower(existing[i].word) != k
    ensures var r := MergeMissedWords(existing, book);
            (forall i, j :: 0 <= i < j < |r| ==> Lower(r[i].word) != Lower(r[j].word))
            && (Occurrences(book, k) == 0 ==> forall i :: 0 <= i < |r| ==> Lower(r[i].word) != k)
            && (Occurrences(book, k) > 0 ==>
                  exists i :: 0 <= i < |r| && Lower(r[i].word) == k && r[i].errorCount == Occurrences(book, k))
  {
    var seed := SeedMap([], existing);
    SeedMapKeys([], existing, k);
    AddBookWordsCounts(seed, book, k);
    var m := AddBookWords(seed, book);
    var r := Values(m);
    if Occurrences(book, k) > 0 {
      var i := Find(m, k).value;
      assert Lower(r[i].word) == k;
    }
  }
}
