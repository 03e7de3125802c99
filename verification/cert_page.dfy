/** What the certification page derives from the progress record
    (`CertificationPage`): the hover text of a tree node, the rendering of
    an exam duration, which sub-nodes it draws as open and the counters of
    the statistics bar. */
module CertPage {
  import opened Wrappers
  import opened Text
  import opened Ordering
  import opened CertStorage
  import opened CertSystem

  // ----- durations -----

  /** `_formatDuration`: nothing for a missing duration, `{m}m{s}s` from
      one minute on, else `{s}s`. */
  function FormatDuration(seconds: Option<nat>): (r: string)
    ensures r == "" <==> seconds.None?
    ensures seconds.Some? ==> r[|r| - 1] == 's' && ('m' in r <==> seconds.value >= 60)
  {
    match seconds
    case None => ""
    case Some(s) =>
      NoLetterInNumber(s / 60);
      NoLetterInNumber(s % 60);
      if s / 60 > 0 then NatToString(s / 60) + "m" + NatToString(s % 60) + "s"
      else NatToString(s % 60) + "s"
  }

  lemma NoLetterInNumber(n: nat)
    ensures 'm' !in NatToString(n) && 's' !in NatToString(n)
  {
    var t := NatToString(n);
    assert forall i :: 0 <= i < |t| ==> IsDigit(t[i]);
  }

  predicate AllDigits(s: string) {
    forall i :: 0 <= i < |s| ==> IsDigit(s[i])
  }

  /** Reading a rendered duration back: `{s}s` or `{m}m{s}s` with decimal
      numbers. */
  function ParseDuration(t: string): Option<nat> {
    if |t| == 0 || t[|t| - 1] != 's' then None
    else ReadParts(Split(t[..|t| - 1], 'm'))
  }

  /** The pieces around the `m`: seconds alone, or minutes and seconds. */
  function ReadParts(parts: seq<string>): Option<nat> {
    if |parts| == 1 && parts[0] != "" && AllDigits(parts[0]) then Some(DigitsValue(parts[0]))
    else if |parts| == 2 && parts[0] != "" && parts[1] != "" && AllDigits(parts[0]) && AllDigits(parts[1]) then
      Some(DigitsValue(parts[0]) * 60 + DigitsValue(parts[1]))
    else None
  }

  /** A rendered duration reads back as the same number of seconds. */
  lemma DurationRoundTrip(s: nat)
    ensures ParseDuration(FormatDuration(Some(s))) == Some(s)
  {
    var m := NatToString(s / 60);
    var sec := NatToString(s % 60);
    NoLetterInNumber(s / 60);
    NoLetterInNumber(s % 60);
    NatToStringValue(s / 60);
    NatToStringValue(s % 60);
    if s / 60 > 0 {
      ParseMinutesSeconds(m, sec);
    } else {
      ParseSeconds(sec);
    }
  }

  lemma ParseMinutesSeconds(m: string, sec: string)
    requires m != "" && sec != "" && AllDigits(m) && AllDigits(sec)
    ensures ParseDuration(m + "m" + sec + "s") == Some(DigitsValue(m) * 60 + DigitsValue(sec))
  {
    var t := m + "m" + sec + "s";
    assert t[..|t| - 1] == m + ['m'] + sec;
    assert 'm' !in m && 'm' !in sec by {
      assert !IsDigit('m');
    }
    SplitAfterPiece(m, 'm', sec);
    SplitNoSeparator(sec, 'm');
    assert Split(t[..|t| - 1], 'm') == [m, sec];
    assert t[|t| - 1] == 's';
    ReadTwoParts(m, sec);
  }

  lemma ReadTwoParts(m: string, sec: string)
    requires m != "" && sec != "" && AllDigits(m) && AllDigits(sec)
    ensures ReadParts([m, sec]) == Some(DigitsValue(m) * 60 + DigitsValue(sec))
  {
  }

  lemma ParseSeconds(sec: string)
    requires sec != "" && AllDigits(sec)
    ensures ParseDuration(sec + "s") == Some(DigitsValue(sec))
  {
    var t := sec + "s";
    assert t[..|t| - 1] == sec;
    assert 'm' !in sec by {
      assert !IsDigit('m');
    }
    SplitNoSeparator(sec, 'm');
    assert t[|t| - 1] == 's';
  }

  // ----- node tooltips -----

  datatype Tooltip =
    | LockedTip
    | CoolingTip(remaining: string)
    | PassedTip(score: int, time: Option<string>)
    | FailedTip(best: int)
    | StartTip

  /** `_getNodeTooltip` with its four arguments: locked, then cooling down
      (when there is a text to show), then passed, then tried, else ready. */
  function NodeTooltip(d: Option<LevelData>, unlocked: bool, inCooldown: bool, cooldownText: string): Tooltip {
    if !unlocked then LockedTip
    else if inCooldown && cooldownText != "" then CoolingTip(cooldownText)
    else if d.Some? && d.value.passed then
      PassedTip(d.value.score, if d.value.bestDuration.Some? then Some(FormatDuration(d.value.bestDuration)) else None)
    else if d.Some? && d.value.attempts > 0 then FailedTip(d.value.score)
    else StartTip
  }

  /** The tooltip a sub-node shows: the cooldown arguments come from the
      record at time `now`, as the render helpers compute them. */
  function ShownTooltip(d: Option<LevelData>, unlocked: bool, now: int): (t: Tooltip)
    ensures !unlocked ==> t == LockedTip
    ensures unlocked && d.Some? && IsInCooldown(d.value, now) ==>
              t == CoolingTip(FormatCooldownTime(d.value, now)) && t.remaining != ""
    ensures unlocked && (d.None? || !IsInCooldown(d.value, now)) ==>
              (t.PassedTip? <==> d.Some? && d.value.passed)
              && (t.FailedTip? <==> d.Some? && !d.value.passed && d.value.attempts > 0)
              && (t.StartTip? <==> d.None? || (!d.value.passed && d.value.attempts == 0))
    ensures t.PassedTip? ==> (t.time.Some? <==> d.value.bestDuration.Some?)
    ensures t.PassedTip? && t.time.Some? ==> ParseDuration(t.time.value) == d.value.bestDuration
  {
    var cooling := d.Some? && IsInCooldown(d.value, now);
    var text := if cooling then FormatCooldownTime(d.value, now) else "";
    var t := NodeTooltip(d, unlocked, cooling, text);
    if t.PassedTip? && t.time.Some? then
      DurationRoundTrip(d.value.bestDuration.value);
      t
    else t
  }

  // ----- which sub-nodes the tree draws as open -----

  /** The phonics sub-node `idx`: the first is open, each later one when the
      level before it is passed. */
  predicate PhonicsNodeOpen(p: Progress, idx: nat)
    requires idx < |PhonicsLevels|
  {
    idx == 0 || Passed(p, PhonicsLevel(PhonicsLevels[idx - 1]))
  }

  /** The tree draws a phonics level open exactly when the exam rules open
      it. */
  lemma PhonicsNodeAgrees(p: Progress, idx: nat)
    requires idx < |PhonicsLevels|
    ensures PhonicsNodeOpen(p, idx) <==> IsLevelUnlocked(p, Phonics, PhonicsLevels[idx], None)
  {
    PhonicsChain(p, idx, None);
  }

  /** Whether the grade at position `gi` is drawn as reachable: the phonics
      badge for the first grade, the previous grade's badge for the
      others. */
  predicate GradeOpen(p: Progress, gi: nat)
    requires gi < |GradeOrder|
  {
    if gi == 0 then HasBadge(p, PhonicsBadge) else HasBadge(p, GroupBadge(PrimaryB, GradeOrder[gi - 1]))
  }

  /** The term sub-node `ti` of the grade at `gi`: the first term when the
      grade is reachable, the second when the first is passed. */
  predicate TermNodeOpen(p: Progress, gi: nat, ti: nat)
    requires gi < |GradeOrder| && ti < |Terms|
  {
    if ti == 0 then GradeOpen(p, gi) else Passed(p, GroupLevel(PrimaryB, GradeOrder[gi], "term1"))
  }

  /** Once the phonics badge is held, the tree draws a term open exactly
      when the exam rules open it. */
  lemma TermNodeAgrees(p: Progress, gi: nat, ti: nat)
    requires gi < |GradeOrder| && ti < |Terms|
    requires HasBadge(p, PhonicsBadge)
    ensures TermNodeOpen(p, gi, ti) <==> IsLevelUnlocked(p, PrimaryGrades, GradeOrder[gi], Some(Terms[ti]))
  {
    assert IndexOf(GradeOrder, GradeOrder[gi]) == gi;
  }

  // ----- statistics -----

  /** How many of `names` are passed levels of `m`. */
  function CountPassed(m: map<string, LevelData>, names: seq<string>): (n: nat)
    ensures n <= |names|
    decreases |names|
  {
    if |names| == 0 then 0
    else (if names[0] in m && m[names[0]].passed then 1 else 0) + CountPassed(m, names[1..])
  }

  /** The attempts recorded for `names` in `m`. */
  function SumAttempts(m: map<string, LevelData>, names: seq<string>): nat
    decreases |names|
  {
    if |names| == 0 then 0
    else (if names[0] in m then m[names[0]].attempts else 0) + SumAttempts(m, names[1..])
  }

  /** `grade?.term1?.passed`, `grade?.term2?.passed` counted. */
  function TermsPassed(p: Progress, g: string): (n: nat)
    ensures n <= 2
  {
    (if Passed(p, GroupLevel(PrimaryB, g, "term1")) then 1 else 0)
    + (if Passed(p, GroupLevel(PrimaryB, g, "term2")) then 1 else 0)
  }

  function AttemptsAt(p: Progress, s: Slot): nat {
    match ReadSlot(p, s)
    case None => 0
    case Some(d) => d.attempts
  }

  function GradeTermsPassed(p: Progress, grades: seq<string>): (n: nat)
    ensures n <= 2 * |grades|
    decreases |grades|
  {
    if |grades| == 0 then 0 else TermsPassed(p, grades[0]) + GradeTermsPassed(p, grades[1..])
  }

  function GradeTermAttempts(p: Progress, grades: seq<string>): nat
    decreases |grades|
  {
    if |grades| == 0 then 0
    else AttemptsAt(p, GroupLevel(PrimaryB, grades[0], "term1")) + AttemptsAt(p, GroupLevel(PrimaryB, grades[0], "term2"))
         + GradeTermAttempts(p, grades[1..])
  }

  /** The numbers `updateStats` shows. `phonicsKeys` is the order
      `Object.values` visits the phonics levels in. */
  datatype Stats = Stats(badgeCount: nat, levelsPassed: nat, totalAttempts: nat)

  /** `updateStats`: the badge count, and passed levels and attempts over
      the phonics levels and the grade terms only. */
  function UpdateStats(p: Progress, phonicsKeys: seq<string>): (s: Stats)
    requires Distinct(phonicsKeys) && ToSet(phonicsKeys) == p.phonics.levels.Keys
    ensures s.badgeCount == |EarnedBadges(p)|
    ensures s.levelsPassed <= |p.phonics.levels| + 2 * |GradeOrder|
  {
    ToSetSize(phonicsKeys);
    Stats(|EarnedBadges(p)|,
          CountPassed(p.phonics.levels, phonicsKeys) + GradeTermsPassed(p, GradeOrder),
          SumAttempts(p.phonics.levels, phonicsKeys) + GradeTermAttempts(p, GradeOrder))
  }

  /** Passed levels are counted from the record's contents, not from the
      key order: the count is the size of the set of passed keys. */
  lemma {:induction false} CountPassedIsSetSize(m: map<string, LevelData>, names: seq<string>)
    requires Distinct(names)
    ensures CountPassed(m, names) == |set i | 0 <= i < |names| && names[i] in m && m[names[i]].passed :: names[i]|
    decreases |names|
  {
    var here := set i | 0 <= i < |names| && names[i] in m && m[names[i]].passed :: names[i];
    if |names| > 0 {
      var rest := names[1..];
      CountPassedIsSetSize(m, rest);
      var there := set i | 0 <= i < |rest| && rest[i] in m && m[rest[i]].passed :: rest[i];
      assert forall i :: 0 < i < |names| ==> names[i] == rest[i - 1];
      assert names[0] !in there;
      if names[0] in m && m[names[0]].passed {
        assert here == {names[0]} + there;
      } else {
        assert here == there;
      }
    } else {
      assert here == {};
    }
  }

  /** Two records that agree on the phonics levels and the grade terms show
      the same passed-level and attempt counts. */
  lemma {:induction false} GradeCountsAgree(p: Progress, q: Progress, grades: seq<string>)
    requires forall g, t :: ReadSlot(q, GroupLevel(PrimaryB, g, t)) == ReadSlot(p, GroupLevel(PrimaryB, g, t))
    ensures GradeTermsPassed(q, grades) == GradeTermsPassed(p, grades)
    ensures GradeTermAttempts(q, grades) == GradeTermAttempts(p, grades)
    decreases |grades|
  {
    if |grades| > 0 {
      GradeCountsAgree(p, q, grades[1..]);
      var g := grades[0];
      assert ReadSlot(q, GroupLevel(PrimaryB, g, "term1")) == ReadSlot(p, GroupLevel(PrimaryB, g, "term1"));
      assert ReadSlot(q, GroupLevel(PrimaryB, g, "term2")) == ReadSlot(p, GroupLevel(PrimaryB, g, "term2"));
    }
  }

  lemma SameLevels(p: Progress, q: Progress)
    requires forall n :: ReadSlot(q, PhonicsLevel(n)) == ReadSlot(p, PhonicsLevel(n))
    ensures q.phonics.levels == p.phonics.levels
  {
    forall n | n in q.phonics.levels ensures n in p.phonics.levels && q.phonics.levels[n] == p.phonics.levels[n] {
      assert ReadSlot(q, PhonicsLevel(n)) == ReadSlot(p, PhonicsLevel(n));
    }
    forall n | n in p.phonics.levels ensures n in q.phonics.levels {
      assert ReadSlot(q, PhonicsLevel(n)) == ReadSlot(p, PhonicsLevel(n));
    }
  }

  /** Exams of the books, of the academic stages and every final exam are
      left out of the passed-level and attempt counts. */
  lemma OtherExamsNotCounted(p: Progress, series: Series, major: string, minor: Option<string>,
                             rate: int, duration: Option<nat>, now: int, phonicsKeys: seq<string>)
    requires series in {Extracurricular, Academic} || IsFinal(minor)
    requires Distinct(phonicsKeys) && ToSet(phonicsKeys) == p.phonics.levels.Keys
    ensures var q := SubmitExamResult(p, series, major, minor, rate, duration, now).1;
            q.phonics.levels == p.phonics.levels
            && UpdateStats(q, phonicsKeys).levelsPassed == UpdateStats(p, phonicsKeys).levelsPassed
            && UpdateStats(q, phonicsKeys).totalAttempts == UpdateStats(p, phonicsKeys).totalAttempts
  {
    var q := SubmitExamResult(p, series, major, minor, rate, duration, now).1;
    forall n ensures ReadSlot(q, PhonicsLevel(n)) == ReadSlot(p, PhonicsLevel(n)) {
      SubmitFrame(p, series, major, minor, rate, duration, now, PhonicsLevel(n));
    }
    forall g, t ensures ReadSlot(q, GroupLevel(PrimaryB, g, t)) == ReadSlot(p, GroupLevel(PrimaryB, g, t)) {
      SubmitFrame(p, series, major, minor, rate, duration, now, GroupLevel(PrimaryB, g, t));
    }
    StatsAgree(p, q, phonicsKeys);
  }

  /** Two records that agree on every phonics level and every primary
      grade term have the same passed-level and attempt counts. */
  lemma StatsAgree(p: Progress, q: Progress, phonicsKeys: seq<string>)
    requires Distinct(phonicsKeys) && ToSet(phonicsKeys) == p.phonics.levels.Keys
    requires forall n :: ReadSlot(q, PhonicsLevel(n)) == ReadSlot(p, PhonicsLevel(n))
    requires forall g, t :: ReadSlot(q, GroupLevel(PrimaryB, g, t)) == ReadSlot(p, GroupLevel(PrimaryB, g, t))
    ensures q.phonics.levels == p.phonics.levels
    ensures UpdateStats(q, phonicsKeys).levelsPassed == UpdateStats(p, phonicsKeys).levelsPassed
    ensures UpdateStats(q, phonicsKeys).totalAttempts == UpdateStats(p, phonicsKeys).totalAttempts
  {
    SameLevels(p, q);
    GradeCountsAgree(p, q, GradeOrder);
  }

  lemma {:induction false} CountPassedUpdate(m: map<string, LevelData>, names: seq<string>, k: string, d: LevelData)
    requires Distinct(names) && k in m && k in names
    ensures CountPassed(m[k := d], names) + (if m[k].passed then 1 else 0) == CountPassed(m, names) + (if d.passed then 1 else 0)
    ensures SumAttempts(m[k := d], names) + m[k].attempts == SumAttempts(m, names) + d.attempts
    decreases |names|
  {
    if names[0] == k {
      assert k !in names[1..];
      CountPassedOther(m, names[1..], k, d);
    } else {
      CountPassedUpdate(m, names[1..], k, d);
    }
  }

  lemma {:induction false} CountPassedOther(m: map<string, LevelData>, names: seq<string>, k: string, d: LevelData)
    requires k !in names
    ensures CountPassed(m[k := d], names) == CountPassed(m, names)
    ensures SumAttempts(m[k := d], names) == SumAttempts(m, names)
    decreases |names|
  {
    if |names| > 0 {
      CountPassedOther(m, names[1..], k, d);
    }
  }

  /** Passing a phonics level for the first time adds exactly one passed
      level, and every attempt adds one to the attempt count. */
  lemma PhonicsPassCountsOne(p: Progress, major: string, rate: int, duration: Option<nat>, now: int, phonicsKeys: seq<string>)
    requires Distinct(phonicsKeys) && ToSet(phonicsKeys) == p.phonics.levels.Keys
    requires major in p.phonics.levels
    ensures var q := SubmitExamResult(p, Phonics, major, None, rate, duration, now).1;
            var before := UpdateStats(p, phonicsKeys);
            q.phonics.levels.Keys == p.phonics.levels.Keys
            && UpdateStats(q, phonicsKeys).totalAttempts == before.totalAttempts + 1
            && (!p.phonics.levels[major].passed && rate >= PassThreshold ==>
                  UpdateStats(q, phonicsKeys).levelsPassed == before.levelsPassed + 1)
  {
    var q := SubmitExamResult(p, Phonics, major, None, rate, duration, now).1;
    var d := p.phonics.levels[major];
    var nd := UpdateLevel(d, rate, duration, now);
    assert q.phonics.levels == p.phonics.levels[major := nd];
    forall g, t ensures ReadSlot(q, GroupLevel(PrimaryB, g, t)) == ReadSlot(p, GroupLevel(PrimaryB, g, t)) {
      SubmitFrame(p, Phonics, major, None, rate, duration, now, GroupLevel(PrimaryB, g, t));
    }
    GradeCountsAgree(p, q, GradeOrder);
    assert major in ToSet(phonicsKeys);
    CountPassedUpdate(p.phonics.levels, phonicsKeys, major, nd);
  }
}
