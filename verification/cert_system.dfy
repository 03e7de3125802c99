/** The certification rules (`CertificationSystem`): which exams are open,
    what submitting a result does to the record, when a badge is earned
    and what it opens. A level is named, as in the source, by a series, a
    major level and an optional minor level, `finalExam` naming a group's
    final exam. */
module CertSystem {
  import opened Wrappers
  import opened Ordering
  import opened CertStorage

  /** A result of at least 90 percent passes. */
  const PassThreshold: int := 90
  const FinalExam: string := "finalExam"

  datatype Series = Phonics | PrimaryGrades | Extracurricular | Academic | OtherSeries

  /** `if (minorLevel)`: a minor level is given and is not empty. */
  predicate HasMinor(minor: Option<string>) {
    minor.Some? && minor.value != ""
  }

  predicate IsFinal(minor: Option<string>) {
    minor == Some(FinalExam)
  }

  /** `Array.prototype.indexOf`: the first position of `x`, or -1. */
  function IndexOf(s: seq<string>, x: string): (r: int)
    ensures -1 <= r < |s|
    ensures r == -1 <==> x !in s
    ensures r >= 0 ==> s[r] == x && forall i :: 0 <= i < r ==> s[i] != x
    decreases |s|
  {
    if |s| == 0 then -1
    else if s[0] == x then 0
    else
      var k := IndexOf(s[1..], x);
      if k == -1 then -1 else k + 1
  }

  // ----- where a level's record lives -----

  datatype BranchId = PrimaryB | BooksB | AcademicB

  function BranchOf(p: Progress, b: BranchId): Branch {
    match b
    case PrimaryB => p.primary
    case BooksB => p.books
    case AcademicB => p.academic
  }

  function WithBranch(p: Progress, b: BranchId, br: Branch): (q: Progress)
    ensures BranchOf(q, b) == br
    ensures forall c :: c != b ==> BranchOf(q, c) == BranchOf(p, c)
    ensures q.phonics == p.phonics && q.phonicsUnlocked == p.phonicsUnlocked
  {
    match b
    case PrimaryB => p.(primary := br)
    case BooksB => p.(books := br)
    case AcademicB => p.(academic := br)
  }

  /** The place of one exam record in the progress. */
  datatype Slot =
    | PhonicsFinal
    | PhonicsLevel(name: string)
    | GroupFinal(branch: BranchId, group: string)
    | GroupLevel(branch: BranchId, group: string, name: string)

  function ReadSlot(p: Progress, s: Slot): Option<LevelData> {
    match s
    case PhonicsFinal => Some(p.phonics.finalExam)
    case PhonicsLevel(n) => if n in p.phonics.levels then Some(p.phonics.levels[n]) else None
    case GroupFinal(b, g) =>
      var br := BranchOf(p, b);
      if g in br.groups then Some(br.groups[g].finalExam) else None
    case GroupLevel(b, g, n) =>
      var br := BranchOf(p, b);
      if g in br.groups && n in br.groups[g].levels then Some(br.groups[g].levels[n]) else None
  }

  /** `…?.passed`: the record exists and is passed. */
  predicate Passed(p: Progress, s: Slot) {
    ReadSlot(p, s).Some? && ReadSlot(p, s).value.passed
  }

  /** The badge of the phonics series or of one group. */
  datatype BadgeSlot = PhonicsBadge | GroupBadge(branch: BranchId, group: string)

  function ReadBadge(p: Progress, b: BadgeSlot): Option<Badge> {
    match b
    case PhonicsBadge => Some(p.phonics.badge)
    case GroupBadge(br, g) => if g in BranchOf(p, br).groups then Some(BranchOf(p, br).groups[g].badge) else None
  }

  predicate HasBadge(p: Progress, b: BadgeSlot) {
    ReadBadge(p, b).Some? && ReadBadge(p, b).value.earned
  }

  /** Writing back an existing record: every other record, every badge and
      every `unlocked` flag stay as they were. */
  function WriteSlot(p: Progress, s: Slot, d: LevelData): (q: Progress)
    requires ReadSlot(p, s).Some?
    ensures forall t :: ReadSlot(q, t) == if t == s then Some(d) else ReadSlot(p, t)
    ensures forall b :: ReadBadge(q, b) == ReadBadge(p, b)
    ensures UnlockFlags(q) == UnlockFlags(p)
  {
    match s
    case PhonicsFinal => p.(phonics := p.phonics.(finalExam := d))
    case PhonicsLevel(n) => p.(phonics := p.phonics.(levels := p.phonics.levels[n := d]))
    case GroupFinal(b, g) =>
      var br := BranchOf(p, b);
      WithBranch(p, b, br.(groups := br.groups[g := br.groups[g].(finalExam := d)]))
    case GroupLevel(b, g, n) =>
      var br := BranchOf(p, b);
      var grp := br.groups[g];
      WithBranch(p, b, br.(groups := br.groups[g := grp.(levels := grp.levels[n := d])]))
  }

  function UnlockFlags(p: Progress): (bool, bool, bool, bool) {
    (p.phonicsUnlocked, p.primary.unlocked, p.books.unlocked, p.academic.unlocked)
  }

  /** The record `_getLevelData` reaches for a level name, if any: a grade
      needs a minor level, a book or academic stage a non-empty one. */
  function SlotOf(series: Series, major: string, minor: Option<string>): Option<Slot> {
    match series
    case Phonics => if IsFinal(minor) then Some(PhonicsFinal) else Some(PhonicsLevel(major))
    case PrimaryGrades =>
      if IsFinal(minor) then Some(GroupFinal(PrimaryB, major))
      else if minor.Some? then Some(GroupLevel(PrimaryB, major, minor.value))
      else None
    case Extracurricular =>
      if IsFinal(minor) then Some(GroupFinal(BooksB, major))
      else if HasMinor(minor) then Some(GroupLevel(BooksB, major, minor.value))
      else None
    case Academic =>
      if IsFinal(minor) then Some(GroupFinal(AcademicB, major))
      else if HasMinor(minor) then Some(GroupLevel(AcademicB, major, minor.value))
      else None
    case OtherSeries => None
  }

  /** `_getLevelData`. */
  function GetLevelData(p: Progress, series: Series, major: string, minor: Option<string>): (r: Option<LevelData>)
    ensures r.Some? <==> SlotOf(series, major, minor).Some? && ReadSlot(p, SlotOf(series, major, minor).value).Some?
    ensures series == Phonics && IsFinal(minor) ==> r == Some(p.phonics.finalExam)
    ensures series == OtherSeries ==> r.None?
    ensures series in {Extracurricular, Academic} && !HasMinor(minor) ==> r.None?
  {
    match SlotOf(series, major, minor)
    case None => None
    case Some(s) => ReadSlot(p, s)
  }

  // ----- unlocking -----

  /** `allSubLevelsPassed`: every phonics level; both terms of a grade;
      every sub-level of a book (a book without sub-levels qualifies at
      once) or of an academic stage. */
  predicate AllSubLevelsPassed(p: Progress, series: Series, major: string) {
    match series
    case Phonics => forall i :: 0 <= i < |PhonicsLevels| ==> Passed(p, PhonicsLevel(PhonicsLevels[i]))
    case PrimaryGrades => Passed(p, GroupLevel(PrimaryB, major, "term1")) && Passed(p, GroupLevel(PrimaryB, major, "term2"))
    case Extracurricular =>
      var subs := BookLevels(major);
      |subs| == 0 || forall i :: 0 <= i < |subs| ==> Passed(p, GroupLevel(BooksB, major, subs[i]))
    case Academic =>
      var subs := AcademicLevels(major);
      forall i :: 0 <= i < |subs| ==> Passed(p, GroupLevel(AcademicB, major, subs[i]))
    case OtherSeries => false
  }

  /** The previous group of a series holds its badge, or there is none. */
  predicate PreviousBadge(p: Progress, b: BranchId, order: seq<string>, idx: int)
    requires idx < |order|
  {
    idx <= 0 || HasBadge(p, GroupBadge(b, order[idx - 1]))
  }

  /** `isLevelUnlocked`. */
  predicate IsLevelUnlocked(p: Progress, series: Series, major: string, minor: Option<string>) {
    match series
    case Phonics =>
      if IsFinal(minor) then AllSubLevelsPassed(p, Phonics, major)
      else
        var idx := IndexOf(PhonicsLevels, major);
        idx == 0 || (idx > 0 && Passed(p, PhonicsLevel(PhonicsLevels[idx - 1])))
    case PrimaryGrades =>
      HasBadge(p, PhonicsBadge) &&
      if IsFinal(minor) then AllSubLevelsPassed(p, PrimaryGrades, major)
      else
        var gi := IndexOf(GradeOrder, major);
        if gi == 0 && minor == Some("term1") then true
        else if minor == Some("term2") then Passed(p, GroupLevel(PrimaryB, major, "term1"))
        else if minor == Some("term1") && gi > 0 then HasBadge(p, GroupBadge(PrimaryB, GradeOrder[gi - 1]))
        else false
    case Extracurricular =>
      HasBadge(p, GroupBadge(PrimaryB, "grade6")) &&
      var idx := IndexOf(BookOrder, major);
      if IsFinal(minor) then PreviousBadge(p, BooksB, BookOrder, idx) && AllSubLevelsPassed(p, Extracurricular, major)
      else if idx == 0 && !HasMinor(minor) then true
      else if !PreviousBadge(p, BooksB, BookOrder, idx) then false
      else if HasMinor(minor) then
        var subs := BookLevels(major);
        var si := IndexOf(subs, minor.value);
        if si == 0 then true
        else if si > 0 then Passed(p, GroupLevel(BooksB, major, subs[si - 1]))
        else true
      else true
    case Academic =>
      HasBadge(p, GroupBadge(PrimaryB, "grade6")) &&
      var idx := IndexOf(AcademicOrder, major);
      if IsFinal(minor) then PreviousBadge(p, AcademicB, AcademicOrder, idx) && AllSubLevelsPassed(p, Academic, major)
      else if !PreviousBadge(p, AcademicB, AcademicOrder, idx) then false
      else if HasMinor(minor) then
        var subs := AcademicLevels(major);
        var si := IndexOf(subs, minor.value);
        if si == 0 then idx == 0 || (idx > 0 && HasBadge(p, GroupBadge(AcademicB, AcademicOrder[idx - 1])))
        else if si > 0 then Passed(p, GroupLevel(AcademicB, major, subs[si - 1]))
        else idx == 0
      else idx == 0
    case OtherSeries => false
  }

  /** The phonics chain: the first level is always open, the others exactly
      when the level before them is passed. */
  lemma PhonicsChain(p: Progress, i: nat, minor: Option<string>)
    requires i < |PhonicsLevels| && !IsFinal(minor)
    ensures i == 0 ==> IsLevelUnlocked(p, Phonics, PhonicsLevels[i], minor)
    ensures i > 0 ==> (IsLevelUnlocked(p, Phonics, PhonicsLevels[i], minor) <==> Passed(p, PhonicsLevel(PhonicsLevels[i - 1])))
  {
    assert IndexOf(PhonicsLevels, PhonicsLevels[i]) == i;
  }

  /** Nothing in the primary grades opens before the phonics badge, and a
      grade's second term opens exactly when its first is passed. */
  lemma PrimaryNeedsPhonicsBadge(p: Progress, major: string, minor: Option<string>)
    ensures !HasBadge(p, PhonicsBadge) ==> !IsLevelUnlocked(p, PrimaryGrades, major, minor)
    ensures HasBadge(p, PhonicsBadge) && minor == Some("term2") ==>
              (IsLevelUnlocked(p, PrimaryGrades, major, minor) <==> Passed(p, GroupLevel(PrimaryB, major, "term1")))
  {
  }

  /** Books and academic stages stay closed until the sixth-grade badge. */
  lemma BranchesNeedGradeSix(p: Progress, series: Series, major: string, minor: Option<string>)
    requires series in {Extracurricular, Academic}
    ensures !HasBadge(p, GroupBadge(PrimaryB, "grade6")) ==> !IsLevelUnlocked(p, series, major, minor)
  {
  }

  /** A final exam opens exactly when all its sub-levels are passed (for a
      book or academic stage, once the previous one's badge is held too). */
  lemma FinalExamUnlock(p: Progress, series: Series, major: string)
    ensures series == Phonics ==> (IsLevelUnlocked(p, series, major, Some(FinalExam)) <==> AllSubLevelsPassed(p, series, major))
    ensures series == PrimaryGrades && HasBadge(p, PhonicsBadge) ==>
              (IsLevelUnlocked(p, series, major, Some(FinalExam)) <==> AllSubLevelsPassed(p, series, major))
    ensures series in {Extracurricular, Academic} && IsLevelUnlocked(p, series, major, Some(FinalExam)) ==>
              AllSubLevelsPassed(p, series, major)
  {
  }

  /** In a new record only the first phonics level is open. */
  lemma DefaultUnlocks(series: Series, major: string, minor: Option<string>)
    ensures IsLevelUnlocked(DefaultProgress(), series, major, minor) <==>
              series == Phonics && major == PhonicsLevels[0] && !IsFinal(minor)
  {
    var p := DefaultProgress();
    assert forall s :: !Passed(p, s) by {
      forall s ensures !Passed(p, s) {
        NothingPassedAtFirst(s);
      }
    }
    assert !HasBadge(p, PhonicsBadge);
    assert !HasBadge(p, GroupBadge(PrimaryB, "grade6"));
    if series == Phonics && !IsFinal(minor) && major != PhonicsLevels[0] {
      assert IndexOf(PhonicsLevels, major) != 0;
    }
    if series == Phonics && IsFinal(minor) {
      assert !Passed(p, PhonicsLevel(PhonicsLevels[0]));
    }
  }

  lemma NothingPassedAtFirst(s: Slot)
    ensures !Passed(DefaultProgress(), s)
  {
    var p := DefaultProgress();
    match s
    case PhonicsFinal =>
    case PhonicsLevel(n) =>
    case GroupFinal(b, g) =>
      var br := BranchOf(p, b);
      if g in br.groups {
        assert br.groups[g] == FreshGroup(if b == PrimaryB then Terms else if b == BooksB then BookLevels(g) else AcademicLevels(g));
      }
    case GroupLevel(b, g, n) =>
      var br := BranchOf(p, b);
      if g in br.groups && n in br.groups[g].levels {
        assert br.groups[g] == FreshGroup(if b == PrimaryB then Terms else if b == BooksB then BookLevels(g) else AcademicLevels(g));
      }
  }

  // ----- starting and submitting an exam -----

  datatype StartCheck = Allowed | Locked | NoLevelData | CoolingDown(remaining: string)

  /** `canStartExam`: a locked level, then a missing record, then an active
      cooldown refuse the start, in that order. */
  function CanStartExam(p: Progress, series: Series, major: string, minor: Option<string>, now: int): (r: StartCheck)
    ensures r == Locked <==> !IsLevelUnlocked(p, series, major, minor)
    ensures r == NoLevelData <==> IsLevelUnlocked(p, series, major, minor) && GetLevelData(p, series, major, minor).None?
    ensures r.CoolingDown? <==>
              IsLevelUnlocked(p, series, major, minor) && GetLevelData(p, series, major, minor).Some?
              && IsInCooldown(GetLevelData(p, series, major, minor).value, now)
    ensures r.CoolingDown? ==> r.remaining == FormatCooldownTime(GetLevelData(p, series, major, minor).value, now) && r.remaining != ""
  {
    if !IsLevelUnlocked(p, series, major, minor) then Locked
    else match GetLevelData(p, series, major, minor)
      case None => NoLevelData
      case Some(d) => if IsInCooldown(d, now) then CoolingDown(FormatCooldownTime(d, now)) else Allowed
  }

  /** The record after one attempt with `rate` percent taking `duration`
      seconds: one more attempt, the best score kept, `passed` never
      cleared; a pass clears the cooldown and may lower the best time, a
      failure starts a thirty-minute cooldown. */
  function UpdateLevel(d: LevelData, rate: int, duration: Option<nat>, now: int): (r: LevelData)
    ensures r.attempts == d.attempts + 1 && r.lastAttempt == Some(now)
    ensures r.passed <==> d.passed || rate >= PassThreshold
    ensures r.score == Max(d.score, rate)
    ensures rate >= PassThreshold ==> r.cooldownUntil.None?
    ensures rate < PassThreshold ==> r.cooldownUntil == Some(now + CooldownDuration) && r.bestDuration == d.bestDuration
    ensures r.bestDuration != d.bestDuration ==>
              rate >= PassThreshold && r.bestDuration == duration && duration.Some?
              && (d.bestDuration.None? || duration.value < d.bestDuration.value)
    ensures rate >= PassThreshold && duration.Some? ==>
              r.bestDuration.Some? && r.bestDuration.value <= duration.value
              && (d.bestDuration.Some? ==> r.bestDuration.value <= d.bestDuration.value)
  {
    var tried := d.(attempts := d.attempts + 1, lastAttempt := Some(now));
    if rate >= PassThreshold then
      var better := duration.Some? && (d.bestDuration.None? || duration.value < d.bestDuration.value);
      ClearCooldown(tried.(passed := true,
                           score := if rate > d.score then rate else d.score,
                           bestDuration := if better then duration else d.bestDuration))
    else
      SetCooldown(tried.(score := if rate > d.score then rate else d.score), now)
  }

  /** The badge a final exam of a group earns. */
  function BadgeSlotFor(series: Series, major: string): Option<BadgeSlot> {
    match series
    case Phonics => Some(PhonicsBadge)
    case PrimaryGrades => Some(GroupBadge(PrimaryB, major))
    case Extracurricular => Some(GroupBadge(BooksB, major))
    case Academic => Some(GroupBadge(AcademicB, major))
    case OtherSeries => None
  }

  /** The name `_checkAndAwardBadge` reports for a badge. */
  function BadgeName(series: Series, major: string): string {
    if series == Phonics then "phonics" else major
  }

  /** The badge of group `g` becomes earned at `now`. */
  function AwardGroup(p: Progress, b: BranchId, g: string, now: int): (r: (Progress, Option<string>))
  {
    var br := BranchOf(p, b);
    if g in br.groups && br.groups[g].finalExam.passed && !br.groups[g].badge.earned then
      var q := WithBranch(p, b, br.(groups := br.groups[g := br.groups[g].(badge := Badge(true, Some(now)))]));
      (q, Some(g))
    else (p, None)
  }

  /** `_checkAndAwardBadge`: only a passed final exam whose badge is not yet
      held earns it. The phonics badge opens the primary grades; the
      sixth-grade badge opens the books and the academic stages. */
  function AwardBadge(p: Progress, series: Series, major: string, minor: Option<string>, now: int): (r: (Progress, Option<string>))
    ensures forall t :: ReadSlot(r.0, t) == ReadSlot(p, t)
  {
    if !IsFinal(minor) then (p, None)
    else match series
      case Phonics =>
        if p.phonics.finalExam.passed && !p.phonics.badge.earned then
          (p.(phonics := p.phonics.(badge := Badge(true, Some(now))), primary := p.primary.(unlocked := true)), Some("phonics"))
        else (p, None)
      case PrimaryGrades =>
        var (q, id) := AwardGroup(p, PrimaryB, major, now);
        if id.Some? && major == "grade6" then
          (q.(books := q.books.(unlocked := true), academic := q.academic.(unlocked := true)), id)
        else (q, id)
      case Extracurricular => AwardGroup(p, BooksB, major, now)
      case Academic => AwardGroup(p, AcademicB, major, now)
      case OtherSeries => (p, None)
  }

  datatype ExamResult =
    | NoData
    | Submitted(passed: bool, score: int, bestScore: int, bestDuration: Option<nat>,
                badge: Option<string>, cooldownUntil: Option<int>)

  /** `submitExamResult` at time `now`: the level's record is updated, a
      passed final exam may earn its badge, and the result reports the
      outcome. Without a record nothing changes. */
  function SubmitExamResult(p: Progress, series: Series, major: string, minor: Option<string>,
                            rate: int, duration: Option<nat>, now: int): (r: (ExamResult, Progress))
    ensures GetLevelData(p, series, major, minor).None? <==> r.0 == NoData
    ensures r.0 == NoData ==> r.1 == p
    ensures r.0.Submitted? ==>
              var d := GetLevelData(p, series, major, minor).value;
              r.0.passed == (rate >= PassThreshold) && r.0.score == rate
              && GetLevelData(r.1, series, major, minor) == Some(UpdateLevel(d, rate, duration, now))
              && r.0.bestScore == Max(d.score, rate)
              && (r.0.cooldownUntil.None? <==> r.0.passed)
    ensures r.0.Submitted? && r.0.badge.Some? ==> r.0.passed && IsFinal(minor)
  {
    match SlotOf(series, major, minor)
    case None => (NoData, p)
    case Some(s) =>
      match ReadSlot(p, s)
      case None => (NoData, p)
      case Some(d) =>
        var nd := UpdateLevel(d, rate, duration, now);
        var q := WriteSlot(p, s, nd);
        var passed := rate >= PassThreshold;
        var (q2, badge) := if passed then AwardBadge(q, series, major, minor, now) else (q, None);
        assert ReadSlot(q2, s) == Some(nd);
        (Submitted(passed, rate, nd.score, nd.bestDuration, badge, if passed then None else nd.cooldownUntil), q2)
  }

  /** Submitting changes no other exam's record. */
  lemma SubmitFrame(p: Progress, series: Series, major: string, minor: Option<string>,
                    rate: int, duration: Option<nat>, now: int, t: Slot)
    requires SlotOf(series, major, minor) != Some(t)
    ensures ReadSlot(SubmitExamResult(p, series, major, minor, rate, duration, now).1, t) == ReadSlot(p, t)
  {
  }

  /** Only a final exam can change a badge or an `unlocked` flag. */
  lemma BadgeOnlyFromFinalExam(p: Progress, series: Series, major: string, minor: Option<string>,
                               rate: int, duration: Option<nat>, now: int)
    requires !IsFinal(minor)
    ensures var q := SubmitExamResult(p, series, major, minor, rate, duration, now);
            q.0.Submitted? ==> q.0.badge.None?
    ensures var q := SubmitExamResult(p, series, major, minor, rate, duration, now).1;
            UnlockFlags(q) == UnlockFlags(p) && forall b :: ReadBadge(q, b) == ReadBadge(p, b)
  {
  }

  /** A badge is reported at most once: the one reported was not held
      before, and is held afterwards, earned at `now`. */
  lemma BadgeAwardedOnce(p: Progress, series: Series, major: string, minor: Option<string>,
                         rate: int, duration: Option<nat>, now: int)
    ensures var q := SubmitExamResult(p, series, major, minor, rate, duration, now);
            q.0.Submitted? && q.0.badge.Some? ==>
              BadgeSlotFor(series, major).Some?
              && q.0.badge.value == BadgeName(series, major)
              && !HasBadge(p, BadgeSlotFor(series, major).value)
              && ReadBadge(q.1, BadgeSlotFor(series, major).value) == Some(Badge(true, Some(now)))
  {
  }

  /** Passing a final exam whose badge is not yet held earns it; the
      phonics badge then opens the primary grades and the sixth-grade badge
      both branches. */
  lemma PassingFinalEarnsBadge(p: Progress, series: Series, major: string, rate: int, duration: Option<nat>, now: int)
    requires GetLevelData(p, series, major, Some(FinalExam)).Some? && rate >= PassThreshold
    requires BadgeSlotFor(series, major).Some? && !HasBadge(p, BadgeSlotFor(series, major).value)
    ensures var q := SubmitExamResult(p, series, major, Some(FinalExam), rate, duration, now);
            q.0.Submitted? && q.0.badge == Some(BadgeName(series, major))
            && (series == Phonics ==> q.1.primary.unlocked)
            && (series == PrimaryGrades && major == "grade6" ==> q.1.books.unlocked && q.1.academic.unlocked)
  {
  }

  // ----- progress only moves forward -----

  /** `q` is `p` with possibly more passed records, more badges and more
      open series; a badge once held keeps its time. */
  ghost predicate Advances(p: Progress, q: Progress) {
    (forall s :: Passed(p, s) ==> Passed(q, s))
    && (forall s :: ReadSlot(p, s).Some? ==> ReadSlot(q, s).Some? && ReadSlot(q, s).value.score >= ReadSlot(p, s).value.score)
    && (forall b :: HasBadge(p, b) ==> ReadBadge(q, b) == ReadBadge(p, b))
    && (p.primary.unlocked ==> q.primary.unlocked)
    && (p.books.unlocked ==> q.books.unlocked)
    && (p.academic.unlocked ==> q.academic.unlocked)
    && q.phonicsUnlocked == p.phonicsUnlocked
  }

  lemma AwardAdvances(p: Progress, series: Series, major: string, minor: Option<string>, now: int)
    ensures Advances(p, AwardBadge(p, series, major, minor, now).0)
  {
    AwardKeepsBadges(p, series, major, minor, now);
  }

  /** A held badge stays as it is: a badge is only ever awarded when it
      is not yet earned. */
  lemma AwardKeepsBadges(p: Progress, series: Series, major: string, minor: Option<string>, now: int)
    ensures var q := AwardBadge(p, series, major, minor, now).0;
            forall b :: HasBadge(p, b) ==> ReadBadge(q, b) == ReadBadge(p, b)
  {
    var q := AwardBadge(p, series, major, minor, now).0;
    forall b | HasBadge(p, b) ensures ReadBadge(q, b) == ReadBadge(p, b) {
    }
  }

  /** Every submission moves the record forward. */
  lemma SubmitAdvances(p: Progress, series: Series, major: string, minor: Option<string>,
                       rate: int, duration: Option<nat>, now: int)
    ensures Advances(p, SubmitExamResult(p, series, major, minor, rate, duration, now).1)
  {
    match SlotOf(series, major, minor)
    case None =>
    case Some(s) =>
      match ReadSlot(p, s)
      case None =>
      case Some(d) =>
        var q := WriteSlot(p, s, UpdateLevel(d, rate, duration, now));
        WriteAdvances(p, s, d, rate, duration, now);
        if rate >= PassThreshold {
          AwardAdvances(q, series, major, minor, now);
          AdvancesTrans(p, q, AwardBadge(q, series, major, minor, now).0);
        }
  }

  /** Recording an attempt moves the record forward. */
  lemma WriteAdvances(p: Progress, s: Slot, d: LevelData, rate: int, duration: Option<nat>, now: int)
    requires ReadSlot(p, s) == Some(d)
    ensures Advances(p, WriteSlot(p, s, UpdateLevel(d, rate, duration, now)))
  {
    var q := WriteSlot(p, s, UpdateLevel(d, rate, duration, now));
    assert UnlockFlags(q) == UnlockFlags(p);
  }

  lemma AdvancesTrans(p: Progress, q: Progress, r: Progress)
    requires Advances(p, q) && Advances(q, r)
    ensures Advances(p, r)
  {
  }

  /** What the unlock rules read: passed records and held badges. */
  ghost predicate KeepsPassesAndBadges(p: Progress, q: Progress) {
    (forall s :: Passed(p, s) ==> Passed(q, s)) && (forall b :: HasBadge(p, b) ==> HasBadge(q, b))
  }

  /** Every unlock rule only asks for passed records and held badges, so a
      level once open stays open. */
  lemma UnlockMonotone(p: Progress, q: Progress, series: Series, major: string, minor: Option<string>)
    requires Advances(p, q)
    requires IsLevelUnlocked(p, series, major, minor)
    ensures IsLevelUnlocked(q, series, major, minor)
  {
    assert KeepsPassesAndBadges(p, q);
    match series
    case Phonics => PhonicsUnlockMonotone(p, q, major, minor);
    case PrimaryGrades => PrimaryUnlockMonotone(p, q, major, minor);
    case Extracurricular => BookUnlockMonotone(p, q, major, minor);
    case Academic => AcademicUnlockMonotone(p, q, major, minor);
    case OtherSeries =>
  }

  lemma AllSubLevelsMonotone(p: Progress, q: Progress, series: Series, major: string)
    requires KeepsPassesAndBadges(p, q)
    ensures AllSubLevelsPassed(p, series, major) ==> AllSubLevelsPassed(q, series, major)
  {
  }

  lemma PhonicsUnlockMonotone(p: Progress, q: Progress, major: string, minor: Option<string>)
    requires KeepsPassesAndBadges(p, q)
    requires IsLevelUnlocked(p, Phonics, major, minor)
    ensures IsLevelUnlocked(q, Phonics, major, minor)
  {
    AllSubLevelsMonotone(p, q, Phonics, major);
  }

  lemma PrimaryUnlockMonotone(p: Progress, q: Progress, major: string, minor: Option<string>)
    requires KeepsPassesAndBadges(p, q)
    requires IsLevelUnlocked(p, PrimaryGrades, major, minor)
    ensures IsLevelUnlocked(q, PrimaryGrades, major, minor)
  {
    AllSubLevelsMonotone(p, q, PrimaryGrades, major);
  }

  lemma BookUnlockMonotone(p: Progress, q: Progress, major: string, minor: Option<string>)
    requires KeepsPassesAndBadges(p, q)
    requires IsLevelUnlocked(p, Extracurricular, major, minor)
    ensures IsLevelUnlocked(q, Extracurricular, major, minor)
  {
    AllSubLevelsMonotone(p, q, Extracurricular, major);
    BranchUnlockMonotone(p, q, BooksB, BookOrder);
  }

  lemma AcademicUnlockMonotone(p: Progress, q: Progress, major: string, minor: Option<string>)
    requires KeepsPassesAndBadges(p, q)
    requires IsLevelUnlocked(p, Academic, major, minor)
    ensures IsLevelUnlocked(q, Academic, major, minor)
  {
    BranchUnlockMonotone(p, q, AcademicB, AcademicOrder);
    if IsFinal(minor) {
      AllSubLevelsMonotone(p, q, Academic, major);
    } else {
      AcademicLevelMonotone(p, q, major, minor);
    }
  }

  lemma AcademicLevelMonotone(p: Progress, q: Progress, major: string, minor: Option<string>)
    requires KeepsPassesAndBadges(p, q) && !IsFinal(minor)
    requires forall idx :: idx < |AcademicOrder| && PreviousBadge(p, AcademicB, AcademicOrder, idx)
                           ==> PreviousBadge(q, AcademicB, AcademicOrder, idx)
    requires IsLevelUnlocked(p, Academic, major, minor)
    ensures IsLevelUnlocked(q, Academic, major, minor)
  {
  }

  lemma BranchUnlockMonotone(p: Progress, q: Progress, b: BranchId, order: seq<string>)
    requires KeepsPassesAndBadges(p, q)
    ensures forall idx :: idx < |order| && PreviousBadge(p, b, order, idx) ==> PreviousBadge(q, b, order, idx)
  {
  }

  /** Submitting a result never locks a level. */
  lemma SubmitNeverLocks(p: Progress, series: Series, major: string, minor: Option<string>,
                         rate: int, duration: Option<nat>, now: int,
                         s2: Series, major2: string, minor2: Option<string>)
    requires IsLevelUnlocked(p, s2, major2, minor2)
    ensures IsLevelUnlocked(SubmitExamResult(p, series, major, minor, rate, duration, now).1, s2, major2, minor2)
  {
    SubmitAdvances(p, series, major, minor, rate, duration, now);
    UnlockMonotone(p, SubmitExamResult(p, series, major, minor, rate, duration, now).1, s2, major2, minor2);
  }

  // ----- stars -----

  predicate Perfect(p: Progress, s: Slot) {
    ReadSlot(p, s).Some? && ReadSlot(p, s).value.score == 100
  }

  /** `shouldShowStar`: every sub-level and the final exam scored exactly
      100 (a book without sub-levels only needs its final exam). */
  predicate ShouldShowStar(p: Progress, series: Series, major: string) {
    match series
    case Phonics =>
      (forall i :: 0 <= i < |PhonicsLevels| ==> Perfect(p, PhonicsLevel(PhonicsLevels[i]))) && Perfect(p, PhonicsFinal)
    case PrimaryGrades =>
      Perfect(p, GroupLevel(PrimaryB, major, "term1")) && Perfect(p, GroupLevel(PrimaryB, major, "term2"))
      && Perfect(p, GroupFinal(PrimaryB, major))
    case Extracurricular =>
      var subs := BookLevels(major);
      (|subs| == 0 || forall i :: 0 <= i < |subs| ==> Perfect(p, GroupLevel(BooksB, major, subs[i])))
      && Perfect(p, GroupFinal(BooksB, major))
    case Academic =>
      var subs := AcademicLevels(major);
      (forall i :: 0 <= i < |subs| ==> Perfect(p, GroupLevel(AcademicB, major, subs[i])))
      && Perfect(p, GroupFinal(AcademicB, major))
    case OtherSeries => false
  }

  /** A record is consistent when a score of 90 or more, and a best time,
      only appear on a passed level. */
  predicate Consistent(d: LevelData) {
    (d.score >= PassThreshold ==> d.passed) && (d.bestDuration.Some? ==> d.passed)
  }

  ghost predicate AllConsistent(p: Progress) {
    forall s :: ReadSlot(p, s).Some? ==> Consistent(ReadSlot(p, s).value)
  }

  lemma UpdateKeepsConsistent(d: LevelData, rate: int, duration: Option<nat>, now: int)
    requires Consistent(d)
    ensures Consistent(UpdateLevel(d, rate, duration, now))
  {
  }

  /** New records are consistent, and submitting keeps every record so. */
  lemma SubmitKeepsConsistent(p: Progress, series: Series, major: string, minor: Option<string>,
                              rate: int, duration: Option<nat>, now: int)
    requires AllConsistent(p)
    ensures AllConsistent(SubmitExamResult(p, series, major, minor, rate, duration, now).1)
  {
    match SlotOf(series, major, minor)
    case None =>
    case Some(s) =>
      match ReadSlot(p, s)
      case None =>
      case Some(d) =>
        UpdateKeepsConsistent(d, rate, duration, now);
  }

  lemma DefaultConsistent()
    ensures AllConsistent(DefaultProgress())
  {
    forall s | ReadSlot(DefaultProgress(), s).Some?
      ensures Consistent(ReadSlot(DefaultProgress(), s).value)
    {
      NothingPassedAtFirst(s);
      FreshRecord(s);
    }
  }

  lemma FreshRecord(s: Slot)
    requires ReadSlot(DefaultProgress(), s).Some?
    ensures ReadSlot(DefaultProgress(), s).value == NewLevelData()
  {
    var p := DefaultProgress();
    match s
    case PhonicsFinal =>
    case PhonicsLevel(n) =>
    case GroupFinal(b, g) =>
      var br := BranchOf(p, b);
      assert br.groups[g] == FreshGroup(if b == PrimaryB then Terms else if b == BooksB then BookLevels(g) else AcademicLevels(g));
    case GroupLevel(b, g, n) =>
      var br := BranchOf(p, b);
      assert br.groups[g] == FreshGroup(if b == PrimaryB then Terms else if b == BooksB then BookLevels(g) else AcademicLevels(g));
  }

  /** On a consistent record a star means every sub-level and the final
      exam are passed. */
  lemma StarMeansPassed(p: Progress, series: Series, major: string)
    requires AllConsistent(p)
    requires ShouldShowStar(p, series, major)
    ensures AllSubLevelsPassed(p, series, major)
    ensures series == Phonics ==> Passed(p, PhonicsFinal)
    ensures series in {PrimaryGrades, Extracurricular, Academic} ==> Passed(p, GroupFinal(BranchFor(series), major))
  {
  }

  function BranchFor(series: Series): BranchId
    requires series in {PrimaryGrades, Extracurricular, Academic}
  {
    match series
    case PrimaryGrades => PrimaryB
    case Extracurricular => BooksB
    case Academic => AcademicB
  }

  // ----- exam information -----

  datatype ExamInfo = ExamInfo(entry: Option<(string, string)>, wordCount: nat)

  /** The configuration entries, by major and minor level. */
  predicate HasExamEntry(series: Series, major: string, minor: string) {
    match series
    case Phonics => major == "" && (minor in PhonicsLevels || minor == FinalExam)
    case PrimaryGrades => major in GradeOrder && (minor in Terms || minor == FinalExam)
    case Extracurricular => major in BookOrder && (minor in BookLevels(major) || minor == FinalExam)
    case Academic => major in AcademicOrder && (minor in AcademicLevels(major) || minor == FinalExam)
    case OtherSeries => false
  }

  /** `getExamInfo`: the configuration entry an exam uses (`None` for the
      placeholder); a book or academic stage falls back to its final-exam
      entry. Every entry asks for all the words of its lists. */
  function GetExamInfo(series: Series, major: string, minor: Option<string>): (r: ExamInfo)
    ensures r.wordCount == 0
    ensures r.entry.Some? ==> HasExamEntry(series, r.entry.value.0, r.entry.value.1)
    ensures series == Phonics ==>
              r.entry == (var level := if IsFinal(minor) then FinalExam else major;
                          if HasExamEntry(Phonics, "", level) then Some(("", level)) else None)
    ensures series in {Extracurricular, Academic} && (major in BookOrder || major in AcademicOrder) && HasExamEntry(series, major, FinalExam) ==>
              r.entry.Some?
  {
    match series
    case Phonics =>
      var level := if IsFinal(minor) then FinalExam else major;
      ExamInfo(if HasExamEntry(Phonics, "", level) then Some(("", level)) else None, 0)
    case PrimaryGrades =>
      ExamInfo(if minor.Some? && HasExamEntry(PrimaryGrades, major, minor.value) then Some((major, minor.value)) else None, 0)
    case Extracurricular => ExamInfo(GroupEntry(series, major, minor), 0)
    case Academic => ExamInfo(GroupEntry(series, major, minor), 0)
    case OtherSeries => ExamInfo(None, 0)
  }

  function GroupEntry(series: Series, major: string, minor: Option<string>): (r: Option<(string, string)>)
    ensures r.Some? ==> HasExamEntry(series, r.value.0, r.value.1)
    ensures HasExamEntry(series, major, FinalExam) ==> r.Some?
  {
    if minor.Some? && HasExamEntry(series, major, minor.value) then Some((major, minor.value))
    else if HasExamEntry(series, major, FinalExam) then Some((major, FinalExam))
    else None
  }
}
