/** The certification progress record and its storage helpers
    (`CertificationStorage`): the default record, the merge of a saved
    record over the defaults, the thirty-minute cooldown after a failed
    exam and the list of earned badges. The clock `Date.now()` is the
    parameter `now`, in milliseconds. */
module CertStorage {
  import opened Wrappers
  import opened Text
  import opened Ordering
  import opened JsonValue

  /** Thirty minutes, in milliseconds. */
  const CooldownDuration: int := 30 * 60 * 1000

  /** The five phonics levels, the grades, the books and the academic
      stages, in the order the certification tree shows them. */
  const PhonicsLevels: seq<string> := ["shortVowels", "longVowels", "diphthongs", "consonants", "complexSounds"]
  const GradeOrder: seq<string> := ["grade3", "grade4", "grade5", "grade6"]
  const Terms: seq<string> := ["term1", "term2"]
  const BookOrder: seq<string> := ["flyGuy", "magicTreeHouse", "dragonBall", "harryPotter"]
  const FlyGuyBooks: seq<string> := ["book1to5", "book6to10", "book11to15"]
  const AcademicOrder: seq<string> := ["middleSchool", "highSchool", "cet4"]
  const MiddleSchoolTerms: seq<string> :=
    ["grade7Term1", "grade7Term2", "grade8Term1", "grade8Term2", "grade9Term1", "grade9Term2"]
  const HighSchoolTerms: seq<string> :=
    ["senior1Term1", "senior1Term2", "senior2Term1", "senior2Term2", "senior3Term1", "senior3Term2"]
  const Cet4Levels: seq<string> := ["coreVocab", "highFreqVocab", "advancedVocab"]

  /** One exam's record. A `null` time is `None`; `bestDuration` is in
      seconds and only set by a passing attempt. */
  datatype LevelData = LevelData(
    score: int, passed: bool, attempts: nat,
    lastAttempt: Option<int>, cooldownUntil: Option<int>, bestDuration: Option<nat>)

  datatype Badge = Badge(earned: bool, earnedAt: Option<int>)

  /** A phonics series, a grade, a book or an academic stage: its badge,
      its final exam and its sub-levels by name. A grade's `term1` and
      `term2` are its sub-levels. */
  datatype Group = Group(badge: Badge, finalExam: LevelData, levels: map<string, LevelData>)

  /** A series of groups behind one `unlocked` flag. */
  datatype Branch = Branch(unlocked: bool, groups: map<string, Group>)

  datatype Progress = Progress(
    phonicsUnlocked: bool, phonics: Group, primary: Branch, books: Branch, academic: Branch)

  /** `_createLevelData`. */
  function NewLevelData(): (d: LevelData)
    ensures !d.passed && d.score == 0 && d.attempts == 0
    ensures d.lastAttempt.None? && d.cooldownUntil.None? && d.bestDuration.None?
  {
    LevelData(0, false, 0, None, None, None)
  }

  function FreshLevels(names: seq<string>): (m: map<string, LevelData>)
    ensures m.Keys == ToSet(names)
    ensures forall n :: n in m ==> m[n] == NewLevelData()
  {
    map n | n in ToSet(names) :: NewLevelData()
  }

  function FreshGroup(names: seq<string>): (g: Group)
    ensures !g.badge.earned && g.finalExam == NewLevelData() && g.levels == FreshLevels(names)
  {
    Group(Badge(false, None), NewLevelData(), FreshLevels(names))
  }

  /** The sub-levels a book has in the default record: only Fly Guy has
      any. */
  function BookLevels(book: string): seq<string> {
    if book == "flyGuy" then FlyGuyBooks else []
  }

  function AcademicLevels(stage: string): seq<string> {
    if stage == "middleSchool" then MiddleSchoolTerms
    else if stage == "highSchool" then HighSchoolTerms
    else if stage == "cet4" then Cet4Levels
    else []
  }

  /** `getDefaultProgress`: only the phonics series is open, no badge is
      earned and every exam is untouched. */
  function DefaultProgress(): (p: Progress)
    ensures p.phonicsUnlocked && !p.primary.unlocked && !p.books.unlocked && !p.academic.unlocked
    ensures p.phonics.levels.Keys == ToSet(PhonicsLevels)
    ensures p.primary.groups.Keys == ToSet(GradeOrder)
    ensures p.books.groups.Keys == ToSet(BookOrder)
    ensures p.academic.groups.Keys == ToSet(AcademicOrder)
    ensures forall g :: g in p.primary.groups ==> p.primary.groups[g].levels.Keys == ToSet(Terms)
    ensures forall g :: g in p.books.groups ==> p.books.groups[g].levels.Keys == ToSet(BookLevels(g))
    ensures forall g :: g in p.academic.groups ==> p.academic.groups[g].levels.Keys == ToSet(AcademicLevels(g))
    ensures forall b :: b in BadgeOrder ==> BadgeOf(p, b).Some? && !BadgeOf(p, b).value.earned
  {
    var p := Progress(
      true, FreshGroup(PhonicsLevels),
      FreshBranch(GradeOrder, _ => Terms),
      FreshBranch(BookOrder, BookLevels),
      FreshBranch(AcademicOrder, AcademicLevels));
    assert forall b :: b in BadgeOrder ==> b == "phonics" || b in GradeOrder || b in BookOrder || b in AcademicOrder;
    p
  }

  /** A locked branch with a fresh group for each name of `order`, the
      group's levels given by `levels`. */
  function FreshBranch(order: seq<string>, levels: string -> seq<string>): (b: Branch)
    ensures !b.unlocked && b.groups.Keys == ToSet(order)
    ensures forall g :: g in b.groups ==> b.groups[g] == FreshGroup(levels(g))
  {
    Branch(false, map g | g in ToSet(order) :: FreshGroup(levels(g)))
  }

  // ----- merging a saved record over the defaults -----

  /** `{ ...target }`: the members of an object, nothing for any other
      value. */
  function Spread(target: Json): seq<(string, Json)> {
    if target.Obj? then target.fields else []
  }

  /** `target[key] || {}`. */
  function FieldOr(target: Json, key: string): (r: Json)
    ensures Truthy(r)
  {
    if target.Obj? then
      match Lookup(target.fields, key)
      case Some(v) => if Truthy(v) then v else Obj([])
      case None => Obj([])
    else Obj([])
  }

  /** No later member of `fields` has the key of member `j`: JavaScript's
      last assignment wins. */
  predicate LastOccurrence(fields: seq<(string, Json)>, j: nat)
    requires j < |fields|
  {
    forall j' :: j < j' < |fields| ==> fields[j'].0 != fields[j].0
  }

  /** The value a saved member contributes: a nested object is merged into
      the default's member of that name, anything else replaces it. */
  function MergedValue(target: Json, key: string, v: Json): Json
    decreases v, 3
  {
    if v.Obj? then DeepMerge(FieldOr(target, key), v) else v
  }

  /** `_deepMerge`: a falsy source leaves the target as it is. Otherwise the
      result is a copy of the target's members, overwritten member by
      member from the source (see `DeepMergeMembers`). */
  function DeepMerge(target: Json, source: Json): (r: Json)
    ensures !Truthy(source) ==> r == target
    ensures Truthy(source) ==> r.Obj?
    ensures Truthy(source) && !source.Obj? ==> r == Obj(Spread(target))
    decreases source, 2
  {
    if !Truthy(source) then target
    else if source.Obj? then Obj(MergeFields(Spread(target), target, source, 0))
    else Obj(Spread(target))
  }

  /** The `for (const key in source)` loop from member `i` on, `acc` being
      the result so far. */
  function MergeFields(acc: seq<(string, Json)>, target: Json, source: Json, i: nat): (r: seq<(string, Json)>)
    requires source.Obj? && i <= |source.fields|
    decreases source, 1, |source.fields| - i
  {
    if i == |source.fields| then acc
    else
      var (k, v) := source.fields[i];
      MergeFields(SetField(acc, k, MergedValue(target, k, v)), target, source, i + 1)
  }

  /** `r` is `acc` with source members `i..` merged in: it has their keys
      besides its own, keeps every other key's value, and holds the merged
      value of each member that is the last with its key. */
  ghost predicate MergedFrom(r: seq<(string, Json)>, acc: seq<(string, Json)>, target: Json, source: Json, i: nat)
    requires source.Obj? && i <= |source.fields|
  {
    Keys(r) == Keys(acc) + Keys(source.fields[i..])
    && (forall k :: k !in Keys(source.fields[i..]) ==> Lookup(r, k) == Lookup(acc, k))
    && (forall j :: i <= j < |source.fields| && LastOccurrence(source.fields, j) ==>
          Lookup(r, source.fields[j].0) == Some(MergedValue(target, source.fields[j].0, source.fields[j].1)))
  }

  lemma {:induction false} MergeFieldsMembers(acc: seq<(string, Json)>, target: Json, source: Json, i: nat)
    requires source.Obj? && i <= |source.fields|
    ensures MergedFrom(MergeFields(acc, target, source, i), acc, target, source, i)
    decreases |source.fields| - i
  {
    if i < |source.fields| {
      MergeFieldsMembers(SetField(acc, source.fields[i].0, MergedValue(target, source.fields[i].0, source.fields[i].1)),
                         target, source, i + 1);
      MergeFieldsStep(acc, target, source, i);
    } else {
      MergeFieldsDone(acc, target, source);
    }
  }

  lemma MergeFieldsDone(acc: seq<(string, Json)>, target: Json, source: Json)
    requires source.Obj?
    ensures MergedFrom(MergeFields(acc, target, source, |source.fields|), acc, target, source, |source.fields|)
  {
    assert source.fields[|source.fields|..] == [];
  }

  lemma MergeFieldsStep(acc: seq<(string, Json)>, target: Json, source: Json, i: nat)
    requires source.Obj? && i < |source.fields|
    requires var next := SetField(acc, source.fields[i].0, MergedValue(target, source.fields[i].0, source.fields[i].1));
             MergedFrom(MergeFields(next, target, source, i + 1), next, target, source, i + 1)
    ensures MergedFrom(MergeFields(acc, target, source, i), acc, target, source, i)
  {
    var (k, v) := source.fields[i];
    var next := SetField(acc, k, MergedValue(target, k, v));
    var r := MergeFields(next, target, source, i + 1);
    assert MergeFields(acc, target, source, i) == r;
    KeysCons(source.fields[i..]);
    assert source.fields[i..][1..] == source.fields[i + 1..];
    LastKeyIsNotLater(source.fields, i);
  }

  lemma LastKeyIsNotLater(fields: seq<(string, Json)>, i: nat)
    requires i < |fields|
    ensures LastOccurrence(fields, i) ==> fields[i].0 !in Keys(fields[i + 1..])
  {
  }

  /** What the merge of an object does, member by member: the keys are
      those of the target and the source; a key only the target has keeps
      its value; a source key takes the value of its last member, merged
      into the target's member when it is an object. */
  lemma DeepMergeMembers(target: Json, source: Json)
    requires source.Obj?
    ensures var r := DeepMerge(target, source).fields;
            Keys(r) == Keys(Spread(target)) + Keys(source.fields)
            && (forall k :: k !in Keys(source.fields) ==> Lookup(r, k) == Lookup(Spread(target), k))
            && (forall j :: 0 <= j < |source.fields| && LastOccurrence(source.fields, j) ==>
                  Lookup(r, source.fields[j].0) == Some(MergedValue(target, source.fields[j].0, source.fields[j].1)))
  {
    MergeFieldsMembers(Spread(target), target, source, 0);
    assert source.fields[0..] == source.fields;
  }

  /** Merging keeps every member the defaults have: a saved record can
      change values but never drop a default key. */
  lemma MergeKeepsDefaultKeys(defaults: Json, saved: Json)
    ensures defaults.Obj? ==> DeepMerge(defaults, saved).Obj?
    ensures defaults.Obj? ==> Keys(defaults.fields) <= Keys(DeepMerge(defaults, saved).fields)
  {
    if saved.Obj? {
      DeepMergeMembers(defaults, saved);
    }
  }

  /** A saved member that is not an object replaces the default's member;
      a default member the saved record lacks keeps its default value. */
  lemma MergeOverrides(defaults: Json, saved: Json, k: string)
    requires defaults.Obj? && saved.Obj?
    ensures var r := DeepMerge(defaults, saved).fields;
            match Lookup(saved.fields, k)
            case None => Lookup(r, k) == Lookup(defaults.fields, k)
            case Some(v) => !v.Obj? && DistinctKeys(saved.fields) ==> Lookup(r, k) == Some(v)
  {
    DeepMergeMembers(defaults, saved);
    match Lookup(saved.fields, k)
    case None =>
    case Some(v) =>
      if !v.Obj? && DistinctKeys(saved.fields) {
        var j :| 0 <= j < |saved.fields| && saved.fields[j] == (k, v);
        assert LastOccurrence(saved.fields, j);
      }
  }

  /** What `JSON.parse` produces: an object never repeats a key. */
  predicate DistinctKeys(fields: seq<(string, Json)>) {
    forall i, j :: 0 <= i < j < |fields| ==> fields[i].0 != fields[j].0
  }

  /** Merging an empty record gives a copy of the defaults. */
  lemma MergeEmpty(defaults: Json)
    requires defaults.Obj?
    ensures DeepMerge(defaults, Obj([])) == defaults
  {
  }

  /** `load`: the saved text, when there is a non-empty one, is parsed
      (`parsed` is `None` when `JSON.parse` throws) and merged over the
      defaults; anything else gives the defaults. */
  function Load(saved: Option<string>, parsed: Option<Json>, defaults: Json): (r: Json)
    ensures saved.None? || saved.value == "" || parsed.None? ==> r == defaults
    ensures defaults.Obj? ==> r.Obj? && Keys(defaults.fields) <= Keys(r.fields)
  {
    if saved.Some? && saved.value != "" && parsed.Some? then
      MergeKeepsDefaultKeys(defaults, parsed.value);
      DeepMerge(defaults, parsed.value)
    else defaults
  }

  // ----- cooldown -----

  /** `levelData.cooldownUntil` is truthy. */
  predicate HasCooldown(d: LevelData) {
    d.cooldownUntil.Some? && d.cooldownUntil.value != 0
  }

  /** `isInCooldown`. */
  predicate IsInCooldown(d: LevelData, now: int) {
    HasCooldown(d) && now < d.cooldownUntil.value
  }

  /** `getRemainingCooldown`: the whole seconds left, rounded up. */
  function RemainingCooldown(d: LevelData, now: int): (secs: nat)
    ensures secs > 0 <==> IsInCooldown(d, now)
    ensures IsInCooldown(d, now) ==>
              (secs - 1) * 1000 < d.cooldownUntil.value - now <= secs * 1000
  {
    if !HasCooldown(d) then 0
    else
      var remaining := d.cooldownUntil.value - now;
      if remaining > 0 then (remaining + 999) / 1000 else 0
  }

  /** `formatCooldownTime`: `MM:SS` while cooling down, else empty. */
  function FormatCooldownTime(d: LevelData, now: int): (r: string)
    ensures r == "" <==> !IsInCooldown(d, now)
    ensures IsInCooldown(d, now) ==> ShowsDuration(r, RemainingCooldown(d, now))
  {
    var seconds := RemainingCooldown(d, now);
    if seconds == 0 then "" else MinutesSeconds(seconds)
  }

  /** `setCooldown`: the level cools down for thirty minutes from `now`. */
  function SetCooldown(d: LevelData, now: int): (r: LevelData)
    ensures r == d.(cooldownUntil := r.cooldownUntil)
    ensures now >= 0 ==> forall t :: IsInCooldown(r, t) <==> t < now + CooldownDuration
    ensures now >= 0 ==> RemainingCooldown(r, now) == 30 * 60
  {
    d.(cooldownUntil := Some(now + CooldownDuration))
  }

  /** Right after a failed exam the page shows `30:00`. */
  lemma FreshCooldownShowsThirtyMinutes(d: LevelData, now: int)
    requires now >= 0
    ensures FormatCooldownTime(SetCooldown(d, now), now) == "30:00"
  {
    assert PadTwo(30) == "30" by {
      assert NatToString(30) == NatToString(3) + [DigitChar(0)];
    }
    assert PadTwo(0) == "00";
  }

  /** `clearCooldown`. */
  function ClearCooldown(d: LevelData): (r: LevelData)
    ensures r == d.(cooldownUntil := r.cooldownUntil)
    ensures forall t :: !IsInCooldown(r, t) && RemainingCooldown(r, t) == 0 && FormatCooldownTime(r, t) == ""
  {
    d.(cooldownUntil := None)
  }

  // ----- badges -----

  /** Every badge, in the order `getEarnedBadges` lists them. */
  const BadgeOrder: seq<string> := ["phonics"] + GradeOrder + BookOrder + AcademicOrder

  /** The badge a name stands for, if the record has that group. */
  function BadgeOf(p: Progress, id: string): Option<Badge> {
    if id == "phonics" then Some(p.phonics.badge)
    else if id in GradeOrder then BranchBadge(p.primary, id)
    else if id in BookOrder then BranchBadge(p.books, id)
    else if id in AcademicOrder then BranchBadge(p.academic, id)
    else None
  }

  function BranchBadge(b: Branch, id: string): Option<Badge> {
    if id in b.groups then Some(b.groups[id].badge) else None
  }

  predicate Earned(p: Progress, id: string) {
    BadgeOf(p, id).Some? && BadgeOf(p, id).value.earned
  }

  datatype EarnedBadge = EarnedBadge(id: string, earnedAt: Option<int>)

  function Ids(bs: seq<EarnedBadge>): (r: seq<string>)
    ensures |r| == |bs| && forall i :: 0 <= i < |bs| ==> r[i] == bs[i].id
  {
    seq(|bs|, i requires 0 <= i < |bs| => bs[i].id)
  }

  /** The reference list: the names of `order` whose badge is earned. */
  function EarnedIn(p: Progress, order: seq<string>): (r: seq<string>)
    ensures forall id :: id in r <==> id in order && Earned(p, id)
    decreases |order|
  {
    if |order| == 0 then []
    else (if Earned(p, order[0]) then [order[0]] else []) + EarnedIn(p, order[1..])
  }

  lemma {:induction false} EarnedInAppend(p: Progress, a: seq<string>, b: seq<string>)
    ensures EarnedIn(p, a + b) == EarnedIn(p, a) + EarnedIn(p, b)
    decreases |a|
  {
    if |a| > 0 {
      assert (a + b)[0] == a[0];
      assert (a + b)[1..] == a[1..] + b;
      EarnedInAppend(p, a[1..], b);
    } else {
      assert a + b == b;
    }
  }

  /** The grade, book and academic names are told apart from each other
      and from `phonics`, so each finds its badge in its own series. */
  lemma GradeBadges(p: Progress)
    ensures forall id :: id in GradeOrder ==> BadgeOf(p, id) == BranchBadge(p.primary, id)
  {
    assert "phonics" !in GradeOrder;
  }

  lemma BookBadges(p: Progress)
    ensures forall id :: id in BookOrder ==> BadgeOf(p, id) == BranchBadge(p.books, id)
  {
    assert "phonics" !in BookOrder;
    assert forall id :: id in BookOrder ==> id !in GradeOrder;
  }

  lemma AcademicBadges(p: Progress)
    ensures forall id :: id in AcademicOrder ==> BadgeOf(p, id) == BranchBadge(p.academic, id)
  {
    assert "phonics" !in AcademicOrder;
    assert forall id :: id in AcademicOrder ==> id !in GradeOrder && id !in BookOrder;
  }

  /** The badges of one series, in the order given, each with its time. */
  function BranchBadges(b: Branch, order: seq<string>): (r: seq<EarnedBadge>)
    ensures forall e :: e in r ==> e.id in order
    ensures forall e :: e in r ==> BranchBadge(b, e.id).Some? && e.earnedAt == BranchBadge(b, e.id).value.earnedAt
    decreases |order|
  {
    if |order| == 0 then []
    else
      var id := order[0];
      var rest := BranchBadges(b, order[1..]);
      if id in b.groups && b.groups[id].badge.earned then [EarnedBadge(id, b.groups[id].badge.earnedAt)] + rest
      else rest
  }

  lemma {:induction false} BranchBadgesIds(p: Progress, b: Branch, order: seq<string>)
    requires forall i :: 0 <= i < |order| ==> BadgeOf(p, order[i]) == BranchBadge(b, order[i])
    ensures Ids(BranchBadges(b, order)) == EarnedIn(p, order)
    decreases |order|
  {
    if |order| > 0 {
      BranchBadgesIds(p, b, order[1..]);
      BranchBadgesStep(p, b, order);
    }
  }

  lemma BranchBadgesStep(p: Progress, b: Branch, order: seq<string>)
    requires |order| > 0 && BadgeOf(p, order[0]) == BranchBadge(b, order[0])
    requires Ids(BranchBadges(b, order[1..])) == EarnedIn(p, order[1..])
    ensures Ids(BranchBadges(b, order)) == EarnedIn(p, order)
  {
    var id := order[0];
    var rest := BranchBadges(b, order[1..]);
    assert Earned(p, id) <==> id in b.groups && b.groups[id].badge.earned;
    if id in b.groups && b.groups[id].badge.earned {
      IdsCons(EarnedBadge(id, b.groups[id].badge.earnedAt), rest);
    }
  }

  lemma IdsCons(e: EarnedBadge, rest: seq<EarnedBadge>)
    ensures Ids([e] + rest) == [e.id] + Ids(rest)
  {
  }

  function PhonicsBadge(p: Progress): seq<EarnedBadge> {
    if p.phonics.badge.earned then [EarnedBadge("phonics", p.phonics.badge.earnedAt)] else []
  }

  /** `getEarnedBadges`: the earned badges, series by series, each with its
      time (the order is `EarnedBadgesInOrder`). */
  function EarnedBadges(p: Progress): (r: seq<EarnedBadge>)
    ensures forall e :: e in r ==> BadgeOf(p, e.id).Some? && e.earnedAt == BadgeOf(p, e.id).value.earnedAt
  {
    GradeBadges(p);
    BookBadges(p);
    AcademicBadges(p);
    PhonicsBadge(p) + BranchBadges(p.primary, GradeOrder) + BranchBadges(p.books, BookOrder)
      + BranchBadges(p.academic, AcademicOrder)
  }

  lemma BadgeOrderSplit(p: Progress)
    ensures EarnedIn(p, BadgeOrder)
            == EarnedIn(p, ["phonics"]) + EarnedIn(p, GradeOrder) + EarnedIn(p, BookOrder) + EarnedIn(p, AcademicOrder)
  {
    var first: seq<string> := ["phonics"];
    EarnedInAppend(p, first + GradeOrder + BookOrder, AcademicOrder);
    EarnedInAppend(p, first + GradeOrder, BookOrder);
    EarnedInAppend(p, first, GradeOrder);
  }

  lemma EarnedBadgesSplit(p: Progress)
    ensures Ids(EarnedBadges(p))
            == Ids(PhonicsBadge(p)) + Ids(BranchBadges(p.primary, GradeOrder))
               + Ids(BranchBadges(p.books, BookOrder)) + Ids(BranchBadges(p.academic, AcademicOrder))
  {
    var ph := PhonicsBadge(p);
    var gr := BranchBadges(p.primary, GradeOrder);
    var bk := BranchBadges(p.books, BookOrder);
    var ac := BranchBadges(p.academic, AcademicOrder);
    IdsAppend(ph + gr + bk, ac);
    IdsAppend(ph + gr, bk);
    IdsAppend(ph, gr);
  }

  lemma SeriesIds(p: Progress)
    ensures Ids(PhonicsBadge(p)) == EarnedIn(p, ["phonics"])
    ensures Ids(BranchBadges(p.primary, GradeOrder)) == EarnedIn(p, GradeOrder)
    ensures Ids(BranchBadges(p.books, BookOrder)) == EarnedIn(p, BookOrder)
    ensures Ids(BranchBadges(p.academic, AcademicOrder)) == EarnedIn(p, AcademicOrder)
  {
    PhonicsIds(p);
    GradeIds(p);
    BookIds(p);
    AcademicIds(p);
  }

  lemma PhonicsIds(p: Progress)
    ensures Ids(PhonicsBadge(p)) == EarnedIn(p, ["phonics"])
  {
    var first: seq<string> := ["phonics"];
    assert first[1..] == [];
    assert Earned(p, "phonics") == p.phonics.badge.earned;
    assert EarnedIn(p, first) == (if Earned(p, "phonics") then first else []) + EarnedIn(p, []);
  }

  lemma GradeIds(p: Progress)
    ensures Ids(BranchBadges(p.primary, GradeOrder)) == EarnedIn(p, GradeOrder)
  {
    GradeBadges(p);
    BranchBadgesIds(p, p.primary, GradeOrder);
  }

  lemma BookIds(p: Progress)
    ensures Ids(BranchBadges(p.books, BookOrder)) == EarnedIn(p, BookOrder)
  {
    BookBadges(p);
    BranchBadgesIds(p, p.books, BookOrder);
  }

  lemma AcademicIds(p: Progress)
    ensures Ids(BranchBadges(p.academic, AcademicOrder)) == EarnedIn(p, AcademicOrder)
  {
    AcademicBadges(p);
    BranchBadgesIds(p, p.academic, AcademicOrder);
  }

  /** The list holds exactly the earned badges, in the fixed order. */
  lemma EarnedBadgesInOrder(p: Progress)
    ensures Ids(EarnedBadges(p)) == EarnedIn(p, BadgeOrder)
  {
    BadgeOrderSplit(p);
    EarnedBadgesSplit(p);
    SeriesIds(p);
  }

  lemma IdsAppend(a: seq<EarnedBadge>, b: seq<EarnedBadge>)
    ensures Ids(a + b) == Ids(a) + Ids(b)
  {
  }
}
