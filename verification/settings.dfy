/** The lesson-selection settings page: proj/src/ui/settings.js and its
    predecessor proj/settings-v2.js (both classes are `SettingsManagerV2`).
    The selection is a set of lesson ids; storage reads, the configuration
    and the clicked ids are inputs, and rendering is left out. */
module Settings {
  import opened Wrappers
  import opened Text
  import opened Ordering

  // ---------------------------------------------------------------------
  // Configuration

  /** A lesson of a three-level category; a word count of 0 stands for a
      missing one (`wordCount || 0`). */
  datatype Item = Item(id: string, wordCount: nat)

  /** A subcategory: a lesson itself, or (when `items` is present) a group
      of lessons such as one grade. */
  datatype Sub = Sub(id: string, wordCount: nat, items: Option<seq<Item>>)

  datatype Category = Category(id: string, subcategories: Option<seq<Sub>>)

  // ---------------------------------------------------------------------
  // loadUserSettings

  /** A stored value: absent (or the empty string), not JSON, a JSON array
      of strings, or some other JSON value. */
  datatype Stored = Absent | Corrupt | List(ids: seq<string>) | NotList

  datatype Mode = Casual | Challenge

  datatype UserSettings = UserSettings(selected: set<string>, mode: Mode,
                                       expandedCategories: set<string>,
                                       expandedGradeGroups: set<string>)

  /** `JSON.parse(saved || '[]')` guarded by `Array.isArray`; `None` when
      parsing throws. */
  function ExpandedSet(saved: Stored): (r: Option<set<string>>)
    ensures r.None? <==> saved.Corrupt?
  {
    match saved
    case Corrupt => None
    case List(ids) => Some(ToSet(ids))
    case _ => Some({})
  }

  /** `loadUserSettings` of proj/src/ui/settings.js. Anything thrown inside
      (a selection that is not JSON or not a list, or an expansion state
      that is not JSON) resets everything to the defaults. A saved empty
      list also gives the default selection. */
  function LoadUserSettings(defaults: seq<string>, libs: Stored, mode: Option<string>,
                            categories: Stored, gradeGroups: Stored): (r: UserSettings)
    ensures r.mode == Challenge ==> mode == Some("challenge")
    ensures libs.List? && libs.ids != [] && !categories.Corrupt? && !gradeGroups.Corrupt? ==>
              r.selected == ToSet(libs.ids)
              && r.mode == (if mode == Some("challenge") then Challenge else Casual)
    ensures !libs.List? || libs.ids == [] ==> r.selected == ToSet(defaults)
  {
    var fallback := UserSettings(ToSet(defaults), Casual, {}, {});
    if libs.Corrupt? || libs.NotList? then fallback
    else
      var selected := if libs.List? && libs.ids != [] then ToSet(libs.ids) else ToSet(defaults);
      var m := if mode == Some("challenge") then Challenge else Casual;
      match (ExpandedSet(categories), ExpandedSet(gradeGroups))
      case (Some(c), Some(g)) => UserSettings(selected, m, c, g)
      case _ => fallback
  }

  /** `loadUserSettings` of proj/settings-v2.js: a saved list is restored
      as it is, even when empty; there is no mode or expansion state. */
  function LoadSelectionV2(defaults: seq<string>, libs: Stored): (r: set<string>)
    ensures libs.List? ==> r == ToSet(libs.ids)
    ensures !libs.List? ==> r == ToSet(defaults)
  {
    if libs.List? then ToSet(libs.ids) else ToSet(defaults)
  }

  /** Saving then loading keeps a selection, in both versions, since
      `saveSettings` only ever stores a non-empty one; only the older page
      would turn a stored empty list back into the defaults. */
  lemma SaveThenLoad(defaults: seq<string>, saved: seq<string>, mode: Mode, expanded: seq<string>)
    requires saved != []
    ensures var r := LoadUserSettings(defaults, List(saved), Some(if mode == Challenge then "challenge" else "casual"),
                                      List(expanded), Absent);
            r.selected == ToSet(saved) && r.mode == mode && r.expandedCategories == ToSet(expanded)
    ensures LoadSelectionV2(defaults, List(saved)) == ToSet(saved)
    ensures LoadSelectionV2(defaults, List([])) == {} && LoadUserSettings(defaults, List([]), None, Absent, Absent).selected == ToSet(defaults)
  {
  }

  // ---------------------------------------------------------------------
  // Selection changes

  /** `toggleSelection`. */
  function Toggle(selected: set<string>, id: string): (r: set<string>)
    ensures id in r <==> id !in selected
    ensures forall x :: x != id ==> (x in r <==> x in selected)
  {
    if id in selected then selected - {id} else selected + {id}
  }

  lemma ToggleTwice(selected: set<string>, id: string)
    ensures Toggle(Toggle(selected, id), id) == selected
  {
  }

  /** The select-all buttons: when every listed id is selected they are
      all removed, otherwise they are all added. */
  function SelectAll(selected: set<string>, ids: seq<string>): (r: set<string>)
    ensures (forall i :: 0 <= i < |ids| ==> ids[i] in selected) ==> r == selected - ToSet(ids)
    ensures (exists i :: 0 <= i < |ids| && ids[i] !in selected) ==> r == selected + ToSet(ids)
  {
    if forall i :: 0 <= i < |ids| ==> ids[i] in selected then selected - ToSet(ids)
    else selected + ToSet(ids)
  }

  /** Pressing select-all twice from a partial selection selects the ids
      and then clears them: the result is the selection without them. */
  lemma SelectAllTwice(selected: set<string>, ids: seq<string>)
    requires exists i :: 0 <= i < |ids| && ids[i] !in selected
    ensures SelectAll(selected, ids) >= ToSet(ids)
    ensures SelectAll(SelectAll(selected, ids), ids) == selected - ToSet(ids)
  {
    var once := SelectAll(selected, ids);
    assert forall i :: 0 <= i < |ids| ==> ids[i] in once;
  }

  function SubIds(subs: seq<Sub>): (r: seq<string>)
    ensures |r| == |subs| && forall i :: 0 <= i < |subs| ==> r[i] == subs[i].id
  {
    seq(|subs|, i requires 0 <= i < |subs| => subs[i].id)
  }

  function ItemIds(items: seq<Item>): (r: seq<string>)
    ensures |r| == |items| && forall i :: 0 <= i < |items| ==> r[i] == items[i].id
  {
    seq(|items|, i requires 0 <= i < |items| => items[i].id)
  }

  /** `Array.prototype.find` by id. */
  function FindCategory(categories: seq<Category>, id: string): (r: Option<Category>)
    ensures r.Some? ==> r.value in categories && r.value.id == id
    ensures r.None? ==> forall c :: c in categories ==> c.id != id
    decreases |categories|
  {
    if |categories| == 0 then None
    else if categories[0].id == id then Some(categories[0])
    else FindCategory(categories[1..], id)
  }

  function FindSub(subs: seq<Sub>, id: string): (r: Option<Sub>)
    ensures r.Some? ==> r.value in subs && r.value.id == id
    ensures r.None? ==> forall s :: s in subs ==> s.id != id
    decreases |subs|
  {
    if |subs| == 0 then None
    else if subs[0].id == id then Some(subs[0])
    else FindSub(subs[1..], id)
  }

  /** The subcategories of the first category with that id, when it
      exists and has any. */
  function CategorySubs(categories: seq<Category>, id: string): Option<seq<Sub>>
  {
    match FindCategory(categories, id)
    case Some(c) => c.subcategories
    case None => None
  }

  /** `selectAllInCategory`: an unknown category, or one without
      subcategories (the lookup throws), leaves the selection alone. */
  function SelectAllInCategory(categories: seq<Category>, selected: set<string>, categoryId: string): (r: set<string>)
    ensures FindCategory(categories, categoryId).None? ==> r == selected
    ensures FindCategory(categories, categoryId).Some? && FindCategory(categories, categoryId).value.subcategories.None? ==>
              r == selected
    ensures FindCategory(categories, categoryId).Some? && FindCategory(categories, categoryId).value.subcategories.Some? ==>
              r == SelectAll(selected, SubIds(FindCategory(categories, categoryId).value.subcategories.value))
  {
    match CategorySubs(categories, categoryId)
    case Some(subs) => SelectAll(selected, SubIds(subs))
    case None => selected
  }

  /** The items of the group `gradeId` of the `grade-based` category, when
      both are found and the group has items. */
  function GradeItems(categories: seq<Category>, gradeId: string): (r: Option<seq<Item>>)
    ensures r.Some? ==> exists c, g :: c in categories && c.id == "grade-based" && c.subcategories.Some?
                                     && g in c.subcategories.value && g.id == gradeId && g.items == r
  {
    match CategorySubs(categories, "grade-based")
    case Some(groups) =>
      (match FindSub(groups, gradeId)
       case Some(g) => g.items
       case None => None)
    case None => None
  }

  /** `selectAllInGrade`: the items of one group of the `grade-based`
      category. */
  function SelectAllInGrade(categories: seq<Category>, selected: set<string>, gradeId: string): (r: set<string>)
    ensures FindCategory(categories, "grade-based").None? ==> r == selected
    ensures GradeItems(categories, gradeId).None? ==> r == selected
    ensures GradeItems(categories, gradeId).Some? ==>
              r == SelectAll(selected, ItemIds(GradeItems(categories, gradeId).value))
  {
    match GradeItems(categories, gradeId)
    case Some(items) => SelectAll(selected, ItemIds(items))
    case None => selected
  }

  // ---------------------------------------------------------------------
  // Saving and resetting

  datatype SaveOutcome = Refused | Saved(selection: set<string>)

  /** `saveSettings` and `applyAndStart` (both versions): nothing is
      stored, and the page is not left, while the selection is empty. */
  function Save(selected: set<string>): (r: SaveOutcome)
    ensures r.Refused? <==> selected == {}
    ensures r.Saved? ==> r.selection == selected
  {
    if |selected| == 0 then Refused else Saved(selected)
  }

  /** `resetToDefault` of proj/src/ui/settings.js: the default selection
      and casual mode; the expansion state is kept. */
  function ResetToDefault(s: UserSettings, defaults: seq<string>): (r: UserSettings)
    ensures r.selected == ToSet(defaults) && r.mode == Casual
    ensures r.expandedCategories == s.expandedCategories && r.expandedGradeGroups == s.expandedGradeGroups
  {
    s.(selected := ToSet(defaults), mode := Casual)
  }

  // ---------------------------------------------------------------------
  // The overview total

  /** `renderOverview`'s total: over every category with subcategories,
      the selected lessons of three-level groups and the selected
      two-level lessons. */
  function TotalWords(categories: seq<Category>, selected: set<string>): nat
    decreases |categories|
  {
    if |categories| == 0 then 0
    else
      var c := categories[0];
      (if c.subcategories.Some? then SubsTotal(c.subcategories.value, selected) else 0)
      + TotalWords(categories[1..], selected)
  }

  function SubsTotal(subs: seq<Sub>, selected: set<string>): nat
    decreases |subs|
  {
    if |subs| == 0 then 0
    else
      var s := subs[0];
      (if s.items.Some? then ItemsTotal(s.items.value, selected)
       else if s.id in selected then s.wordCount else 0)
      + SubsTotal(subs[1..], selected)
  }

  function ItemsTotal(items: seq<Item>, selected: set<string>): nat
    decreases |items|
  {
    if |items| == 0 then 0
    else (if items[0].id in selected then items[0].wordCount else 0) + ItemsTotal(items[1..], selected)
  }

  /** The selectable lessons, flattened: a group contributes its items,
      a plain subcategory itself. */
  function Lessons(categories: seq<Category>): seq<Item>
    decreases |categories|
  {
    if |categories| == 0 then []
    else
      var c := categories[0];
      (if c.subcategories.Some? then SubLessons(c.subcategories.value) else []) + Lessons(categories[1..])
  }

  function SubLessons(subs: seq<Sub>): seq<Item>
    decreases |subs|
  {
    if |subs| == 0 then []
    else
      var s := subs[0];
      (if s.items.Some? then s.items.value else [Item(s.id, s.wordCount)]) + SubLessons(subs[1..])
  }

  lemma {:induction false} ItemsTotalAppend(a: seq<Item>, b: seq<Item>, selected: set<string>)
    ensures ItemsTotal(a + b, selected) == ItemsTotal(a, selected) + ItemsTotal(b, selected)
    decreases |a|
  {
    if |a| == 0 {
      assert a + b == b;
    } else {
      assert (a + b)[1..] == a[1..] + b;
      ItemsTotalAppend(a[1..], b, selected);
    }
  }

  lemma {:induction false} SubsTotalIsLessonTotal(subs: seq<Sub>, selected: set<string>)
    ensures SubsTotal(subs, selected) == ItemsTotal(SubLessons(subs), selected)
    decreases |subs|
  {
    if |subs| > 0 {
      var s := subs[0];
      var own := if s.items.Some? then s.items.value else [Item(s.id, s.wordCount)];
      SubsTotalIsLessonTotal(subs[1..], selected);
      ItemsTotalAppend(own, SubLessons(subs[1..]), selected);
      if s.items.None? {
        assert ItemsTotal(own, selected) == (if s.id in selected then s.wordCount else 0) by {
          assert own[1..] == [];
        }
      }
    }
  }

  /** The total is the word count of the selected lessons: every lesson
      counts once when selected, whichever level it sits on. */
  lemma {:induction false} TotalIsLessonTotal(categories: seq<Category>, selected: set<string>)
    ensures TotalWords(categories, selected) == ItemsTotal(Lessons(categories), selected)
    decreases |categories|
  {
    if |categories| > 0 {
      var c := categories[0];
      var own := if c.subcategories.Some? then SubLessons(c.subcategories.value) else [];
      TotalIsLessonTotal(categories[1..], selected);
      ItemsTotalAppend(own, Lessons(categories[1..]), selected);
      if c.subcategories.Some? {
        SubsTotalIsLessonTotal(c.subcategories.value, selected);
      }
    }
  }

  /** The word count of the lessons carrying one id. */
  function WeightOf(items: seq<Item>, id: string): nat
    decreases |items|
  {
    if |items| == 0 then 0 else (if items[0].id == id then items[0].wordCount else 0) + WeightOf(items[1..], id)
  }

  lemma {:induction false} AddOneId(items: seq<Item>, selected: set<string>, id: string)
    requires id !in selected
    ensures ItemsTotal(items, selected + {id}) == ItemsTotal(items, selected) + WeightOf(items, id)
    decreases |items|
  {
    if |items| > 0 {
      AddOneId(items[1..], selected, id);
    }
  }

  /** Toggling a lesson moves the overview total by exactly that lesson's
      words: up when it is selected, down when it is deselected. */
  lemma ToggleMovesTotal(categories: seq<Category>, selected: set<string>, id: string)
    ensures var w := WeightOf(Lessons(categories), id);
            id !in selected ==> TotalWords(categories, Toggle(selected, id)) == TotalWords(categories, selected) + w
    ensures var w := WeightOf(Lessons(categories), id);
            id in selected ==> TotalWords(categories, Toggle(selected, id)) + w == TotalWords(categories, selected)
  {
    var lessons := Lessons(categories);
    TotalIsLessonTotal(categories, selected);
    TotalIsLessonTotal(categories, Toggle(selected, id));
    if id in selected {
      AddOneId(lessons, selected - {id}, id);
      assert selected - {id} + {id} == selected;
    } else {
      AddOneId(lessons, selected, id);
    }
  }

  // ---------------------------------------------------------------------
  // openLesson

  /** The length of the run of decimal digits at the start of `s`. */
  function DigitRun(s: string): (n: nat)
    ensures n <= |s|
    ensures forall i :: 0 <= i < n ==> IsDigit(s[i])
    ensures n == |s| || !IsDigit(s[n])
    decreases |s|
  {
    if |s| == 0 || !IsDigit(s[0]) then 0 else 1 + DigitRun(s[1..])
  }

  predicate AllDigits(s: string) {
    |s| > 0 && forall i :: 0 <= i < |s| ==> IsDigit(s[i])
  }

  /** `/^grade\d+-term\d+-unit\d+$/i` on an already lower-cased string. */
  predicate UnitShape(s: string) {
    StartsWith(s, "grade")
    && var a := s[5..];
       var n1 := DigitRun(a);
       n1 > 0 && StartsWith(a[n1..], "-term")
       && var b := a[n1 + 5..];
          var n2 := DigitRun(b);
          n2 > 0 && StartsWith(b[n2..], "-unit") && AllDigits(b[n2 + 5..])
  }

  /** The regular expression, case-insensitively. */
  predicate IsUnitLesson(lessonId: string) {
    UnitShape(Lower(lessonId))
  }

  const UnitTemplate: string := "./study/unit-lesson-template.html?lesson="
  const PhonicsTemplate: string := "./study/phonics-lesson-template.html?lesson="

  /** `openLesson` of proj/src/ui/settings.js: grade units open the unit
      page, everything else the phonics page. */
  function OpenLesson(lessonId: string): (r: string)
    ensures IsUnitLesson(lessonId) ==> r == UnitTemplate + lessonId
    ensures !IsUnitLesson(lessonId) ==> r == PhonicsTemplate + lessonId
  {
    if IsUnitLesson(lessonId) then UnitTemplate + lessonId else PhonicsTemplate + lessonId
  }

  /** `openLesson` of proj/settings-v2.js: always the phonics page. */
  function OpenLessonV2(lessonId: string): (r: string)
    ensures EndsWith(r, lessonId) && StartsWith(r, PhonicsTemplate)
  {
    PhonicsTemplate + lessonId
  }

  lemma DigitRunOfDigits(d: string, rest: string)
    requires AllDigits(d) && (|rest| == 0 || !IsDigit(rest[0]))
    ensures DigitRun(d + rest) == |d|
    decreases |d|
  {
    if |d| > 1 {
      assert (d + rest)[1..] == d[1..] + rest;
      DigitRunOfDigits(d[1..], rest);
    } else {
      assert (d + rest)[1..] == rest;
    }
  }

  /** A prefix and what follows it, read back apart. */
  lemma PrefixSlice(p: string, x: string)
    ensures StartsWith(p + x, p) && (p + x)[|p|..] == x
  {
    assert (p + x)[..|p|] == p;
  }

  /** Every id of the form `grade<digits>-term<digits>-unit<digits>`, in
      any letter case, is routed to the unit page. */
  lemma UnitIdsMatch(d1: string, d2: string, d3: string)
    requires AllDigits(d1) && AllDigits(d2) && AllDigits(d3)
    ensures UnitShape("grade" + d1 + "-term" + d2 + "-unit" + d3)
  {
    var t3 := "-unit" + d3;
    var b := d2 + t3;
    var t2 := "-term" + b;
    var a := d1 + t2;
    var s := "grade" + a;
    assert s == "grade" + d1 + "-term" + d2 + "-unit" + d3 by {
      Assoc("grade", d1, t2);
      Assoc("grade" + d1, "-term", b);
      Assoc("grade" + d1 + "-term", d2, t3);
      Assoc("grade" + d1 + "-term" + d2, "-unit", d3);
    }
    PrefixSlice("grade", a);
    DigitRunOfDigits(d1, t2);
    PrefixSlice(d1, t2);
    PrefixSlice("-term", b);
    assert a[|d1| + 5..] == b by { assert a[|d1| + 5..] == a[|d1|..][5..]; }
    DigitRunOfDigits(d2, t3);
    PrefixSlice(d2, t3);
    PrefixSlice("-unit", d3);
    assert b[|d2| + 5..] == d3 by { assert b[|d2| + 5..] == b[|d2|..][5..]; }
  }

  lemma PrefixSplit(s: string, prefix: string)
    requires StartsWith(s, prefix)
    ensures s == prefix + s[|prefix|..]
  {
  }

  lemma UnitShapeParts(s: string) returns (d1: string, d2: string, d3: string)
    requires UnitShape(s)
    ensures AllDigits(d1) && AllDigits(d2) && AllDigits(d3)
    ensures s == "grade" + d1 + "-term" + d2 + "-unit" + d3
  {
    var a := s[5..];
    var n1 := DigitRun(a);
    var b := a[n1 + 5..];
    var n2 := DigitRun(b);
    d1, d2, d3 := a[..n1], b[..n2], b[n2 + 5..];
    SplitAround(b, n2, "-unit");
    SplitAround(a, n1, "-term");
    PrefixSplit(s, "grade");
    Nested(d1, d2, d3);
  }

  /** A string with `p` starting at position `n`, cut around `p`. */
  lemma SplitAround(s: string, n: nat, p: string)
    requires n <= |s| && StartsWith(s[n..], p)
    ensures s == s[..n] + (p + s[n + |p|..])
  {
    PrefixSplit(s[n..], p);
    assert s[n..][|p|..] == s[n + |p|..];
    assert s == s[..n] + s[n..];
  }

  /** The id, built inside out, is the id built left to right. */
  lemma Nested(d1: string, d2: string, d3: string)
    ensures "grade" + (d1 + ("-term" + (d2 + ("-unit" + d3)))) == "grade" + d1 + "-term" + d2 + "-unit" + d3
  {
    var tail := d2 + ("-unit" + d3);
    Assoc("grade", d1, "-term" + tail);
    Assoc("grade" + d1, "-term", tail);
    Assoc("grade" + d1 + "-term", d2, "-unit" + d3);
    Assoc("grade" + d1 + "-term" + d2, "-unit", d3);
  }

  lemma Assoc(a: string, b: string, c: string)
    ensures a + (b + c) == a + b + c
  {
  }

  /** Conversely a routed id has exactly that form once lower-cased. */
  lemma UnitLessonShape(lessonId: string)
    requires IsUnitLesson(lessonId)
    ensures exists d1, d2, d3 :: AllDigits(d1) && AllDigits(d2) && AllDigits(d3)
              && Lower(lessonId) == "grade" + d1 + "-term" + d2 + "-unit" + d3
  {
    var d1, d2, d3 := UnitShapeParts(Lower(lessonId));
  }

  /** A grade unit spelt with capitals routes to the unit page. */
  lemma CapitalisedUnitRoutes()
    ensures IsUnitLesson("Grade3-Term1-Unit2")
  {
    UnitIdsMatch("3", "1", "2");
    LowerSampleId();
    SampleIdParts();
  }

  lemma SampleIdParts()
    ensures "grade3-term1-unit2" == "grade" + "3" + "-term" + "1" + "-unit" + "2"
  {
    assert "grade3-term1-unit2" == "grade3-" + "term1-" + "unit2";
    assert "grade3-" == "grade" + "3" + "-";
    assert "term1-" == "term" + "1" + "-";
  }

  lemma LowerSampleId()
    ensures Lower("Grade3-Term1-Unit2") == "grade3-term1-unit2"
  {
    assert "Grade3-Term1-Unit2" == "Grade3-" + "Term1-" + "Unit2";
    LowerAppend("Grade3-", "Term1-");
    LowerAppend("Grade3-" + "Term1-", "Unit2");
    LowerWord("Grade3-", "grade3-");
    LowerWord("Term1-", "term1-");
    LowerWord("Unit2", "unit2");
    assert "grade3-" + "term1-" + "unit2" == "grade3-term1-unit2";
  }

  /** A word and its lower-cased spelling, compared letter by letter. */
  lemma LowerWord(w: string, low: string)
    requires |w| == |low| && forall i :: 0 <= i < |w| ==> LowerChar(w[i]) == low[i]
    ensures Lower(w) == low
  {
  }

  /** A day of phonics does not route to the unit page. */
  lemma PhonicsDayRoutesElsewhere()
    ensures !IsUnitLesson("day01")
  {
    var s := Lower("day01");
    assert s[0] == 'd';
    assert "grade"[0] == 'g';
  }
}
