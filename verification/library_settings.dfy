/** The word-library settings page, proj/settings.js (`SettingsManager`):
    which libraries are enabled, the difficulty range, the defaults, and
    the wait for the vocabulary manager. The DOM, the status messages and
    the manager's own `updateConfig` are left out. */
module LibrarySettings {
  import opened Wrappers
  import opened Ordering

  // ---------------------------------------------------------------------
  // Enabling and disabling libraries

  /** `indexOf`: the first position holding `x`. */
  function IndexOf<T(==)>(s: seq<T>, x: T): (r: Option<nat>)
    ensures r.None? <==> x !in s
    ensures r.Some? ==> r.value < |s| && s[r.value] == x && x !in s[..r.value]
    decreases |s|
  {
    if |s| == 0 then None
    else if s[0] == x then Some(0)
    else
      match IndexOf(s[1..], x)
      case None => None
      case Some(i) =>
        assert s[..i + 1] == [s[0]] + s[1..][..i];
        Some(i + 1)
  }

  datatype Toggled = Refused | Updated(enabled: seq<string>)

  /** `toggleLibrary`: an enabled library is disabled (its first
      occurrence removed) unless it is the only one; any other is enabled
      by appending it. */
  function ToggleLibrary(enabled: seq<string>, id: string): (r: Toggled)
    ensures r.Refused? <==> enabled == [id]
    ensures id !in enabled ==> r == Updated(enabled + [id])
    ensures id in enabled && r.Updated? ==>
              |r.enabled| == |enabled| - 1 && multiset(r.enabled) == multiset(enabled) - multiset{id}
    ensures id in enabled && r.Updated? ==>
              var i := IndexOf(enabled, id).value;
              r.enabled == enabled[..i] + enabled[i + 1..]
  {
    match IndexOf(enabled, id)
    case None => Updated(enabled + [id])
    case Some(i) =>
      if |enabled| == 1 then
        assert enabled == [id];
        Refused
      else
        var r := RemoveAt(enabled, i);
        assert enabled == enabled[..i] + [id] + enabled[i + 1..];
        assert r == enabled[..i] + enabled[i + 1..];
        Updated(r)
  }

  /** The page never leaves zero libraries enabled once one is. */
  lemma ToggleKeepsOne(enabled: seq<string>, id: string)
    requires |enabled| > 0
    ensures ToggleLibrary(enabled, id).Updated? ==> |ToggleLibrary(enabled, id).enabled| > 0
  {
    if id in enabled && ToggleLibrary(enabled, id).Updated? {
      assert enabled != [id];
    }
  }

  /** A list without repeats keeps none, and disabling then removes the
      library altogether. */
  lemma ToggleKeepsDistinct(enabled: seq<string>, id: string)
    requires Distinct(enabled)
    ensures ToggleLibrary(enabled, id).Updated? ==>
              Distinct(ToggleLibrary(enabled, id).enabled)
              && (id in ToggleLibrary(enabled, id).enabled <==> id !in enabled)
  {
    var r := ToggleLibrary(enabled, id);
    if r.Updated? {
      if id in enabled {
        var i := IndexOf(enabled, id).value;
        assert r.enabled == RemoveAt(enabled, i);
      } else {
        assert r.enabled == enabled + [id];
      }
    }
  }

  /** Enabling a library and then disabling it restores the list, as long
      as some other library was enabled before; from nothing, the second
      click is refused. */
  lemma EnableThenDisable(enabled: seq<string>, id: string)
    requires id !in enabled
    ensures enabled != [] ==> ToggleLibrary(ToggleLibrary(enabled, id).enabled, id) == Updated(enabled)
    ensures enabled == [] ==> ToggleLibrary(ToggleLibrary(enabled, id).enabled, id) == Refused
  {
    var once := enabled + [id];
    assert IndexOf(once, id) == Some(|enabled|) by {
      assert id !in once[..|enabled|] by { assert once[..|enabled|] == enabled; }
    }
    assert RemoveAt(once, |enabled|) == enabled;
  }

  // ---------------------------------------------------------------------
  // Difficulty range

  /** The minimum selector's change handler: a minimum above the maximum
      drags the maximum up to it. */
  function OnMinChange(newMin: int, max: int): (r: (int, int))
    ensures r.0 == newMin && r.0 <= r.1
    ensures newMin <= max ==> r.1 == max
    ensures newMin > max ==> r.1 == newMin
  {
    if newMin > max then (newMin, newMin) else (newMin, max)
  }

  /** The maximum selector's change handler: a maximum below the minimum
      drags the minimum down to it. */
  function OnMaxChange(min: int, newMax: int): (r: (int, int))
    ensures r.1 == newMax && r.0 <= r.1
    ensures min <= newMax ==> r.0 == min
    ensures min > newMax ==> r.0 == newMax
  {
    if newMax < min then (newMax, newMax) else (min, newMax)
  }

  /** Each handler moves the other bound no further than it must: the
      new maximum is the least one that is neither below the old maximum
      nor below the chosen minimum, and symmetrically for the minimum. */
  lemma HandlersMoveLeast(newMin: int, newMax: int, min: int, max: int, lo: int, hi: int)
    ensures hi >= max && hi >= newMin ==> OnMinChange(newMin, max).1 <= hi
    ensures lo <= min && lo <= newMax ==> OnMaxChange(min, newMax).0 >= lo
  {
  }

  // ---------------------------------------------------------------------
  // Defaults

  datatype LibraryConfig = LibraryConfig(enabledLibraries: seq<string>, maxWords: int,
                                         difficultyRange: (int, int), categories: seq<string>)

  /** `resetToDefault`'s configuration. */
  const DefaultConfig: LibraryConfig :=
    LibraryConfig(["basic-phonics", "common-words"], 200, (1, 3), ["all"])

  /** A configuration the page can keep: some library enabled, none twice,
      and an ordered difficulty range. */
  predicate Valid(c: LibraryConfig) {
    |c.enabledLibraries| > 0 && Distinct(c.enabledLibraries)
    && c.difficultyRange.0 <= c.difficultyRange.1 && c.maxWords > 0
  }

  /** The defaults are valid, and the page's edits keep a configuration
      valid. */
  lemma EditsKeepValid(c: LibraryConfig, id: string, newMin: int, newMax: int)
    requires Valid(c)
    ensures Valid(DefaultConfig)
    ensures var t := ToggleLibrary(c.enabledLibraries, id);
            t.Updated? ==> Valid(c.(enabledLibraries := t.enabled))
    ensures Valid(c.(difficultyRange := OnMinChange(newMin, c.difficultyRange.1)))
    ensures Valid(c.(difficultyRange := OnMaxChange(c.difficultyRange.0, newMax)))
  {
    ToggleKeepsOne(c.enabledLibraries, id);
    ToggleKeepsDistinct(c.enabledLibraries, id);
    assert DefaultConfig.enabledLibraries[0] != DefaultConfig.enabledLibraries[1];
  }

  // ---------------------------------------------------------------------
  // Waiting for the vocabulary

  /** The number of 100 ms polls before giving up. */
  const MaxPolls: nat := 100

  /** `waitForLoad`: `loaded(k)` is the manager's `isLoaded` flag after
      `k` waits. The page polls until the flag is set or 100 waits have
      passed, and fails (`ok` false: the method throws) if it is still
      unset. */
  method WaitForLoad(loaded: nat -> bool) returns (ok: bool, waits: nat)
    ensures waits <= MaxPolls
    ensures ok <==> exists k :: 0 <= k <= MaxPolls && loaded(k)
    ensures ok ==> loaded(waits) && forall k :: 0 <= k < waits ==> !loaded(k)
    ensures !ok ==> waits == MaxPolls
  {
    waits := 0;
    while !loaded(waits) && waits < MaxPolls
      invariant waits <= MaxPolls
      invariant forall k :: 0 <= k < waits ==> !loaded(k)
    {
      waits := waits + 1;
    }
    ok := loaded(waits);
  }
}
