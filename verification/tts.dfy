/** The speech service (`TTSService`): the list of working speech
    providers, fastest first; what a failure does to that list; the ids
    that let `stop` cancel a `speak` call in flight. Provider tests and
    playback are outside the model: their results are parameters. */
module Tts {
  import opened Wrappers
  import opened Ordering

  /** A provider that passed its test, with the time the test took. */
  datatype Provider = Provider(name: string, responseTime: int)

  /** How one attempt with one provider ended. `Cancelled` stands for an
      outside `stop()` call that lands before or during the attempt. */
  datatype Outcome = Spoken | Interrupted | Failed | Cancelled

  datatype State = State(
    available: seq<Provider>, index: nat, failures: map<string, nat>,
    speakId: nat, active: set<nat>, cancelled: set<nat>,
    speaking: bool, tested: bool)

  const MaxSafeInteger: nat := 9_007_199_254_740_991

  /** The constructor's state. */
  function NewState(): (st: State)
    ensures IdsIssued(st) && st.index == 0 && !st.tested && st.available == []
  {
    State([], 0, map[], 0, {}, {}, false, false)
  }

  // ---------------------------------------------------------------------
  // initialize

  /** The providers whose test succeeded, in priority order; `results[i]`
      is the response time of provider `names[i]`, or `None` if its test
      failed. */
  function Candidates(names: seq<string>, results: seq<Option<int>>): (r: seq<Provider>)
    requires |names| == |results|
    ensures |r| <= |names|
    ensures forall i :: 0 <= i < |names| && results[i].Some? ==> Provider(names[i], results[i].value) in r
    ensures forall p :: p in r ==> exists i :: 0 <= i < |names| && names[i] == p.name && results[i] == Some(p.responseTime)
    decreases |names|
  {
    if |names| == 0 then []
    else
      var rest := Candidates(names[1..], results[1..]);
      assert forall i :: 1 <= i < |names| ==> names[i] == names[1..][i - 1] && results[i] == results[1..][i - 1];
      (if results[0].Some? then [Provider(names[0], results[0].value)] else []) + rest
  }

  /** Quicker test first. */
  function Faster(a: Provider, b: Provider): bool {
    a.responseTime <= b.responseTime
  }

  /** `initialize`: the first call keeps the providers whose test passed,
      sorted by response time; later calls do nothing. */
  function Initialize(st: State, names: seq<string>, results: seq<Option<int>>): (r: State)
    requires |names| == |results|
    ensures st.tested ==> r == st
    ensures !st.tested ==>
              r.tested && SortedBy(r.available, Faster)
              && multiset(r.available) == multiset(Candidates(names, results))
              && r == st.(available := r.available, tested := true)
  {
    assert Total(Faster);
    if st.tested then st
    else st.(available := SortBy(Candidates(names, results), Faster), tested := true)
  }

  /** A second `initialize`, whatever its tests would say, changes
      nothing. */
  lemma InitializeIdempotent(st: State, names: seq<string>, results: seq<Option<int>>, again: seq<Option<int>>)
    requires |names| == |results| == |again|
    ensures Initialize(Initialize(st, names, results), names, again) == Initialize(st, names, results)
  {
  }

  // ---------------------------------------------------------------------
  // A failed attempt

  function FailCount(failures: map<string, nat>, name: string): nat {
    if name in failures then failures[name] else 0
  }

  /** Consecutive failures after which a provider is dropped. */
  const MaxFailures: nat := 3

  datatype Rotation = Rotation(available: seq<Provider>, index: nat, failures: map<string, nat>)

  /** The failure branch of `speak`: one more consecutive failure; the
      third one drops the provider, an earlier one moves it to the end of
      the list. The index is kept, wrapping to 0 past the end. */
  function OnFailure(available: seq<Provider>, index: nat, failures: map<string, nat>): (r: Rotation)
    requires index < |available|
    ensures r.failures == failures[available[index].name := FailCount(failures, available[index].name) + 1]
    ensures |r.available| > 0 ==> r.index < |r.available|
    ensures index == 0 ==> r.index == 0
  {
    var p := available[index];
    var count := FailCount(failures, p.name) + 1;
    var rest := RemoveAt(available, index);
    var next := if count >= MaxFailures then rest else rest + [p];
    Rotation(next, if index >= |next| then 0 else index, failures[p.name := count])
  }

  /** The third consecutive failure drops the failing provider and keeps
      the others in order; an earlier one moves it to the end. */
  lemma OnFailureKeepsOthers(available: seq<Provider>, index: nat, failures: map<string, nat>)
    requires index < |available|
    ensures var p := available[index];
            var r := OnFailure(available, index, failures);
            (FailCount(failures, p.name) + 1 >= MaxFailures ==>
               r.available == available[..index] + available[index + 1..]
               && multiset(r.available) == multiset(available) - multiset{p})
            && (FailCount(failures, p.name) + 1 < MaxFailures ==>
                  r.available == available[..index] + available[index + 1..] + [p]
                  && multiset(r.available) == multiset(available))
  {
    var p := available[index];
    assert available == available[..index] + [p] + available[index + 1..];
    assert RemoveAt(available, index) == available[..index] + available[index + 1..];
  }

  /** `currentAvailableIndex` starts at 0 and is only ever kept or reset
      to 0, so `speak` always uses the head of the list. */
  lemma IndexStaysZero(available: seq<Provider>, failures: map<string, nat>)
    requires |available| > 0
    ensures OnFailure(available, 0, failures).index == 0
  {
  }

  // ---------------------------------------------------------------------
  // Speak ids and stop

  /** Every id in use was handed out: positive and at most the counter. */
  predicate IdsIssued(st: State) {
    forall x :: x in st.active + st.cancelled ==> 1 <= x <= st.speakId
  }

  /** The id allocation in `speak`: the counter goes up by one, starting
      over (and forgetting cancellations) just below the largest safe
      integer. */
  function NextSpeakId(st: State): (r: (State, nat))
    ensures var (s, id) := r;
            1 <= id < MaxSafeInteger && s.speakId == id && s.active == st.active + {id}
            && (st.speakId < MaxSafeInteger - 1 ==> id == st.speakId + 1 && s.cancelled == st.cancelled)
            && (st.speakId >= MaxSafeInteger - 1 ==> id == 1 && s.cancelled == {})
  {
    var base := if st.speakId >= MaxSafeInteger - 1 then st.(speakId := 0, cancelled := {}) else st;
    var id := base.speakId + 1;
    (base.(speakId := id, active := base.active + {id}), id)
  }

  /** Until the counter starts over, a new id is fresh: no call in flight
      and no cancellation carries it. */
  lemma NewIdIsFresh(st: State)
    requires IdsIssued(st) && st.speakId < MaxSafeInteger - 1
    ensures NextSpeakId(st).1 !in st.active + st.cancelled
    ensures IdsIssued(NextSpeakId(st).0)
  {
    var s := NextSpeakId(st).0;
    var id := NextSpeakId(st).1;
    assert id == st.speakId + 1;
    forall x | x in s.active + s.cancelled ensures 1 <= x <= s.speakId {
      if x != id {
        assert x in st.active + st.cancelled;
      }
    }
  }

  /** `stop`: with `setCancelled`, every call in flight is marked
      cancelled; either way nothing is speaking any more. */
  function Stop(st: State, setCancelled: bool): (r: State)
    ensures !r.speaking && r.active == st.active && r.available == st.available
    ensures setCancelled ==> r.cancelled == st.cancelled + st.active
    ensures !setCancelled ==> r.cancelled == st.cancelled
  {
    st.(cancelled := if setCancelled then st.cancelled + st.active else st.cancelled, speaking := false)
  }

  // ---------------------------------------------------------------------
  // The attempt loop of speak

  /** How the attempt loop ended. */
  datatype End = Done | CancelledEnd | InterruptedEnd | AllRemoved | Exhausted

  datatype Loop = Loop(st: State, tried: seq<string>, end: End)

  /** One pass of the loop body: the attempt with the head provider and
      what its outcome does. `None` means the loop goes on. */
  function Step(st: State, id: nat, o: Outcome): (r: (State, Option<End>))
    requires st.index < |st.available|
    ensures r.1.None? ==> o == Failed && |r.0.available| > 0 && r.0.index < |r.0.available|
                          && |r.0.available| <= |st.available|
    ensures r.1 == Some(Done) ==> r.0.failures == st.failures[st.available[st.index].name := 0] && id !in r.0.active
    ensures r.1 == Some(CancelledEnd) ==> id !in r.0.active && id !in r.0.cancelled
    ensures r.1.Some? ==> !r.0.speaking
    ensures o == Failed ==> r.0.failures == OnFailure(st.available, st.index, st.failures).failures
    ensures st.index == 0 ==> r.0.index == 0
  {
    var p := st.available[st.index];
    match o
    case Spoken =>
      (st.(failures := st.failures[p.name := 0], active := st.active - {id}, speaking := false), Some(Done))
    case Cancelled =>
      var s := Stop(st, true);
      if id in s.cancelled then
        (s.(cancelled := s.cancelled - {id}, active := s.active - {id}, speaking := false), Some(CancelledEnd))
      else (s, Some(CancelledEnd))
    case Interrupted =>
      (Stop(st, false), Some(InterruptedEnd))
    case Failed =>
      var s := Stop(st, false);
      var rot := OnFailure(st.available, st.index, st.failures);
      var s2 := s.(available := rot.available, index := rot.index, failures := rot.failures);
      if |rot.available| == 0 then (s2.(speaking := false), Some(AllRemoved)) else (s2, None)
  }

  /** The loop as written: `attemptCount` is compared with the current
      length of the list, which shrinks when a provider is dropped. */
  function AttemptsAsWritten(st: State, id: nat, attempt: nat, outcome: nat -> Outcome): (r: Loop)
    requires st.index == 0
    decreases |st.available| - attempt
  {
    if attempt >= |st.available| then Loop(st, [], Exhausted)
    else
      var name := st.available[0].name;
      var (s, e) := Step(st, id, outcome(attempt));
      if e.Some? then Loop(s, [name], e.value)
      else
        var rest := AttemptsAsWritten(s, id, attempt + 1, outcome);
        Loop(rest.st, [name] + rest.tried, rest.end)
  }

  function Names(ps: seq<Provider>): (r: seq<string>)
    ensures |r| == |ps| && forall i :: 0 <= i < |ps| ==> r[i] == ps[i].name
  {
    seq(|ps|, i requires 0 <= i < |ps| => ps[i].name)
  }

  function FailAlways(attempt: nat): Outcome {
    Failed
  }

  /** Three providers, the first already failed twice, all failing now:
      the first is dropped, the second moved behind the third, and the
      loop stops after two attempts, so the third provider is never
      tried. */
  lemma AsWrittenSkipsAProvider()
    ensures var a := Provider("a", 1);
            var b := Provider("b", 2);
            var c := Provider("c", 3);
            var st := State([a, b, c], 0, map["a" := 2], 0, {1}, {}, true, true);
            AttemptsAsWritten(st, 1, 0, FailAlways).tried == ["a", "b"]
  {
    var a := Provider("a", 1);
    var b := Provider("b", 2);
    var c := Provider("c", 3);
    var st := State([a, b, c], 0, map["a" := 2], 0, {1}, {}, true, true);
    var (s1, e1) := Step(st, 1, Failed);
    assert RemoveAt([a, b, c], 0) == [b, c];
    assert s1.available == [b, c] && e1.None?;
    var (s2, e2) := Step(s1, 1, Failed);
    assert RemoveAt([b, c], 0) == [c];
    assert s2.available == [c, b] && e2.None?;
    assert AttemptsAsWritten(s2, 1, 2, FailAlways).tried == [];
  }

  /** The loop bounded by the number of providers at its start: every
      provider that was available is tried once before giving up. */
  function Attempts(st: State, id: nat, attempt: nat, n: nat, outcome: nat -> Outcome): (r: Loop)
    requires st.index == 0
    requires attempt < n ==> |st.available| >= n - attempt
    ensures |r.tried| <= n - attempt || (attempt >= n && r.tried == [])
    ensures r.end == Exhausted ==> |r.tried| == n - attempt || attempt >= n
    decreases n - attempt
  {
    if attempt >= n then Loop(st, [], Exhausted)
    else
      var name := st.available[0].name;
      var (s, e) := Step(st, id, outcome(attempt));
      if e.Some? then Loop(s, [name], e.value)
      else
        assert |s.available| >= n - attempt - 1 by {
          var rot := OnFailure(st.available, 0, st.failures);
          assert s.available == rot.available;
          assert |multiset(rot.available)| >= |multiset(st.available)| - 1;
        }
        var rest := Attempts(s, id, attempt + 1, n, outcome);
        Loop(rest.st, [name] + rest.tried, rest.end)
  }

  /** When every attempt fails, the corrected loop tries the untried
      providers at the head of the list, each once, in list order. */
  lemma {:induction false} AttemptsTryEachOnce(st: State, id: nat, attempt: nat, n: nat, untried: seq<Provider>, tried: seq<Provider>)
    requires st.index == 0 && st.available == untried + tried && attempt <= n && |untried| == n - attempt
    ensures Attempts(st, id, attempt, n, FailAlways).tried == Names(untried)
    decreases n - attempt
  {
    if attempt < n {
      var (s, e) := Step(st, id, Failed);
      var next := FailedHead(st, id, untried, tried);
      AttemptsOnFailure(st, id, attempt, n);
      if e.None? {
        AttemptsTryEachOnce(s, id, attempt + 1, n, untried[1..], next);
      }
      assert Names(untried) == [untried[0].name] + Names(untried[1..]);
    }
  }

  /** One failed attempt: its provider is the first one tried, and the
      loop ends there or goes on from the rotated list. */
  lemma AttemptsOnFailure(st: State, id: nat, attempt: nat, n: nat)
    requires st.index == 0 && attempt < n && |st.available| >= n - attempt
    ensures var (s, e) := Step(st, id, Failed);
            (e.Some? ==> Attempts(st, id, attempt, n, FailAlways).tried == [st.available[0].name])
            && (e.None? && |s.available| >= n - attempt - 1 ==>
                  Attempts(st, id, attempt, n, FailAlways).tried
                    == [st.available[0].name] + Attempts(s, id, attempt + 1, n, FailAlways).tried)
  {
    assert FailAlways(attempt) == Failed;
  }

  /** A failed attempt removes the head provider from the untried ones:
      it is dropped or joins the tried ones at the end. The loop stops
      there only when nothing at all is left. */
  lemma FailedHead(st: State, id: nat, untried: seq<Provider>, tried: seq<Provider>) returns (next: seq<Provider>)
    requires st.index == 0 && st.available == untried + tried && |untried| > 0
    ensures var (s, e) := Step(st, id, Failed);
            (e.None? ==> s.available == untried[1..] + next)
            && (e.Some? ==> |untried| == 1)
  {
    var p := untried[0];
    assert RemoveAt(st.available, 0) == untried[1..] + tried;
    if FailCount(st.failures, p.name) + 1 >= MaxFailures {
      next := tried;
    } else {
      next := tried + [p];
    }
  }

  /** A call that fails everywhere has tried every provider it started
      with, in the order of the list. */
  lemma AllFailedMeansAllTried(st: State, id: nat)
    requires st.index == 0
    ensures Attempts(st, id, 0, |st.available|, FailAlways).tried == Names(st.available)
  {
    AttemptsTryEachOnce(st, id, 0, |st.available|, st.available, []);
  }

  /** A call in flight is ended by an outside `stop()`: the attempt after
      it reports the cancellation and the call forgets its id. */
  lemma StopCancelsCallInFlight(st: State, id: nat)
    requires st.index < |st.available| && id in st.active
    ensures var (s, e) := Step(st, id, Cancelled);
            e == Some(CancelledEnd) && id !in s.active && id !in s.cancelled && !s.speaking
  {
  }

  // ---------------------------------------------------------------------
  // speak

  datatype SpeakEnd = Ended(end: End) | NoProvider

  /** `speak`: a call in flight is stopped, the providers are tested on
      first use, a fresh id is allocated and the providers are tried. If
      all fail on a first call, the list is tested afresh (`retryResults`)
      and the call is repeated once with `retryOutcome`. */
  function Speak(st: State, names: seq<string>, results: seq<Option<int>>, retryResults: seq<Option<int>>,
                 outcome: nat -> Outcome, retryOutcome: nat -> Outcome, isRetry: bool): (r: (State, SpeakEnd))
    requires |names| == |results| == |retryResults|
    requires st.index == 0
    ensures r.1 == NoProvider ==> r.0.available == []
    decreases !isRetry
  {
    var s0 := if st.speaking then Stop(st, true) else st;
    var s1 := Initialize(s0, names, results);
    if |s1.available| == 0 then (s1, NoProvider)
    else
      var (s2, id) := NextSpeakId(s1.(speaking := true));
      var loop := Attempts(s2, id, 0, |s2.available|, outcome);
      if loop.end != Exhausted then (loop.st, Ended(loop.end))
      else if isRetry then (loop.st.(speaking := false, active := loop.st.active - {id}), Ended(Exhausted))
      else
        var reset := loop.st.(speaking := false, available := [], tested := false, index := 0);
        var again := Initialize(reset, names, retryResults);
        if |again.available| > 0 then
          Speak(again, names, retryResults, retryResults, retryOutcome, retryOutcome, true)
        else (again.(active := again.active - {id}), Ended(Exhausted))
  }

  /** The first provider that speaks ends the call, and it keeps its place
      at the head of the list for the next call. */
  lemma SuccessKeepsProvider(st: State, id: nat)
    requires st.index == 0 && |st.available| > 0
    ensures var (s, e) := Step(st, id, Spoken);
            e == Some(Done) && s.available == st.available && s.index == 0
            && FailCount(s.failures, st.available[0].name) == 0
  {
  }
}
