/** The shared missed-word store (`MissedWordsManager`): one JSON object in
    local storage mapping a lower-case spelling to its record. The game
    saves into it; the settings page reads it back, folding in keys of an
    older `ip::word` format. The object is a sequence of (key, record)
    pairs in insertion order. */
module MissedStore {
  import opened Wrappers
  import opened Text
  import opened Ordering

  /** A stored record; a missing number is 0 and a missing string "". */
  datatype StoredWord = StoredWord(word: string, phonetic: string, meaning: string,
                                   count: nat, createTime: int, lastUpdate: int)

  type Store = seq<(string, StoredWord)>

  /** What the game hands over; a missing field is "". */
  datatype WordData = WordData(word: string, original: string, phonetic: string, meaning: string)

  predicate WellKeyed<V>(m: seq<(string, V)>) {
    forall i, j :: 0 <= i < j < |m| ==> m[i].0 != m[j].0
  }

  function Keys<V>(m: seq<(string, V)>): set<string> {
    set i | 0 <= i < |m| :: m[i].0
  }

  function Find<V>(m: seq<(string, V)>, k: string): (r: Option<nat>)
    ensures r.Some? ==> r.value < |m| && m[r.value].0 == k
    ensures r.None? <==> k !in Keys(m)
    decreases |m|
  {
    if |m| == 0 then None
    else if m[0].0 == k then Some(0)
    else
      match Find(m[1..], k)
      case None =>
        assert Keys(m) == {m[0].0} + Keys(m[1..]) by {
          assert forall i :: 0 < i < |m| ==> m[i] == m[1..][i - 1];
        }
        None
      case Some(i) => Some(i + 1)
  }

  /** Sum of the stored counts. */
  function TotalCount(m: seq<(string, StoredWord)>): nat
    decreases |m|
  {
    if |m| == 0 then 0 else TotalCount(m[..|m| - 1]) + m[|m| - 1].1.count
  }

  lemma {:induction false} TotalCountUpdate(m: seq<(string, StoredWord)>, i: nat, e: (string, StoredWord))
    requires i < |m|
    ensures TotalCount(m[i := e]) == TotalCount(m) - m[i].1.count + e.1.count
    decreases |m|
  {
    var n := |m|;
    if i < n - 1 {
      assert m[i := e][..n - 1] == m[..n - 1][i := e];
      TotalCountUpdate(m[..n - 1], i, e);
    } else {
      assert m[i := e][..n - 1] == m[..n - 1];
    }
  }

  lemma TotalCountAppend(m: seq<(string, StoredWord)>, e: (string, StoredWord))
    ensures TotalCount(m + [e]) == TotalCount(m) + e.1.count
  {
    assert (m + [e])[..|m|] == m;
  }

  // ---------------------------------------------------------------------
  // Saving

  /** `generateKey`: the lower-cased spelling. */
  function GenerateKey(word: string): (r: string)
    ensures IsLowerCase(r) && |r| == |word|
    ensures Lower(word) == r
  {
    LowerIsLowerCase(word);
    Lower(word)
  }

  /** Keys are stable: a key is its own key. */
  lemma GenerateKeyIdempotent(word: string)
    ensures GenerateKey(GenerateKey(word)) == GenerateKey(word)
  {
    LowerIsLowerCase(word);
  }

  /** `(wordData.word || wordData.original || '').toLowerCase()`. */
  function Spelling(w: WordData): string {
    Lower(if w.word != "" then w.word else w.original)
  }

  /** `saveMissedWord` on a store that accepts the write: a known key
      counts one more miss, moves its update time to `now` and gains a
      creation time if it had none; a new key is appended with count 1. */
  function SaveMissedWord(store: Store, w: WordData, now: int): (r: Store)
    ensures var k := GenerateKey(Spelling(w));
            Keys(r) == Keys(store) + {k}
            && match Find(store, k)
               case Some(i) =>
                 |r| == |store| && (forall j :: 0 <= j < |store| && j != i ==> r[j] == store[j])
                 && r[i].0 == k && r[i].1.count == store[i].1.count + 1 && r[i].1.lastUpdate == now
                 && r[i].1.word == store[i].1.word && r[i].1.meaning == store[i].1.meaning
                 && r[i].1.createTime == (if store[i].1.createTime == 0 then now else store[i].1.createTime)
               case None =>
                 |r| == |store| + 1 && r[..|store|] == store
                 && r[|store|] == (k, StoredWord(Spelling(w), w.phonetic, w.meaning, 1, now, now))
  {
    var k := GenerateKey(Spelling(w));
    match Find(store, k)
    case Some(i) =>
      var e := store[i].1;
      var r := store[i := (k, e.(count := e.count + 1, lastUpdate := now,
                                 createTime := if e.createTime == 0 then now else e.createTime))];
      assert Keys(r) == Keys(store) by {
        forall x | x in Keys(store) ensures x in Keys(r) {
          var j :| 0 <= j < |store| && store[j].0 == x;
          assert r[j].0 == x;
        }
      }
      r
    case None =>
      var r := store + [(k, StoredWord(Spelling(w), w.phonetic, w.meaning, 1, now, now))];
      assert Keys(r) == Keys(store) + {k} by {
        assert r[|store|].0 == k;
        forall x | x in Keys(store) ensures x in Keys(r) {
          var j :| 0 <= j < |store| && store[j].0 == x;
          assert r[j].0 == x;
        }
      }
      r
  }

  /** A save keeps keys unique and records exactly one more miss. */
  lemma SaveMissedWordCountsOne(store: Store, w: WordData, now: int)
    ensures WellKeyed(store) ==> WellKeyed(SaveMissedWord(store, w, now))
    ensures TotalCount(SaveMissedWord(store, w, now)) == TotalCount(store) + 1
  {
    var k := GenerateKey(Spelling(w));
    match Find(store, k)
    case Some(i) =>
      TotalCountUpdate(store, i, SaveMissedWord(store, w, now)[i]);
      assert SaveMissedWord(store, w, now) == store[i := SaveMissedWord(store, w, now)[i]];
    case None =>
      TotalCountAppend(store, (k, StoredWord(Spelling(w), w.phonetic, w.meaning, 1, now, now)));
      if WellKeyed(store) {
        forall j | 0 <= j < |store| ensures store[j].0 != k {
          assert store[j].0 in Keys(store);
        }
      }
  }

  /** `saveMissedWords`: every word is saved in turn; the result also
      reports how many saves succeeded. */
  function SaveMissedWords(store: Store, ws: seq<WordData>, now: int): (r: (Store, nat))
    decreases |ws|
  {
    if |ws| == 0 then (store, 0)
    else
      var rest := SaveMissedWords(SaveMissedWord(store, ws[0], now), ws[1..], now);
      (rest.0, rest.1 + 1)
  }

  /** The keys a list of saves writes. */
  function SavedKeys(ws: seq<WordData>): set<string> {
    set i | 0 <= i < |ws| :: GenerateKey(Spelling(ws[i]))
  }

  lemma SavedKeysCons(ws: seq<WordData>)
    requires |ws| > 0
    ensures SavedKeys(ws) == {GenerateKey(Spelling(ws[0]))} + SavedKeys(ws[1..])
  {
    forall x | x in SavedKeys(ws) ensures x in {GenerateKey(Spelling(ws[0]))} + SavedKeys(ws[1..]) {
      var i :| 0 <= i < |ws| && x == GenerateKey(Spelling(ws[i]));
      if i > 0 {
        assert ws[1..][i - 1] == ws[i];
      }
    }
    forall x | x in SavedKeys(ws[1..]) ensures x in SavedKeys(ws) {
      var i :| 0 <= i < |ws[1..]| && x == GenerateKey(Spelling(ws[1..][i]));
      assert ws[1..][i] == ws[i + 1];
    }
  }

  /** Saving a list reports every save as successful, records one miss per
      list entry and leaves every listed spelling, and every key already
      there, in the store. */
  lemma {:induction false} SaveMissedWordsCounts(store: Store, ws: seq<WordData>, now: int)
    ensures var (r, ok) := SaveMissedWords(store, ws, now);
            ok == |ws| && TotalCount(r) == TotalCount(store) + |ws|
            && (WellKeyed(store) ==> WellKeyed(r))
            && Keys(r) == Keys(store) + SavedKeys(ws)
    decreases |ws|
  {
    if |ws| > 0 {
      var next := SaveMissedWord(store, ws[0], now);
      SaveMissedWordCountsOne(store, ws[0], now);
      SaveMissedWordsCounts(next, ws[1..], now);
      SavedKeysCons(ws);
    }
  }

  // ---------------------------------------------------------------------
  // Reading back

  /** A `::` starts at position `j` of `s`. */
  predicate SepAt(s: string, j: int) {
    0 <= j && j + 2 <= |s| && s[j] == ':' && s[j + 1] == ':'
  }

  /** Where the first `::` of `s` starts. */
  function FindSep(s: string): (r: Option<nat>)
    ensures r.Some? ==> SepAt(s, r.value) && forall j :: 0 <= j < r.value ==> !SepAt(s, j)
    ensures r.None? <==> forall j :: 0 <= j < |s| ==> !SepAt(s, j)
    decreases |s|
  {
    if |s| < 2 then None
    else if s[0] == ':' && s[1] == ':' then Some(0)
    else
      match FindSep(s[1..])
      case None =>
        assert forall j :: 1 <= j < |s| ==> (SepAt(s, j) <==> SepAt(s[1..], j - 1));
        None
      case Some(i) =>
        assert forall j :: 1 <= j <= i + 1 ==> (SepAt(s, j) <==> SepAt(s[1..], j - 1));
        Some(i + 1)
  }

  /** The key a stored key counts under: for an old `ip::word` key the
      piece after the first `::` (up to the next one, as
      `key.split('::')[1]` gives it), otherwise the key itself; then
      lower-cased. */
  function NormalizeKey(key: string): string {
    match FindSep(key)
    case None => Lower(key)
    case Some(i) =>
      var tail := key[i + 2..];
      match FindSep(tail)
      case None => Lower(tail)
      case Some(j) => Lower(tail[..j])
  }

  lemma NoColonNoSep(s: string)
    requires ':' !in s
    ensures FindSep(s).None?
  {
    forall j | 0 <= j < |s| ensures !SepAt(s, j) {
      if j + 1 < |s| {
        assert s[j] in s;
      }
    }
  }

  /** A key written by `saveMissedWord` reads back as itself, and an old
      `ip::word` key reads back as the word's key, as long as neither part
      holds a colon. */
  lemma NormalizeKeyOfSavedKeys(word: string, ip: string)
    requires ':' !in word && ':' !in ip
    ensures NormalizeKey(GenerateKey(word)) == GenerateKey(word)
    ensures NormalizeKey(ip + "::" + word) == GenerateKey(word)
  {
    var k := GenerateKey(word);
    assert ':' !in k by {
      forall i | 0 <= i < |k| ensures k[i] != ':' {
        assert word[i] in word;
      }
    }
    NoColonNoSep(k);
    LowerIsLowerCase(word);
    var s := ip + "::" + word;
    assert SepAt(s, |ip|);
    assert forall j :: 0 <= j < |ip| ==> !SepAt(s, j) by {
      forall j | 0 <= j < |ip| ensures !SepAt(s, j) {
        assert s[j] == ip[j] && ip[j] in ip;
      }
    }
    assert FindSep(s) == Some(|ip|);
    assert s[|ip| + 2..] == word;
    NoColonNoSep(word);
  }

  /** One stored record folded into the merged list (`getMissedWords`):
      a repeat adds its count (a missing count being one), keeps the
      latest update and the earliest creation time; a new key takes the
      record, filling a missing spelling from the key and missing times
      from `now`. */
  function MergeEntry(m: Store, key: string, d: StoredWord, now: int): (r: Store)
    ensures Keys(r) == Keys(m) + {NormalizeKey(key)}
    ensures WellKeyed(m) ==> WellKeyed(r)
    ensures TotalCount(r) == TotalCount(m) + OrOne(d.count)
    ensures NormalizeKey(key) in Keys(m) ==> |r| == |m|
    ensures NormalizeKey(key) !in Keys(m) ==> |r| == |m| + 1
  {
    var k := NormalizeKey(key);
    match Find(m, k)
    case Some(i) =>
      var e := m[i].1;
      var merged := e.(count := e.count + OrOne(d.count),
                       lastUpdate := Max(e.lastUpdate, d.lastUpdate),
                       createTime := if d.createTime != 0 && (e.createTime == 0 || d.createTime < e.createTime)
                                     then d.createTime else e.createTime);
      var r := m[i := (k, merged)];
      TotalCountUpdate(m, i, (k, merged));
      ReplaceKeepsKeys(m, i, merged);
      r
    case None =>
      var rec := StoredWord(if d.word != "" then d.word else k, d.phonetic, d.meaning, OrOne(d.count),
                            if d.createTime != 0 then d.createTime else if d.lastUpdate != 0 then d.lastUpdate else now,
                            if d.lastUpdate != 0 then d.lastUpdate else now);
      var r := m + [(k, rec)];
      TotalCountAppend(m, (k, rec));
      AppendNewKey(m, k, rec);
      r
  }

  /** Overwriting the value at a key keeps the keys. */
  lemma ReplaceKeepsKeys<V>(m: seq<(string, V)>, i: nat, v: V)
    requires i < |m|
    ensures Keys(m[i := (m[i].0, v)]) == Keys(m)
    ensures WellKeyed(m) ==> WellKeyed(m[i := (m[i].0, v)])
  {
    var r := m[i := (m[i].0, v)];
    forall x | x in Keys(m) ensures x in Keys(r) {
      var j :| 0 <= j < |m| && m[j].0 == x;
      assert r[j].0 == x;
    }
  }

  /** Appending an entry under a new key adds just that key. */
  lemma AppendNewKey<V>(m: seq<(string, V)>, k: string, v: V)
    requires k !in Keys(m)
    ensures Keys(m + [(k, v)]) == Keys(m) + {k}
    ensures WellKeyed(m) ==> WellKeyed(m + [(k, v)])
  {
    var r := m + [(k, v)];
    assert r[|m|].0 == k;
    forall x | x in Keys(m) ensures x in Keys(r) {
      var j :| 0 <= j < |m| && m[j].0 == x;
      assert r[j].0 == x;
    }
    forall j | 0 <= j < |m| ensures m[j].0 != k {
      assert m[j].0 in Keys(m);
    }
  }

  function MergeFrom(m: Store, store: Store, now: int): Store
    decreases |store|
  {
    if |store| == 0 then m else MergeFrom(MergeEntry(m, store[0].0, store[0].1, now), store[1..], now)
  }

  /** `getMissedWordsCount`: the number of different normalised keys,
      counted the way the source does, with a set of keys already seen. */
  function CountFrom(seen: set<string>, store: Store): nat
    decreases |store|
  {
    if |store| == 0 then 0
    else
      var k := NormalizeKey(store[0].0);
      (if k in seen then 0 else 1) + CountFrom(seen + {k}, store[1..])
  }

  function GetMissedWordsCount(store: Store): nat {
    CountFrom({}, store)
  }

  /** The sum of the counts a fold adds, a missing count being one. */
  function CountsOrOne(store: Store): nat
    decreases |store|
  {
    if |store| == 0 then 0 else OrOne(store[0].1.count) + CountsOrOne(store[1..])
  }

  function NormalizedKeys(store: Store): set<string> {
    set i | 0 <= i < |store| :: NormalizeKey(store[i].0)
  }

  lemma NormalizedKeysCons(store: Store)
    requires |store| > 0
    ensures NormalizedKeys(store) == {NormalizeKey(store[0].0)} + NormalizedKeys(store[1..])
  {
    forall x | x in NormalizedKeys(store) ensures x in {NormalizeKey(store[0].0)} + NormalizedKeys(store[1..]) {
      var i :| 0 <= i < |store| && x == NormalizeKey(store[i].0);
      if i > 0 {
        assert store[1..][i - 1] == store[i];
      }
    }
    forall x | x in NormalizedKeys(store[1..]) ensures x in NormalizedKeys(store) {
      var i :| 0 <= i < |store[1..]| && x == NormalizeKey(store[1..][i].0);
      assert store[1..][i] == store[i + 1];
    }
  }

  /** Folding records in: one merged record per normalised key, as many as
      the counter reports, with every count kept. */
  lemma {:induction false} MergeFromFacts(m: Store, store: Store, now: int)
    requires WellKeyed(m)
    ensures var r := MergeFrom(m, store, now);
            WellKeyed(r) && Keys(r) == Keys(m) + NormalizedKeys(store)
            && |r| == |m| + CountFrom(Keys(m), store)
            && TotalCount(r) == TotalCount(m) + CountsOrOne(store)
    decreases |store|
  {
    if |store| > 0 {
      var next := MergeEntry(m, store[0].0, store[0].1, now);
      MergeFromFacts(next, store[1..], now);
      MergeFromStep(m, store, now);
    }
  }

  lemma MergeFromStep(m: Store, store: Store, now: int)
    requires WellKeyed(m) && |store| > 0
    requires var next := MergeEntry(m, store[0].0, store[0].1, now);
             var r := MergeFrom(next, store[1..], now);
             WellKeyed(r) && Keys(r) == Keys(next) + NormalizedKeys(store[1..])
             && |r| == |next| + CountFrom(Keys(next), store[1..])
             && TotalCount(r) == TotalCount(next) + CountsOrOne(store[1..])
    ensures var r := MergeFrom(m, store, now);
            WellKeyed(r) && Keys(r) == Keys(m) + NormalizedKeys(store)
            && |r| == |m| + CountFrom(Keys(m), store)
            && TotalCount(r) == TotalCount(m) + CountsOrOne(store)
  {
    var k := NormalizeKey(store[0].0);
    var next := MergeEntry(m, store[0].0, store[0].1, now);
    assert MergeFrom(m, store, now) == MergeFrom(next, store[1..], now);
    assert Keys(next) == Keys(m) + {k};
    NormalizedKeysCons(store);
    assert CountFrom(Keys(m), store) == (if k in Keys(m) then 0 else 1) + CountFrom(Keys(m) + {k}, store[1..]);
  }

  /** Newest update first. */
  function NewerFirst(a: StoredWord, b: StoredWord): bool {
    a.lastUpdate >= b.lastUpdate
  }

  lemma NewerFirstIsTotal()
    ensures Total(NewerFirst)
  {
  }

  function Values(m: Store): (r: seq<StoredWord>)
    ensures |r| == |m| && forall i :: 0 <= i < |m| ==> r[i] == m[i].1
  {
    seq(|m|, i requires 0 <= i < |m| => m[i].1)
  }

  /** `getMissedWords`: the records merged per normalised key, newest
      update first. `now` stands for `Date.now()`. */
  function GetMissedWords(store: Store, now: int): (r: seq<StoredWord>)
    ensures multiset(r) == multiset(Values(MergeFrom([], store, now)))
    ensures SortedBy(r, NewerFirst)
  {
    NewerFirstIsTotal();
    SortBy(Values(MergeFrom([], store, now)), NewerFirst)
  }

  /** The list has one record per different normalised key, exactly as
      many as `getMissedWordsCount` reports, and together its counts hold
      every stored miss (a record without a count being one). */
  lemma GetMissedWordsAgrees(store: Store, now: int)
    ensures |GetMissedWords(store, now)| == GetMissedWordsCount(store)
    ensures |GetMissedWords(store, now)| == |NormalizedKeys(store)|
    ensures TotalCount(MergeFrom([], store, now)) == CountsOrOne(store)
  {
    MergeFromFacts([], store, now);
    var r := MergeFrom([], store, now);
    assert Keys(r) == NormalizedKeys(store);
    WellKeyedKeysSize(r);
  }

  /** A list with unique keys has as many entries as keys. */
  lemma {:induction false} WellKeyedKeysSize(m: Store)
    requires WellKeyed(m)
    ensures |Keys(m)| == |m|
    decreases |m|
  {
    if |m| > 0 {
      var init := m[..|m| - 1];
      assert WellKeyed(init);
      WellKeyedKeysSize(init);
      KeysSnoc(m);
    }
  }

  /** The keys of a list with unique keys are those of all but its last
      entry, plus the last entry's key, which is new. */
  lemma KeysSnoc(m: Store)
    requires WellKeyed(m) && |m| > 0
    ensures Keys(m) == Keys(m[..|m| - 1]) + {m[|m| - 1].0}
    ensures m[|m| - 1].0 !in Keys(m[..|m| - 1])
  {
    var init := m[..|m| - 1];
    forall x | x in Keys(m) ensures x in Keys(init) + {m[|m| - 1].0} {
      var j :| 0 <= j < |m| && m[j].0 == x;
      if j < |m| - 1 {
        assert init[j] == m[j];
      }
    }
    forall x | x in Keys(init) ensures x in Keys(m) {
      var j :| 0 <= j < |init| && init[j].0 == x;
      assert m[j] == init[j];
    }
    forall j | 0 <= j < |init| ensures init[j].0 != m[|m| - 1].0 {
      assert init[j] == m[j];
    }
  }
}
