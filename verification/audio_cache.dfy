/** `AudioCacheManager`: cached pronunciations looked up by word and
    provider, first in memory, then as a local file on a development host,
    then in the browser database. The database, the `HEAD` request and the
    object URL it creates are inputs here. */
module AudioCache {
  import opened Wrappers
  import opened Text
  import R2Config

  // ---------------------------------------------------------------------
  // Keys and paths

  const LocalAudioPath: string := "audio/"
  const Extension: string := ".mp3"

  /** `_getCacheKey`: lower-cased word and provider joined by `_`. */
  function CacheKey(word: string, provider: string): (r: string)
    ensures |r| == |word| + 1 + |provider|
    ensures IsLowerCase(r)
  {
    LowerIsLowerCase(word);
    LowerIsLowerCase(provider);
    Lower(word) + "_" + Lower(provider)
  }

  lemma LowerKeepsUnderscore(s: string)
    ensures '_' in Lower(s) <==> '_' in s
  {
    if '_' in Lower(s) {
      var i :| 0 <= i < |s| && Lower(s)[i] == '_';
      assert s[i] == '_';
    }
    if '_' in s {
      var i :| 0 <= i < |s| && s[i] == '_';
      assert Lower(s)[i] == '_';
    }
  }

  /** A key splits back into the lower-cased word and provider whenever
      neither holds an underscore, so such pairs never share a key. */
  lemma CacheKeySplits(word: string, provider: string)
    requires '_' !in word && '_' !in provider
    ensures Split(CacheKey(word, provider), '_') == [Lower(word), Lower(provider)]
  {
    LowerKeepsUnderscore(word);
    LowerKeepsUnderscore(provider);
    SplitAfterPiece(Lower(word), '_', Lower(provider));
    SplitNoSeparator(Lower(provider), '_');
  }

  /** The key ignores case: spelling the word or provider in another case
      finds the same entry. */
  lemma CacheKeyIgnoresCase(word: string, provider: string)
    ensures CacheKey(Lower(word), Lower(provider)) == CacheKey(word, provider)
    ensures CacheKey(Upper(word), Upper(provider)) == CacheKey(word, provider)
  {
    LowerIsLowerCase(word);
    LowerIsLowerCase(provider);
    LowerOfLowerCase(Lower(word));
    LowerOfLowerCase(Lower(provider));
    assert Lower(Upper(word)) == Lower(word);
    assert Lower(Upper(provider)) == Lower(provider);
  }

  /** `getLocalFilePath`: the key as an `.mp3` file under `audio/`. */
  function LocalFilePath(word: string, provider: string): (r: string)
    ensures StartsWith(r, LocalAudioPath) && EndsWith(r, Extension)
    ensures |r| == |LocalAudioPath| + |CacheKey(word, provider)| + |Extension|
  {
    LocalAudioPath + CacheKey(word, provider) + Extension
  }

  /** The file name inside the local path is exactly the cache key, so a
      memory entry and a local file for one word and provider agree. */
  lemma LocalFilePathNamesKey(word: string, provider: string)
    ensures var r := LocalFilePath(word, provider);
            r[|LocalAudioPath|..|r| - |Extension|] == CacheKey(word, provider)
  {
    var k := CacheKey(word, provider);
    var r := LocalFilePath(word, provider);
    assert r[|LocalAudioPath|..|r| - |Extension|] == k;
  }

  // ---------------------------------------------------------------------
  // Environment

  /** `isLocalDevelopment`: `localhost`, `127.0.0.1`, the empty host name,
      or a private address starting `192.168.` or `10.`. */
  predicate IsLocalDevelopment(hostname: string) {
    hostname == "localhost" || hostname == "127.0.0.1" || hostname == ""
    || StartsWith(hostname, "192.168.") || StartsWith(hostname, "10.")
  }

  /** Every host the CDN configuration treats as local is local here too;
      a `10.` address is local here but not there. */
  lemma LocalHostsCompared(hostname: string)
    ensures R2Config.IsLocalHost(hostname) ==> IsLocalDevelopment(hostname)
    ensures IsLocalDevelopment("10.0.0.1") && !R2Config.IsLocalHost("10.0.0.1")
  {
    assert "10.0.0.1"[..3] == "10.";
    var h := "10.0.0.1";
    assert h[..3] == "10.";
    assert h[1] != "192.168."[1];
    assert !StartsWith(h, "192.168.");
    assert |h| == 8 && h != "localhost" && h != "127.0.0.1" && h != "";
  }

  // ---------------------------------------------------------------------
  // The manager

  /** `records` is the database index on (word, provider): present keys
      hold a record, and the flag says whether it carries audio. */
  datatype Manager = Manager(isLocal: bool, initialized: bool,
                             blobUrls: map<string, string>,
                             records: map<(string, string), bool>)

  /** The constructor's state before `initialize`. */
  function NewManager(hostname: string): (m: Manager)
    ensures m.isLocal <==> IsLocalDevelopment(hostname)
    ensures !m.initialized && m.blobUrls == map[] && m.records == map[]
  {
    Manager(IsLocalDevelopment(hostname), false, map[], map[])
  }

  /** `checkLocalFile`: `headOk` is whether a `HEAD` request for the local
      path succeeded (a thrown error counts as failure). Off a development
      host no request is made and the answer is no. */
  function CheckLocalFile(m: Manager, headOk: bool): (r: bool)
    ensures r <==> m.isLocal && headOk
  {
    if !m.isLocal then false else headOk
  }

  /** Whether the database holds audio for the pair. */
  predicate StoredAudio(m: Manager, word: string, provider: string) {
    var k := (Lower(word), Lower(provider));
    k in m.records && m.records[k]
  }

  /** `hasCache`: a local file, or (once initialised) a database record. */
  function HasCache(m: Manager, word: string, provider: string, headOk: bool): (r: bool)
    ensures r <==> CheckLocalFile(m, headOk)
                   || (m.initialized && (Lower(word), Lower(provider)) in m.records)
  {
    if CheckLocalFile(m, headOk) then true
    else if !m.initialized then false
    else (Lower(word), Lower(provider)) in m.records
  }

  /** `getCache`: memory first, then the local file's path, then the
      database; a database hit is turned into `blobUrl` and remembered. */
  function GetCache(m: Manager, word: string, provider: string, headOk: bool, blobUrl: string)
    : (r: (Manager, Option<string>))
    ensures var key := CacheKey(word, provider);
            key in m.blobUrls ==> r == (m, Some(m.blobUrls[key]))
    ensures var key := CacheKey(word, provider);
            key !in m.blobUrls && CheckLocalFile(m, headOk) ==>
              r == (m, Some(LocalFilePath(word, provider)))
    ensures var key := CacheKey(word, provider);
            key !in m.blobUrls && !CheckLocalFile(m, headOk) ==>
              if m.initialized && StoredAudio(m, word, provider) then
                r == (m.(blobUrls := m.blobUrls[key := blobUrl]), Some(blobUrl))
              else r == (m, None)
  {
    var key := CacheKey(word, provider);
    if key in m.blobUrls then (m, Some(m.blobUrls[key]))
    else if CheckLocalFile(m, headOk) then (m, Some(LocalFilePath(word, provider)))
    else if !m.initialized then (m, None)
    else if StoredAudio(m, word, provider) then
      (m.(blobUrls := m.blobUrls[key := blobUrl]), Some(blobUrl))
    else (m, None)
  }

  /** Once an object URL has been handed out for a pair, later lookups of
      that pair in any spelling return the same URL, whatever the file
      check and the fresh URL would have been, and change nothing. */
  lemma GetCacheRemembers(m: Manager, word: string, provider: string, headOk: bool, blobUrl: string,
                          word2: string, provider2: string, headOk2: bool, blobUrl2: string)
    requires Lower(word2) == Lower(word) && Lower(provider2) == Lower(provider)
    ensures var (m1, url) := GetCache(m, word, provider, headOk, blobUrl);
            url.Some? ==>
              (CacheKey(word, provider) in m1.blobUrls || url == Some(LocalFilePath(word, provider)))
    ensures var (m1, url) := GetCache(m, word, provider, headOk, blobUrl);
            CacheKey(word, provider) in m1.blobUrls ==>
              GetCache(m1, word2, provider2, headOk2, blobUrl2) == (m1, url)
  {
    assert CacheKey(word2, provider2) == CacheKey(word, provider);
  }

  /** On a cold memory `getCache` finds something exactly when `hasCache`
      says so, except a database record without audio, which `hasCache`
      counts and `getCache` does not. */
  lemma GetCacheAgreesWithHasCache(m: Manager, word: string, provider: string, headOk: bool, blobUrl: string)
    requires CacheKey(word, provider) !in m.blobUrls
    ensures GetCache(m, word, provider, headOk, blobUrl).1.Some? ==> HasCache(m, word, provider, headOk)
    ensures HasCache(m, word, provider, headOk) && !GetCache(m, word, provider, headOk, blobUrl).1.Some? ==>
              var k := (Lower(word), Lower(provider));
              m.initialized && k in m.records && !m.records[k]
  {
  }

  /** Off a development host no local file is ever offered. */
  lemma RemoteNeverUsesLocalFiles(m: Manager, word: string, provider: string, headOk: bool, blobUrl: string)
    requires !m.isLocal && CacheKey(word, provider) !in m.blobUrls
    ensures GetCache(m, word, provider, headOk, blobUrl) == GetCache(m, word, provider, false, blobUrl)
  {
  }

  // ---------------------------------------------------------------------
  // The singleton

  /** The class's `instance` slot: `None` before the first construction. */
  type Registry = Option<Manager>

  /** `new AudioCacheManager()`: the first call builds a manager for the
      current host and records it; later calls return that manager. */
  function Construct(reg: Registry, hostname: string): (r: (Registry, Manager))
    ensures r.0 == Some(r.1)
    ensures reg.Some? ==> r.1 == reg.value
    ensures reg.None? ==> r.1 == NewManager(hostname)
  {
    if reg.Some? then (reg, reg.value) else (Some(NewManager(hostname)), NewManager(hostname))
  }

  /** `getInstance` builds only when nothing is recorded. */
  function GetInstance(reg: Registry, hostname: string): (r: (Registry, Manager))
    ensures r == Construct(reg, hostname)
  {
    if reg.None? then Construct(reg, hostname) else (reg, reg.value)
  }

  /** Two constructions return the same manager: the second one's host is
      ignored and the registry no longer changes. */
  lemma ConstructIsSingleton(reg: Registry, host1: string, host2: string)
    ensures var (reg1, a) := Construct(reg, host1);
            var (reg2, b) := Construct(reg1, host2);
            a == b && reg2 == reg1
  {
  }
}
