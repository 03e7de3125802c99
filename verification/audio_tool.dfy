/** proj/tools/download_word_audio.py: which word-bank files are read, which
    words already have audio, which are fetched, and the retry rule for one
    download. The HTTP request is a parameter: `respond(k)` is what the k-th
    attempt for a word gets back. */
module AudioTool {
  import opened Wrappers
  import opened Text
  import opened Ordering
  import opened Tokens
  import opened JsonValue
  import opened JsonWords

  const MaxRetries: nat := 3
  const MinAudioBytes: nat := 100
  const AudioSuffix := "_youdao.mp3"
  const ProviderTag := "_youdao"

  /** A JSON file found anywhere under the words directory. `name` is its
      base name (`json_file.name`), so the configuration files are skipped
      in every subdirectory; `parsed` is `None` when opening or parsing it
      raises. */
  datatype WordFile = WordFile(name: string, parsed: Option<Json>)

  /** `scan_json_files`: names matching `*.json`, except the two
      configuration files, which are not word banks. */
  predicate IsScanned(name: string) {
    EndsWith(name, ".json") && name != "config.json" && name != "manifest.json"
  }

  /** `extract_words_from_json`: a file that fails to parse contributes
      nothing (no text fallback here). */
  function FileWords(f: WordFile): (r: set<string>)
    ensures f.parsed.None? ==> r == {}
    ensures forall t :: t in r ==> IsVocabularyWord(t)
  {
    match f.parsed
    case Some(j) => WordsAreVocabulary(j); Words(j)
    case None => {}
  }

  /** `collect_all_words`: the union over every scanned file; `files` is
      every `*.json` file found recursively under the words directory. */
  function AllWords(files: seq<WordFile>): (r: set<string>)
    ensures forall t :: t in r ==> IsVocabularyWord(t)
    ensures forall i :: 0 <= i < |files| && IsScanned(files[i].name) ==> FileWords(files[i]) <= r
    ensures forall t :: t in r ==> exists i :: 0 <= i < |files| && IsScanned(files[i].name) && t in FileWords(files[i])
    decreases |files|
  {
    if |files| == 0 then {}
    else
      var rest := AllWords(files[1..]);
      assert forall i :: 0 < i < |files| ==> files[i] == files[1..][i - 1];
      (if IsScanned(files[0].name) then FileWords(files[0]) else {}) + rest
  }

  /** The word an audio file name stands for: the stem (name without
      `.mp3`) with every `_youdao` removed, lower-cased. */
  function AudioFileWord(name: string): string
    requires EndsWith(name, AudioSuffix)
  {
    Lower(RemoveAll(name[..|name| - 4], ProviderTag))
  }

  /** `get_existing_audio_files`; `None` is a missing audio directory, which
      is created and treated as empty. */
  function ExistingWords(audioFiles: Option<seq<string>>): (r: set<string>)
    ensures audioFiles.None? ==> r == {}
    ensures audioFiles.Some? ==>
              forall n :: n in audioFiles.value && EndsWith(n, AudioSuffix) ==> AudioFileWord(n) in r
    ensures audioFiles.Some? ==>
              forall w :: w in r ==> exists n :: n in audioFiles.value && EndsWith(n, AudioSuffix) && AudioFileWord(n) == w
  {
    match audioFiles
    case None => {}
    case Some(names) => set n | n in names && EndsWith(n, AudioSuffix) :: AudioFileWord(n)
  }

  lemma {:induction false} RemoveTagAfterWord(w: string)
    requires '_' !in w
    ensures RemoveAll(w + ProviderTag, ProviderTag) == w
    decreases |w|
  {
    if |w| == 0 {
      assert w + ProviderTag == ProviderTag;
      assert ProviderTag[|ProviderTag|..] == "";
    } else {
      assert (w + ProviderTag)[0] == w[0];
      assert !StartsWith(w + ProviderTag, ProviderTag);
      assert (w + ProviderTag)[1..] == w[1..] + ProviderTag;
      RemoveTagAfterWord(w[1..]);
      assert [w[0]] + w[1..] == w;
    }
  }

  /** The file the tool saves for a vocabulary word, `{word}_youdao.mp3`, is
      recognised as that word's audio on the next run. */
  lemma SavedFileIsRecognised(w: string)
    requires IsVocabularyWord(w)
    ensures EndsWith(w + AudioSuffix, AudioSuffix)
    ensures AudioFileWord(w + AudioSuffix) == w
  {
    var n := w + AudioSuffix;
    assert n[|n| - |AudioSuffix|..] == AudioSuffix;
    assert n[..|n| - 4] == w + ProviderTag;
    WordShapeMatches(w);
    assert '_' !in w;
    RemoveTagAfterWord(w);
    LowerOfLowerCase(w);
  }

  /** `run`, step 3: the words still missing audio. */
  function WordsToDownload(all: set<string>, existing: set<string>): (r: set<string>)
    ensures forall w :: w in r <==> w in all && w !in existing
  {
    all - existing
  }

  /** `download_missing_audio` walks the words in sorted order. */
  ghost function DownloadOrder(words: set<string>): (r: seq<string>)
    ensures |r| == |words| && Distinct(r)
    ensures forall w :: w in r <==> w in words
    ensures SortedBy(r, LexLeq)
  {
    LexLeqIsTotal();
    SortedSet(words, LexLeq)
  }

  datatype Response = Raised | Got(status: int, size: nat)

  /** A response is saved as audio only with status 200 and enough bytes;
      anything else is treated like an exception. */
  predicate Accepted(r: Response) {
    r.Got? && r.status == 200 && r.size >= MinAudioBytes
  }

  ghost predicate Succeeds(respond: nat -> Response) {
    exists k :: 0 <= k < MaxRetries && Accepted(respond(k))
  }

  /** `download_audio`: up to three attempts, stopping at the first accepted
      response. */
  method DownloadAudio(respond: nat -> Response) returns (ok: bool, attempts: nat)
    ensures 1 <= attempts <= MaxRetries
    ensures ok <==> Succeeds(respond)
    ensures ok ==> Accepted(respond(attempts - 1))
    ensures forall k :: 0 <= k < attempts - 1 ==> !Accepted(respond(k))
    ensures !ok ==> attempts == MaxRetries
  {
    var attempt := 0;
    while attempt < MaxRetries
      invariant 0 <= attempt <= MaxRetries
      invariant forall k :: 0 <= k < attempt ==> !Accepted(respond(k))
    {
      if Accepted(respond(attempt)) {
        return true, attempt + 1;
      }
      attempt := attempt + 1;
    }
    return false, MaxRetries;
  }

  ghost function SuccessCount(words: seq<string>, fetch: string -> (nat -> Response)): (n: nat)
    ensures n <= |words|
    decreases |words|
  {
    if |words| == 0 then 0
    else (if Succeeds(fetch(words[0])) then 1 else 0) + SuccessCount(words[1..], fetch)
  }

  lemma SuccessCountSnoc(words: seq<string>, w: string, fetch: string -> (nat -> Response))
    ensures SuccessCount(words + [w], fetch) == SuccessCount(words, fetch) + (if Succeeds(fetch(w)) then 1 else 0)
    decreases |words|
  {
    if |words| > 0 {
      assert (words + [w])[1..] == words[1..] + [w];
      SuccessCountSnoc(words[1..], w, fetch);
    } else {
      assert words + [w] == [w];
    }
  }

  /** `download_missing_audio`: every word attempted adds one to exactly one
      of the two counters. */
  method DownloadMissing(words: seq<string>, fetch: string -> (nat -> Response))
    returns (downloaded: nat, failed: nat)
    ensures downloaded + failed == |words|
    ensures downloaded == SuccessCount(words, fetch)
  {
    downloaded, failed := 0, 0;
    if |words| == 0 {
      return;
    }
    var i := 0;
    while i < |words|
      invariant 0 <= i <= |words|
      invariant downloaded + failed == i
      invariant downloaded == SuccessCount(words[..i], fetch)
    {
      var ok, _ := DownloadAudio(fetch(words[i]));
      SuccessCountSnoc(words[..i], words[i], fetch);
      assert words[..i + 1] == words[..i] + [words[i]];
      if ok {
        downloaded := downloaded + 1;
      } else {
        failed := failed + 1;
      }
      i := i + 1;
    }
    assert words[..i] == words;
  }
}
