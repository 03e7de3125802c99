/** `PhoneticFormatter`: every phonetic transcription is shown between
    slashes, whether it arrived bare, in square brackets or already in
    slashes. */
module Phonetic {
  import opened Wrappers
  import opened Text

  /** Wrapped in slashes: both ends are `/` (a lone `/` counts). */
  predicate Slashed(s: string) {
    |s| > 0 && s[0] == '/' && s[|s| - 1] == '/'
  }

  predicate Bracketed(s: string) {
    |s| > 0 && s[0] == '[' && s[|s| - 1] == ']'
  }

  /** `format`. `None` stands for anything that is not a string. Blank
      input gives ""; a slashed transcription is kept; brackets become
      slashes; anything else is wrapped in slashes. Surrounding white
      space is dropped first. */
  function Format(phonetic: Option<string>): (r: string)
    ensures r == "" || Slashed(r)
    ensures r == "" <==> phonetic.None? || Trim(phonetic.value) == ""
  {
    if phonetic.None? then ""
    else
      var t := Trim(phonetic.value);
      if t == "" then ""
      else if Slashed(t) then t
      else if Bracketed(t) then "/" + t[1..|t| - 1] + "/"
      else "/" + t + "/"
  }

  /** What lies between the slashes is the trimmed transcription, without
      its brackets if it had them. */
  lemma FormatKeepsTranscription(p: string)
    requires Trim(p) != "" && !Slashed(Trim(p))
    ensures var t := Trim(p);
            var r := Format(Some(p));
            |r| >= 2 && r[1..|r| - 1] == (if Bracketed(t) then t[1..|t| - 1] else t)
  {
    var t := Trim(p);
    var r := Format(Some(p));
    var inner := if Bracketed(t) then t[1..|t| - 1] else t;
    assert r == "/" + inner + "/";
    assert r[1..|r| - 1] == inner;
  }

  /** Formatting a formatted transcription changes nothing. */
  lemma FormatIdempotent(p: Option<string>)
    ensures Format(Some(Format(p))) == Format(p)
  {
    var r := Format(p);
    if r != "" {
      TrimOfUnpadded(r);
    }
  }

  datatype PhoneticWord = PhoneticWord(word: string, meaning: string, phonetic: Option<string>)

  /** `formatWords`: `None` stands for a value that is not an array and
      comes back unchanged; otherwise each word keeps its other fields and
      gets its phonetic formatted. */
  function FormatWords(words: Option<seq<PhoneticWord>>): (r: Option<seq<PhoneticWord>>)
    ensures words.None? <==> r.None?
    ensures words.Some? ==>
              |r.value| == |words.value|
              && forall i :: 0 <= i < |words.value| ==>
                   r.value[i] == words.value[i].(phonetic := Some(Format(words.value[i].phonetic)))
  {
    if words.None? then None
    else Some(seq(|words.value|, i requires 0 <= i < |words.value| =>
                    words.value[i].(phonetic := Some(Format(words.value[i].phonetic)))))
  }

  /** Formatting a list twice is formatting it once. */
  lemma FormatWordsIdempotent(words: Option<seq<PhoneticWord>>)
    ensures FormatWords(FormatWords(words)) == FormatWords(words)
  {
    if words.Some? {
      var once := FormatWords(words).value;
      var twice := FormatWords(FormatWords(words)).value;
      forall i | 0 <= i < |once| ensures twice[i] == once[i] {
        FormatIdempotent(words.value[i].phonetic);
      }
      assert twice == once;
    }
  }
}
