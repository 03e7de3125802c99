/** The vocabulary walk shared by proj/tools/scan_words.py and
    proj/tools/download_word_audio.py: collect the value of every `word`
    member of every object, however deeply nested, and nothing else; plus
    the regex fallback for text that is not JSON. */
module JsonWords {
  import opened Wrappers
  import opened Text
  import opened Tokens
  import opened JsonValue

  /** A collected vocabulary item: lower case, at least two characters,
      a full match of the word pattern. */
  predicate IsVocabularyWord(t: string) {
    |t| >= 2 && MatchesWord(t) && IsLowerCase(t)
  }

  /** What an object's own `word` member contributes: its string value,
      stripped and lower-cased, if that passes the length and pattern test. */
  function OwnWord(fields: seq<(string, Json)>): (r: set<string>)
    ensures |r| <= 1
    ensures forall t :: t in r ==> IsVocabularyWord(t)
  {
    match Lookup(fields, "word")
    case Some(Str(w)) =>
      var t := Lower(Trim(w));
      LowerIsLowerCase(Trim(w));
      if |t| >= 2 && MatchesWord(t) then {t} else {}
    case _ => {}
  }

  /** `extract_words_from_json_data`. */
  function Words(j: Json): set<string>
    decreases j, 1
  {
    match j
    case Obj(fields) => OwnWord(fields) + MemberWords(j, 0)
    case Arr(items) => ItemWords(j, 0)
    case _ => {}
  }

  /** Members `i..` of an object: only object- and list-valued members are
      walked into. */
  function MemberWords(j: Json, i: nat): set<string>
    requires j.Obj?
    decreases j, 0, |j.fields| - i
  {
    if i >= |j.fields| then {}
    else
      var v := j.fields[i].1;
      (if v.Obj? || v.Arr? then Words(v) else {}) + MemberWords(j, i + 1)
  }

  /** Elements `i..` of a list. */
  function ItemWords(j: Json, i: nat): set<string>
    requires j.Arr?
    decreases j, 0, |j.items| - i
  {
    if i >= |j.items| then {} else Words(j.items[i]) + ItemWords(j, i + 1)
  }

  /** Everything the walk collects is a vocabulary word. */
  lemma {:induction false} WordsAreVocabulary(j: Json)
    ensures forall t :: t in Words(j) ==> IsVocabularyWord(t)
    decreases j, 1
  {
    match j
    case Obj(fields) => MemberWordsAreVocabulary(j, 0);
    case Arr(items) => ItemWordsAreVocabulary(j, 0);
    case _ =>
  }

  lemma {:induction false} MemberWordsAreVocabulary(j: Json, i: nat)
    requires j.Obj?
    ensures forall t :: t in MemberWords(j, i) ==> IsVocabularyWord(t)
    decreases j, 0, |j.fields| - i
  {
    if i < |j.fields| {
      var v := j.fields[i].1;
      if v.Obj? || v.Arr? {
        WordsAreVocabulary(v);
      }
      MemberWordsAreVocabulary(j, i + 1);
    }
  }

  lemma {:induction false} ItemWordsAreVocabulary(j: Json, i: nat)
    requires j.Arr?
    ensures forall t :: t in ItemWords(j, i) ==> IsVocabularyWord(t)
    decreases j, 0, |j.items| - i
  {
    if i < |j.items| {
      WordsAreVocabulary(j.items[i]);
      ItemWordsAreVocabulary(j, i + 1);
    }
  }

  /** An object whose `word` member is a string contributes exactly that
      string, stripped and lower-cased, when it is a vocabulary word, and
      nothing of its own otherwise. */
  lemma OwnWordExactly(fields: seq<(string, Json)>, w: string)
    requires Lookup(fields, "word") == Some(Str(w))
    ensures var t := Lower(Trim(w));
            OwnWord(fields) == (if |t| >= 2 && MatchesWord(t) then {t} else {})
    ensures var t := Lower(Trim(w));
            |t| >= 2 && MatchesWord(t) ==> t in Words(Obj(fields))
  {
  }

  /** A `word` member that is missing or not a string contributes nothing. */
  lemma NoOwnWord(fields: seq<(string, Json)>)
    requires Lookup(fields, "word").None? || !Lookup(fields, "word").value.Str?
    ensures OwnWord(fields) == {}
  {
  }

  lemma {:induction false} MemberWordsInclude(j: Json, i: nat, k: nat)
    requires j.Obj? && i <= k < |j.fields|
    requires j.fields[k].1.Obj? || j.fields[k].1.Arr?
    ensures Words(j.fields[k].1) <= MemberWords(j, i)
    decreases k - i
  {
    var v := j.fields[i].1;
    var here := if v.Obj? || v.Arr? then Words(v) else {};
    assert MemberWords(j, i) == here + MemberWords(j, i + 1);
    if i < k {
      MemberWordsInclude(j, i + 1, k);
    }
  }

  lemma {:induction false} ItemWordsInclude(j: Json, i: nat, k: nat)
    requires j.Arr? && i <= k < |j.items|
    ensures Words(j.items[k]) <= ItemWords(j, i)
    decreases k - i
  {
    var here := Words(j.items[i]);
    var later := ItemWords(j, i + 1);
    assert ItemWords(j, i) == here + later;
    if i < k {
      ItemWordsInclude(j, i + 1, k);
    }
  }

  /** Nested objects and lists are always walked into, even when the object
      itself carries a `word`; a list collects the words of every element. */
  lemma NestedWordsCollected(j: Json)
    ensures j.Obj? ==> forall k :: 0 <= k < |j.fields| && (j.fields[k].1.Obj? || j.fields[k].1.Arr?)
                                   ==> Words(j.fields[k].1) <= Words(j)
    ensures j.Arr? ==> forall k :: 0 <= k < |j.items| ==> Words(j.items[k]) <= Words(j)
  {
    if j.Obj? {
      forall k | 0 <= k < |j.fields| && (j.fields[k].1.Obj? || j.fields[k].1.Arr?)
        ensures Words(j.fields[k].1) <= Words(j)
      {
        MemberWordsInclude(j, 0, k);
      }
    }
    if j.Arr? {
      forall k | 0 <= k < |j.items| ensures Words(j.items[k]) <= Words(j) {
        ItemWordsInclude(j, 0, k);
      }
    }
  }

  lemma {:induction false} ItemWordsFromItems(j: Json, i: nat, t: string)
    requires j.Arr? && t in ItemWords(j, i)
    ensures exists k :: i <= k < |j.items| && t in Words(j.items[k])
    decreases |j.items| - i
  {
    if t !in Words(j.items[i]) {
      ItemWordsFromItems(j, i + 1, t);
    }
  }

  /** A list contributes nothing beyond its elements' words, and `null`,
      booleans, numbers and bare strings contribute nothing. */
  lemma ListWordsExactly(j: Json)
    ensures j.Arr? ==> forall t :: t in Words(j) <==> exists k :: 0 <= k < |j.items| && t in Words(j.items[k])
    ensures !j.Arr? && !j.Obj? ==> Words(j) == {}
  {
    if j.Arr? {
      NestedWordsCollected(j);
      forall t | t in Words(j) ensures exists k :: 0 <= k < |j.items| && t in Words(j.items[k]) {
        ItemWordsFromItems(j, 0, t);
      }
    }
  }

  lemma {:induction false} MemberWordsFromMembers(j: Json, i: nat, t: string)
    requires j.Obj? && t in MemberWords(j, i)
    ensures exists k :: i <= k < |j.fields| && (j.fields[k].1.Obj? || j.fields[k].1.Arr?) && t in Words(j.fields[k].1)
    decreases |j.fields| - i
  {
    var v := j.fields[i].1;
    if !((v.Obj? || v.Arr?) && t in Words(v)) {
      MemberWordsFromMembers(j, i + 1, t);
    }
  }

  /** An object contributes its own `word` and the words of its object and
      list members, and nothing else: its other string, number, boolean
      and `null` members are ignored. */
  lemma ObjectWordsExactly(j: Json)
    requires j.Obj?
    ensures forall t :: t in Words(j) <==>
              t in OwnWord(j.fields)
              || exists k :: 0 <= k < |j.fields| && (j.fields[k].1.Obj? || j.fields[k].1.Arr?) && t in Words(j.fields[k].1)
  {
    NestedWordsCollected(j);
    forall t | t in Words(j) && t !in OwnWord(j.fields)
      ensures exists k :: 0 <= k < |j.fields| && (j.fields[k].1.Obj? || j.fields[k].1.Arr?) && t in Words(j.fields[k].1)
    {
      MemberWordsFromMembers(j, 0, t);
    }
  }

  /** `extract_words_from_text`: the lower-cased regex matches of length at
      least two. */
  function TextWords(text: string): (r: set<string>)
    ensures forall t :: t in r ==> IsVocabularyWord(t)
  {
    assert forall w :: w in FindAll(text) ==> MatchesWord(Lower(w)) && IsLowerCase(Lower(w)) by {
      forall w | w in FindAll(text) ensures MatchesWord(Lower(w)) && IsLowerCase(Lower(w)) {
        LowerKeepsWord(w);
      }
    }
    set w | w in FindAll(text) && |w| >= 2 :: Lower(w)
  }

  lemma LowerKeepsWord(w: string)
    requires MatchesWord(w)
    ensures MatchesWord(Lower(w)) && IsLowerCase(Lower(w))
  {
    WordShapeMatches(w);
    WordShapeMatches(Lower(w));
    LowerIsLowerCase(w);
  }

  /** Every long enough match of the text, lower-cased, is collected. */
  lemma TextWordsComplete(text: string, w: string)
    requires w in FindAll(text) && |w| >= 2
    ensures Lower(w) in TextWords(text)
  {
  }
}
