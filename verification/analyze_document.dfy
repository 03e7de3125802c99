/** proj/tools/analyze_words.py: count the words of a document (one-joiner
    pattern), the distinct lower-cased words, and their sorted list. */
module AnalyzeDocument {
  import opened Wrappers
  import opened Text
  import opened Ordering
  import opened Tokens
  import Dedup

  datatype DocReport = DocReport(totalWords: nat, uniqueWords: nat, uniqueWordList: seq<string>)

  function LowerAll(words: seq<string>): (r: seq<string>)
    ensures |r| == |words|
    ensures forall i :: 0 <= i < |words| ==> r[i] == Lower(words[i])
  {
    seq(|words|, i requires 0 <= i < |words| => Lower(words[i]))
  }

  function Identity(w: string): string {
    w
  }

  /** The lower-cased words of a token list, each once, in code point
      order. */
  function SortedUnique(words: seq<string>): (r: seq<string>)
    ensures Distinct(r) && SortedBy(r, LexLeq)
    ensures forall w :: w in r <==> w in LowerAll(words)
  {
    var firsts := Dedup.KeepFirst(LowerAll(words), Identity, {});
    assert Distinct(firsts) by {
      forall i, j | 0 <= i < j < |firsts| ensures firsts[i] != firsts[j] {
        assert Identity(firsts[i]) != Identity(firsts[j]);
      }
    }
    assert forall w :: w in firsts <==> w in LowerAll(words) by {
      forall w ensures w in firsts <==> w in LowerAll(words) {
        if w in LowerAll(words) {
          var k :| 0 <= k < |LowerAll(words)| && LowerAll(words)[k] == w;
          assert Identity(LowerAll(words)[k]) in Dedup.KeySet(LowerAll(words), Identity);
          assert w in Dedup.KeySet(firsts, Identity);
          var i :| 0 <= i < |firsts| && Identity(firsts[i]) == w;
        }
      }
    }
    LexLeqIsTotal();
    SortKeepsDistinct(firsts, LexLeq);
    SortKeepsElements(firsts, LexLeq);
    SortBy(firsts, LexLeq)
  }

  /** `analyze_document`; `content` is `None` when the file cannot be read. */
  function Analyze(content: Option<string>): (r: Option<DocReport>)
    ensures r.None? <==> content.None?
    ensures r.Some? ==> r.value.totalWords == |FindAllShort(content.value)|
    ensures r.Some? ==> r.value.uniqueWords == |ToSet(LowerAll(FindAllShort(content.value)))|
    ensures r.Some? ==> Distinct(r.value.uniqueWordList) && SortedBy(r.value.uniqueWordList, LexLeq)
    ensures r.Some? ==> forall w :: w in r.value.uniqueWordList <==>
                          exists t :: t in FindAllShort(content.value) && Lower(t) == w
  {
    match content
    case None => None
    case Some(text) =>
      var words := FindAllShort(text);
      var list := SortedUnique(words);
      assert forall w :: w in LowerAll(words) <==> exists t :: t in words && Lower(t) == w by {
        forall w ensures w in LowerAll(words) <==> exists t :: t in words && Lower(t) == w {
          if w in LowerAll(words) {
            var k :| 0 <= k < |words| && LowerAll(words)[k] == w;
            assert words[k] in words;
          }
          if exists t :: t in words && Lower(t) == w {
            var t :| t in words && Lower(t) == w;
            var k :| 0 <= k < |words| && words[k] == t;
            assert LowerAll(words)[k] == w;
          }
        }
      }
      Some(DocReport(|words|, |ToSet(LowerAll(words))|, list))
  }

  /** The distinct count never exceeds the total, the list holds exactly
      that many words, and each listed word is a lower-case match of the
      pattern. */
  lemma ReportConsistent(text: string)
    ensures var r := Analyze(Some(text)).value;
            r.uniqueWords <= r.totalWords
            && |r.uniqueWordList| == r.uniqueWords
            && forall w :: w in r.uniqueWordList ==> MatchesShortWord(w) && IsLowerCase(w)
  {
    var words := FindAllShort(text);
    var r := Analyze(Some(text)).value;
    ToSetSize(LowerAll(words));
    ToSetSize(r.uniqueWordList);
    assert ToSet(r.uniqueWordList) == ToSet(LowerAll(words));
    forall w | w in r.uniqueWordList ensures MatchesShortWord(w) && IsLowerCase(w) {
      var t :| t in words && Lower(t) == w;
      LowerKeepsShortWord(t);
    }
  }

  lemma LowerKeepsShortWord(t: string)
    requires MatchesShortWord(t)
    ensures MatchesShortWord(Lower(t)) && IsLowerCase(Lower(t))
  {
    LowerIsLowerCase(t);
    var l := Lower(t);
    if !IsLetters(t) {
      var k :| 0 < k < |t| - 1 && IsLetters(t[..k]) && IsJoiner(t[k]) && IsLetters(t[k + 1..]);
      assert l[..k] == Lower(t[..k]);
      assert l[k + 1..] == Lower(t[k + 1..]);
      assert IsLetters(l[..k]) && IsJoiner(l[k]) && IsLetters(l[k + 1..]);
    }
  }

  /** The command line: no file argument is exit status 1 and no report;
      otherwise status 0, with a report when the file could be read. */
  function RunCli(args: seq<string>, read: string -> Option<string>): (r: (int, Option<DocReport>))
    ensures r.0 == 1 <==> |args| < 2
    ensures r.0 == 1 ==> r.1.None?
    ensures r.0 == 0 ==> r.1 == Analyze(read(args[1]))
  {
    if |args| < 2 then (1, None) else (0, Analyze(read(args[1])))
  }
}
