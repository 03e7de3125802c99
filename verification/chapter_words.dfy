/** proj/words/temp-extract-words.js: the new words of a chapter text.
    The text is lower-cased, every character other than a letter, white
    space, an apostrophe or a hyphen becomes a space, and it is split on
    white space. Function words and words already in the global CSV are
    dropped; the rest are listed once each, sorted. The two files read are
    inputs. */
module ChapterWords {
  import opened Wrappers
  import opened Text
  import opened Ordering
  import GlobalVocabulary
  import ValidateDedup
  import AnalyzeDocument

  /** The words one line contributes: those of a matching row with a
      non-empty word cell. */
  function RowWords(line: string): set<string> {
    match GlobalVocabulary.ParseRow(line)
    case Some((_, cell)) => if cell != "" then ValidateDedup.CellWords(cell) else {}
    case None => {}
  }

  function Gather(rows: seq<string>): (r: set<string>)
    ensures forall w :: w in r <==> exists i :: 0 <= i < |rows| && w in RowWords(rows[i])
  {
    UnionOver(rows, RowWords)
  }

  /** Words already in the CSV: every line after the first that matches
      the row pattern as it is (untrimmed) contributes its words, trimmed
      and lower-cased. Unlike the validator no row is skipped for being
      the current file. */
  function ExistingWords(lines: seq<string>): (r: set<string>)
    ensures forall w :: w in r <==> exists i :: 1 <= i < |lines| && w in RowWords(lines[i])
  {
    if |lines| == 0 then {}
    else
      assert forall i :: 1 <= i < |lines| ==> lines[i] == lines[1..][i - 1];
      Gather(lines[1..])
  }

  /** A line with a trailing carriage return does not match the pattern,
      so a CSV saved with CRLF line ends yields no existing words. */
  lemma CarriageReturnRowIgnored(row: string)
    ensures RowWords(row + "\r") == {}
  {
    var line := row + "\r";
    assert line[|line| - 1] == '\r';
  }

  // ---------------------------------------------------------------------
  // Tokens

  /** A character the clean-up keeps: `[a-z\s'-]`. */
  predicate Kept(c: char) {
    IsLowerLetter(c) || IsSpace(c) || c == '\'' || c == '-'
  }

  /** `toLowerCase()` then `replace(/[^a-z\s'-]/g, ' ')`. */
  function Clean(text: string): (r: string)
    ensures |r| == |text|
    ensures forall i :: 0 <= i < |r| ==> Kept(r[i])
    ensures forall i :: 0 <= i < |r| ==> (Kept(LowerChar(text[i])) ==> r[i] == LowerChar(text[i]))
    ensures forall i :: 0 <= i < |r| ==> (!Kept(LowerChar(text[i])) ==> r[i] == ' ')
  {
    seq(|text|, i requires 0 <= i < |text| => if Kept(LowerChar(text[i])) then LowerChar(text[i]) else ' ')
  }

  /** The length of the leading run of non-space characters. */
  function RunLength(s: string): (n: nat)
    ensures n <= |s|
    ensures forall i :: 0 <= i < n ==> !IsSpace(s[i])
    ensures n == |s| || IsSpace(s[n])
    decreases |s|
  {
    if |s| == 0 || IsSpace(s[0]) then 0 else 1 + RunLength(s[1..])
  }

  /** `split(/\s+/).filter(w => w.length > 0)`: the maximal runs of
      non-space characters, in order. */
  function Fields(s: string): (r: seq<string>)
    ensures forall i :: 0 <= i < |r| ==> |r[i]| > 0
    ensures forall i, k :: 0 <= i < |r| && 0 <= k < |r[i]| ==> !IsSpace(r[i][k])
    decreases |s|
  {
    if |s| == 0 then []
    else if IsSpace(s[0]) then Fields(s[1..])
    else
      var n := RunLength(s);
      [s[..n]] + Fields(s[n..])
  }

  /** The text without its white space. */
  function Squeeze(s: string): (r: string)
    decreases |s|
  {
    if |s| == 0 then "" else (if IsSpace(s[0]) then "" else [s[0]]) + Squeeze(s[1..])
  }

  lemma {:induction false} SqueezeAppend(a: string, b: string)
    ensures Squeeze(a + b) == Squeeze(a) + Squeeze(b)
    decreases |a|
  {
    if |a| == 0 {
      assert a + b == b;
    } else {
      assert (a + b)[0] == a[0];
      assert (a + b)[1..] == a[1..] + b;
      SqueezeAppend(a[1..], b);
    }
  }

  lemma {:induction false} SqueezeOfRun(s: string)
    requires forall i :: 0 <= i < |s| ==> !IsSpace(s[i])
    ensures Squeeze(s) == s
    decreases |s|
  {
    if |s| > 0 {
      SqueezeOfRun(s[1..]);
      assert s == [s[0]] + s[1..];
    }
  }

  function Concat(parts: seq<string>): string
    decreases |parts|
  {
    if |parts| == 0 then "" else parts[0] + Concat(parts[1..])
  }

  /** No character is lost or invented: the fields, run together, are the
      text's non-space characters in order. */
  lemma {:induction false} FieldsKeepCharacters(s: string)
    ensures Concat(Fields(s)) == Squeeze(s)
    decreases |s|
  {
    if |s| > 0 {
      if IsSpace(s[0]) {
        FieldsKeepCharacters(s[1..]);
      } else {
        var n := RunLength(s);
        FieldsKeepCharacters(s[n..]);
        assert s == s[..n] + s[n..];
        SqueezeAppend(s[..n], s[n..]);
        SqueezeOfRun(s[..n]);
      }
    }
  }

  /** Lower-case letters, apostrophes and hyphens, at least one. */
  predicate TokenShape(w: string) {
    |w| > 0 && forall k :: 0 <= k < |w| ==> IsLowerLetter(w[k]) || w[k] == '\'' || w[k] == '-'
  }

  /** The chapter's tokens. */
  function Tokens(text: string): (r: seq<string>)
    ensures forall i :: 0 <= i < |r| ==> TokenShape(r[i])
  {
    var c := Clean(text);
    var r := Fields(c);
    TokensFromClean(c);
    r
  }

  lemma {:induction false} TokensFromClean(s: string)
    requires forall i :: 0 <= i < |s| ==> Kept(s[i])
    ensures forall i, k :: 0 <= i < |Fields(s)| && 0 <= k < |Fields(s)[i]| ==> Kept(Fields(s)[i][k])
    decreases |s|
  {
    if |s| > 0 {
      if IsSpace(s[0]) {
        TokensFromClean(s[1..]);
      } else {
        var n := RunLength(s);
        TokensFromClean(s[n..]);
        assert Fields(s) == [s[..n]] + Fields(s[n..]);
      }
    }
  }

  // ---------------------------------------------------------------------
  // New words

  /** The function words never reported. */
  const BasicWords: set<string> := {"the", "a", "an", "is", "are", "was", "were", "be", "to", "of",
                                    "and", "in", "on", "at", "for", "with", "from", "by", "as"}

  predicate IsNew(w: string, existing: set<string>) {
    w !in BasicWords && w !in existing
  }

  /** `newWords`: the chapter's new words, each once, in code-unit
      order. */
  function NewWords(text: string, existing: set<string>): (r: seq<string>)
    ensures Distinct(r) && SortedBy(r, LexLeq)
    ensures forall w :: w in r <==> w in Tokens(text) && IsNew(w, existing)
  {
    var kept := Filter(Tokens(text), w => IsNew(w, existing));
    LowerTokens(kept);
    AnalyzeDocument.SortedUnique(kept)
  }

  /** Tokens are already lower case, so lower-casing them again changes
      nothing. */
  lemma LowerTokens(kept: seq<string>)
    requires forall w :: w in kept ==> TokenShape(w)
    ensures AnalyzeDocument.LowerAll(kept) == kept
  {
    forall i | 0 <= i < |kept| ensures Lower(kept[i]) == kept[i] {
      assert TokenShape(kept[i]);
      assert IsLowerCase(kept[i]);
      LowerOfLowerCase(kept[i]);
    }
  }
}
