/** proj/words/generate-global-vocabulary.js: the global vocabulary CSV,
    one row per word-bank file listing that file's words, and the count of
    words that occur in more than one file. Also the row pattern
    `^"([^"]+)","([^"]*)"$` with which the other two scripts read the CSV
    back. Directory walking and file reading are inputs: a file is its
    relative path and its parsed content (`None` when it cannot be read or
    parsed). */
module GlobalVocabulary {
  import opened Wrappers
  import opened Text
  import opened Ordering
  import opened JsonValue

  // ---------------------------------------------------------------------
  // extractWords

  /** `data.words` when it is an array. Reading `words` off `null` throws
      and off any other non-object gives `undefined`; both end in []. */
  function WordsArray(parsed: Option<Json>): Option<seq<Json>> {
    match parsed
    case Some(Obj(fields)) =>
      (match Lookup(fields, "words")
       case Some(Arr(items)) => Some(items)
       case _ => None)
    case _ => None
  }

  /** `item.word` for an item that is not `null`: an object's member, or
      `undefined` (`None`) for anything else. */
  function ItemWord(item: Json): Option<Json> {
    match item
    case Obj(fields) => Lookup(fields, "word")
    case _ => None
  }

  /** `items.map(item => item.word).filter(word => word)`. */
  function WordValues(items: seq<Json>): (r: seq<Json>)
    ensures |r| <= |items|
    ensures forall i :: 0 <= i < |r| ==> Truthy(r[i])
    ensures forall w :: w in r <==> exists i :: 0 <= i < |items| && ItemWord(items[i]) == Some(w) && Truthy(w)
    decreases |items|
  {
    if |items| == 0 then []
    else
      var rest := WordValues(items[1..]);
      assert forall i :: 0 < i < |items| ==> items[i] == items[1..][i - 1];
      var w := ItemWord(items[0]);
      if w.Some? && Truthy(w.value) then [w.value] + rest else rest
  }

  /** The word values keep the order of the items: the values of two runs
      of items are the values of each, one after the other. */
  lemma {:induction false} WordValuesAppend(a: seq<Json>, b: seq<Json>)
    ensures WordValues(a + b) == WordValues(a) + WordValues(b)
    decreases |a|
  {
    if |a| == 0 {
      assert a + b == b;
    } else {
      assert (a + b)[0] == a[0];
      assert (a + b)[1..] == a[1..] + b;
      WordValuesAppend(a[1..], b);
    }
  }

  /** `extractWords`: the truthy `word` values of the items of the
      top-level `words` array, in order. A `null` item makes `item.word`
      throw, and the caught error gives [] as well. */
  function ExtractWords(parsed: Option<Json>): (r: seq<Json>)
    ensures forall i :: 0 <= i < |r| ==> Truthy(r[i])
    ensures WordsArray(parsed).None? ==> r == []
    ensures WordsArray(parsed).Some? && Null in WordsArray(parsed).value ==> r == []
    ensures WordsArray(parsed).Some? && Null !in WordsArray(parsed).value ==>
              forall w :: w in r <==> exists item :: item in WordsArray(parsed).value
                                                     && ItemWord(item) == Some(w) && Truthy(w)
  {
    match WordsArray(parsed)
    case None => []
    case Some(items) => if Null in items then [] else WordValues(items)
  }

  /** The common case: a list of objects each with a non-empty string
      `word` gives exactly those strings, in order. */
  lemma {:induction false} PlainWordList(items: seq<Json>, words: seq<string>)
    requires |items| == |words|
    requires forall i :: 0 <= i < |items| ==> items[i] == Obj([("word", Str(words[i]))]) && words[i] != ""
    ensures |WordValues(items)| == |words|
    ensures forall i :: 0 <= i < |words| ==> WordValues(items)[i] == Str(words[i])
    decreases |items|
  {
    if |items| > 0 {
      assert forall i :: 0 <= i < |items[1..]| ==> items[1..][i] == items[i + 1] && words[1..][i] == words[i + 1];
      PlainWordList(items[1..], words[1..]);
      PlainWordListStep(items, words);
    }
  }

  lemma PlainWordListStep(items: seq<Json>, words: seq<string>)
    requires |items| == |words| > 0
    requires items[0] == Obj([("word", Str(words[0]))]) && words[0] != ""
    requires |WordValues(items[1..])| == |words| - 1
    requires forall i :: 0 <= i < |words| - 1 ==> WordValues(items[1..])[i] == Str(words[1..][i])
    ensures |WordValues(items)| == |words|
    ensures forall i :: 0 <= i < |words| ==> WordValues(items)[i] == Str(words[i])
  {
    var rest := WordValues(items[1..]);
    assert ItemWord(items[0]) == Some(Str(words[0]));
    assert WordValues(items) == [Str(words[0])] + rest;
    forall i | 0 < i < |words| ensures WordValues(items)[i] == Str(words[i]) {
      assert words[1..][i - 1] == words[i];
    }
  }

  // ---------------------------------------------------------------------
  // getRelativePath

  /** The `\` to `/` replacement applied to `path.relative`'s result. */
  function ForwardSlashes(path: string): (r: string)
    ensures |r| == |path| && '\\' !in r
    ensures forall i :: 0 <= i < |path| ==> r[i] == if path[i] == '\\' then '/' else path[i]
  {
    seq(|path|, i requires 0 <= i < |path| => if path[i] == '\\' then '/' else path[i])
  }

  /** A path already written with `/` is kept, so replacing twice is
      replacing once. */
  lemma ForwardSlashesIdempotent(path: string)
    ensures ForwardSlashes(ForwardSlashes(path)) == ForwardSlashes(path)
    ensures '\\' !in path ==> ForwardSlashes(path) == path
  {
  }

  // ---------------------------------------------------------------------
  // The CSV

  /** `String(value)` as `Array.prototype.join` applies it to a word:
      `null` inside an array becomes "", arrays join their items with
      commas, objects print as `[object Object]`. */
  function Display(j: Json): string
    decreases j
  {
    match j
    case Null => ""
    case Bool(b) => if b then "true" else "false"
    case Num(n) => if n < 0 then "-" + NatToString(-n) else NatToString(n)
    case Str(s) => s
    case Arr(items) => Join(seq(|items|, i requires 0 <= i < |items| => Display(items[i])), ",")
    case Obj(_) => "[object Object]"
  }

  function DisplayAll(words: seq<Json>): (r: seq<string>)
    ensures |r| == |words| && forall i :: 0 <= i < |words| ==> r[i] == Display(words[i])
  {
    seq(|words|, i requires 0 <= i < |words| => Display(words[i]))
  }

  /** The header line, `来源文件,单词列表` ("source file,word list"). */
  const Header: string := "\U{6765}\U{6E90}\U{6587}\U{4EF6},\U{5355}\U{8BCD}\U{5217}\U{8868}"

  /** One row: the quoted path, a comma, the quoted comma-joined words.
      Nothing inside is escaped. */
  function Row(path: string, words: seq<Json>): string {
    "\"" + path + "\",\"" + Join(DisplayAll(words), ",") + "\""
  }

  function Rows(files: seq<(string, seq<Json>)>): (r: seq<string>)
    ensures |r| == |files| && forall i :: 0 <= i < |files| ==> r[i] == Row(files[i].0, files[i].1)
  {
    seq(|files|, i requires 0 <= i < |files| => Row(files[i].0, files[i].1))
  }

  /** Files ordered by path. */
  predicate PathLeq(a: (string, seq<Json>), b: (string, seq<Json>)) {
    LexLeq(a.0, b.0)
  }

  lemma PathLeqIsTotal()
    ensures Total(PathLeq)
  {
    forall a: (string, seq<Json>), b: (string, seq<Json>) ensures PathLeq(a, b) || PathLeq(b, a) {
      LexTotal(a.0, b.0);
    }
  }

  /** The file's content: the header, then one row per file in path
      order, separated by newlines. */
  function Csv(files: seq<(string, seq<Json>)>): string {
    Join([Header] + Rows(SortBy(files, PathLeq)), "\n")
  }

  /** Text that no row may contain for the CSV to read back. */
  predicate Plain(s: string) {
    '"' !in s && '\n' !in s
  }

  /** A file whose row reads back: a non-empty path, and no quote or line
      break in the path or in any word. */
  predicate Writable(f: (string, seq<Json>)) {
    f.0 != "" && Plain(f.0) && Plain(Join(DisplayAll(f.1), ","))
  }

  lemma RowIsOneLine(f: (string, seq<Json>))
    requires Writable(f)
    ensures '\n' !in Row(f.0, f.1)
  {
  }

  /** Split into lines, the CSV is the header followed by the rows in path
      order. */
  lemma CsvLines(files: seq<(string, seq<Json>)>)
    requires forall f :: f in files ==> Writable(f)
    ensures Split(Csv(files), '\n') == [Header] + Rows(SortBy(files, PathLeq))
  {
    var sorted := SortBy(files, PathLeq);
    SortKeepsElements(files, PathLeq);
    RowsAreLines(sorted);
    SplitJoin([Header] + Rows(sorted), '\n');
  }

  lemma RowsAreLines(files: seq<(string, seq<Json>)>)
    requires forall f :: f in files ==> Writable(f)
    ensures forall i :: 0 <= i < |[Header] + Rows(files)| ==> '\n' !in ([Header] + Rows(files))[i]
  {
    var lines := [Header] + Rows(files);
    forall i | 0 <= i < |lines| ensures '\n' !in lines[i] {
      if i > 0 {
        assert files[i - 1] in files;
        RowIsOneLine(files[i - 1]);
      }
    }
  }

  /** The rows after the header are every file's row, each once, sorted
      by path. */
  lemma SortedRows(files: seq<(string, seq<Json>)>)
    ensures multiset(Rows(SortBy(files, PathLeq))) == multiset(Rows(files))
    ensures SortedBy(SortBy(files, PathLeq), PathLeq)
  {
    PathLeqIsTotal();
    RowsPermute(files, SortBy(files, PathLeq));
  }

  function RowOf(f: (string, seq<Json>)): string {
    Row(f.0, f.1)
  }

  lemma RowsPermute(a: seq<(string, seq<Json>)>, b: seq<(string, seq<Json>)>)
    requires multiset(a) == multiset(b)
    ensures multiset(Rows(a)) == multiset(Rows(b))
  {
    MapPermute(a, b, RowOf);
    assert Rows(a) == MapSeq(a, RowOf);
    assert Rows(b) == MapSeq(b, RowOf);
  }

  // ---------------------------------------------------------------------
  // The row pattern `^"([^"]+)","([^"]*)"$`

  /** The two groups of the row pattern, or `None` when the line does not
      match. A match is a line that cuts at its quotes into exactly five
      pieces: empty, the path (non-empty), a comma, the words, empty. */
  function ParseRow(line: string): (r: Option<(string, string)>)
    ensures r.Some? ==> r.value.0 != "" && '"' !in r.value.0 && '"' !in r.value.1
    ensures r.Some? ==> line == "\"" + r.value.0 + "\",\"" + r.value.1 + "\""
  {
    var pieces := Split(line, '"');
    if |pieces| == 5 && pieces[0] == "" && pieces[1] != "" && pieces[2] == "," && pieces[4] == "" then
      JoinSplit(line, '"');
      var q: string := "\"";
      assert Join(pieces[3..], q) == pieces[3] + q + pieces[4] by {
        assert pieces[3..][1..] == pieces[4..];
      }
      assert Join(pieces[1..], q) == pieces[1] + q + (pieces[2] + q + Join(pieces[3..], q)) by {
        assert pieces[1..][1..] == pieces[2..];
        assert pieces[2..][1..] == pieces[3..];
      }
      assert line == pieces[0] + q + Join(pieces[1..], q);
      Some((pieces[1], pieces[3]))
    else None
  }

  /** Every line of that shape matches, with the path and words back. */
  lemma RowMatches(path: string, words: string)
    requires path != "" && '"' !in path && '"' !in words
    ensures ParseRow("\"" + path + "\",\"" + words + "\"") == Some((path, words))
  {
    var q: string := "\"";
    var line := q + path + "\",\"" + words + q;
    assert line == "" + q + (path + q + ("," + q + (words + q + "")));
    SplitAfterPiece("", '"', path + q + ("," + q + (words + q + "")));
    SplitAfterPiece(path, '"', "," + q + (words + q + ""));
    SplitAfterPiece(",", '"', words + q + "");
    SplitAfterPiece(words, '"', "");
  }

  /** A written row reads back as its path and its comma-joined words. */
  lemma RowReadsBack(f: (string, seq<Json>))
    requires Writable(f)
    ensures ParseRow(Row(f.0, f.1)) == Some((f.0, Join(DisplayAll(f.1), ",")))
  {
    RowMatches(f.0, Join(DisplayAll(f.1), ","));
  }

  // ---------------------------------------------------------------------
  // Words in several files

  /** For one file, record its path under each of its words. */
  function AddPath(m: map<Json, set<string>>, path: string, words: seq<Json>): (r: map<Json, set<string>>)
    ensures forall w :: w in r <==> w in m || w in words
    ensures forall w :: w in r ==> r[w] == (if w in m then m[w] else {}) + (if w in words then {path} else {})
    decreases |words|
  {
    if |words| == 0 then m
    else
      var w := words[0];
      var m1 := m[w := (if w in m then m[w] else {}) + {path}];
      assert forall x :: x in words <==> x == w || x in words[1..];
      AddPath(m1, path, words[1..])
  }

  /** `wordFileCount`: each word with the set of files holding it. */
  function WordFiles(files: seq<(string, seq<Json>)>): map<Json, set<string>>
    decreases |files|
  {
    if |files| == 0 then map[]
    else
      var last := files[|files| - 1];
      AddPath(WordFiles(files[..|files| - 1]), last.0, last.1)
  }

  /** The paths of the files holding `w`. */
  function FilesWith(files: seq<(string, seq<Json>)>, w: Json): set<string> {
    set i | 0 <= i < |files| && w in files[i].1 :: files[i].0
  }

  lemma FilesWithSnoc(files: seq<(string, seq<Json>)>, w: Json)
    requires |files| > 0
    ensures var last := files[|files| - 1];
            FilesWith(files, w) == FilesWith(files[..|files| - 1], w) + (if w in last.1 then {last.0} else {})
  {
    var front := files[..|files| - 1];
    assert forall i :: 0 <= i < |front| ==> front[i] == files[i];
  }

  /** The map holds exactly the words of the files, each with the paths of
      the files holding it. */
  lemma {:induction false} WordFilesExactly(files: seq<(string, seq<Json>)>)
    ensures forall w :: w in WordFiles(files) <==> FilesWith(files, w) != {}
    ensures forall w :: w in WordFiles(files) ==> WordFiles(files)[w] == FilesWith(files, w)
    decreases |files|
  {
    if |files| > 0 {
      var front := files[..|files| - 1];
      WordFilesExactly(front);
      forall w ensures FilesWith(files, w) == FilesWith(front, w) + (if w in files[|files| - 1].1 then {files[|files| - 1].0} else {}) {
        FilesWithSnoc(files, w);
      }
    }
  }

  /** `duplicateWords`: the words found in more than one file. */
  function Duplicates(files: seq<(string, seq<Json>)>): set<Json> {
    var m := WordFiles(files);
    set w | w in m && |m[w]| > 1
  }

  /** A word is reported iff two files with different paths both hold
      it. Words are compared exactly, without case folding. */
  lemma DuplicateIff(files: seq<(string, seq<Json>)>, w: Json)
    ensures w in Duplicates(files) <==>
              exists i, j :: 0 <= i < |files| && 0 <= j < |files| && files[i].0 != files[j].0
                             && w in files[i].1 && w in files[j].1
  {
    WordFilesExactly(files);
    var s := FilesWith(files, w);
    if w in Duplicates(files) {
      var a, b := TwoMembers(s);
      var i :| 0 <= i < |files| && w in files[i].1 && files[i].0 == a;
      var j :| 0 <= j < |files| && w in files[j].1 && files[j].0 == b;
    }
    if exists i, j :: 0 <= i < |files| && 0 <= j < |files| && files[i].0 != files[j].0
                      && w in files[i].1 && w in files[j].1 {
      var i, j :| 0 <= i < |files| && 0 <= j < |files| && files[i].0 != files[j].0
                  && w in files[i].1 && w in files[j].1;
      MembersMakeTwo(s, files[i].0, files[j].0);
    }
  }

  lemma TwoMembers<T>(s: set<T>) returns (a: T, b: T)
    requires |s| > 1
    ensures a in s && b in s && a != b
  {
    a :| a in s;
    assert |s - {a}| == |s| - 1;
    b :| b in s - {a};
  }

  lemma MembersMakeTwo<T>(s: set<T>, a: T, b: T)
    requires a in s && b in s && a != b
    ensures |s| > 1
  {
    assert |s - {a}| == |s| - 1;
    assert b in s - {a};
  }
}
