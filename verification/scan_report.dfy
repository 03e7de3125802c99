/** proj/tools/scan_words.py: which files are scanned, how each file's word
    set is obtained, and the rows of the per-file CSV report. CSV quoting is
    left to the csv library; a row is its list of fields. */
module ScanReport {
  import opened Wrappers
  import opened Text
  import opened Ordering
  import opened JsonValue
  import opened JsonWords

  /** One path produced by walking the input directory. `text` is the file's
      content as read ("" when reading fails); `parsed` is the result of
      `json.loads(text)`, `None` when it raises; `resolved` is the resolved
      absolute path, `None` when resolution raises. */
  datatype DirEntry = DirEntry(
    relPath: string,
    isFile: bool,
    resolved: Option<string>,
    text: string,
    parsed: Option<Json>)

  /** The last path component. */
  function BaseName(path: string): (r: string)
    ensures '/' !in r
    ensures EndsWith(path, r)
    decreases |path|
  {
    if |path| == 0 then ""
    else if path[|path| - 1] == '/' then ""
    else
      var r := BaseName(path[..|path| - 1]);
      assert path[..|path| - 1][|path| - 1 - |r|..] == r;
      assert path[|path| - 1 - |r|..] == r + [path[|path| - 1]];
      r + [path[|path| - 1]]
  }

  function LastDot(name: string): (i: int)
    ensures -1 <= i < |name|
    ensures i >= 0 ==> name[i] == '.'
    ensures forall k :: i < k < |name| ==> name[k] != '.'
    decreases |name|
  {
    if |name| == 0 then -1
    else if name[|name| - 1] == '.' then |name| - 1
    else LastDot(name[..|name| - 1])
  }

  /** `Path.suffix`: from the last dot, unless that dot is the first or the
      last character of the name. */
  function Suffix(name: string): (r: string)
    ensures r == "" || (r[0] == '.' && EndsWith(name, r) && |r| < |name|)
  {
    var i := LastDot(name);
    if 0 < i < |name| - 1 then name[i..] else ""
  }

  /** The generated report is skipped: by resolved path, or, when a path
      cannot be resolved, by its usual names. */
  predicate IsOutputFile(e: DirEntry, output: Option<string>) {
    if e.resolved.Some? && output.Some? then e.resolved.value == output.value
    else BaseName(e.relPath) in {"words.csv", "words.txt"}
  }

  predicate IsScanned(e: DirEntry, output: Option<string>) {
    e.isFile && !IsOutputFile(e, output)
    && Lower(Suffix(BaseName(e.relPath))) == ".json"
    && e.text != ""
  }

  /** JSON that parses is walked; text that does not parse falls back to the
      regular expression. */
  function FileWords(e: DirEntry): set<string> {
    match e.parsed
    case Some(j) => Words(j)
    case None => TextWords(e.text)
  }

  /** `collect_words_per_file`: scanned files with a non-empty word set, in
      walk order. */
  function CollectWords(entries: seq<DirEntry>, output: Option<string>): (r: seq<(string, set<string>)>)
    ensures |r| <= |entries|
    ensures forall i :: 0 <= i < |r| ==> r[i].1 != {}
    decreases |entries|
  {
    if |entries| == 0 then []
    else
      var e := entries[0];
      var rest := CollectWords(entries[1..], output);
      if IsScanned(e, output) && FileWords(e) != {} then [(e.relPath, FileWords(e))] + rest else rest
  }

  /** A file appears in the mapping iff it is scanned and yields at least
      one word, and then with exactly its word set. */
  lemma {:induction false} CollectWordsExactly(entries: seq<DirEntry>, output: Option<string>, path: string, ws: set<string>)
    ensures (path, ws) in CollectWords(entries, output) <==>
            exists i :: 0 <= i < |entries| && Collected(entries[i], output, path, ws)
    decreases |entries|
  {
    if |entries| > 0 {
      CollectWordsExactly(entries[1..], output, path, ws);
      CollectStep(entries, output, path, ws);
    }
  }

  lemma CollectStep(entries: seq<DirEntry>, output: Option<string>, path: string, ws: set<string>)
    requires |entries| > 0
    requires (path, ws) in CollectWords(entries[1..], output) <==>
             exists i :: 0 <= i < |entries[1..]| && Collected(entries[1..][i], output, path, ws)
    ensures (path, ws) in CollectWords(entries, output) <==>
            exists i :: 0 <= i < |entries| && Collected(entries[i], output, path, ws)
  {
    var rest := CollectWords(entries[1..], output);
    CollectHead(entries, output, path, ws);
    if (path, ws) in rest {
      var i :| 0 <= i < |entries[1..]| && Collected(entries[1..][i], output, path, ws);
      assert Collected(entries[i + 1], output, path, ws);
    }
    if i :| 0 <= i < |entries| && Collected(entries[i], output, path, ws) {
      if i > 0 {
        assert entries[1..][i - 1] == entries[i];
      }
    }
  }

  lemma CollectHead(entries: seq<DirEntry>, output: Option<string>, path: string, ws: set<string>)
    requires |entries| > 0
    ensures (path, ws) in CollectWords(entries, output) <==>
              Collected(entries[0], output, path, ws) || (path, ws) in CollectWords(entries[1..], output)
  {
    var e := entries[0];
    var rest := CollectWords(entries[1..], output);
    var x := (e.relPath, FileWords(e));
    var here := IsScanned(e, output) && FileWords(e) != {};
    assert Collected(e, output, path, ws) <==> here && (path, ws) == x;
    if here {
      assert CollectWords(entries, output) == [x] + rest;
      assert (path, ws) in [x] + rest <==> (path, ws) == x || (path, ws) in rest;
    } else {
      assert CollectWords(entries, output) == rest;
    }
  }

  /** `e` is the file at `path` and contributes exactly `ws`. */
  predicate Collected(e: DirEntry, output: Option<string>, path: string, ws: set<string>) {
    e.relPath == path && IsScanned(e, output) && FileWords(e) == ws && ws != {}
  }

  /** The walk of a parsed file never picks up the text fallback's words. */
  lemma ParsedFileUsesJson(e: DirEntry)
    requires e.parsed.Some?
    ensures FileWords(e) == Words(e.parsed.value)
  {
  }

  /** Rows are ordered by lower-cased file name, then by relative path. */
  predicate FileLeq(a: (string, set<string>), b: (string, set<string>)) {
    var na := Lower(BaseName(a.0));
    var nb := Lower(BaseName(b.0));
    if na == nb then LexLeq(a.0, b.0) else LexLeq(na, nb)
  }

  lemma FileLeqIsTotal()
    ensures Total(FileLeq)
  {
    forall a: (string, set<string>), b: (string, set<string>) ensures FileLeq(a, b) || FileLeq(b, a) {
      LexTotal(a.0, b.0);
      LexTotal(Lower(BaseName(a.0)), Lower(BaseName(b.0)));
    }
  }

  ghost function SortedWords(ws: set<string>): (r: seq<string>)
    ensures |r| == |ws|
    ensures forall w :: w in r <==> w in ws
    ensures Distinct(r)
    ensures SortedBy(r, CaseFoldLeq)
  {
    CaseFoldLeqIsTotal();
    SortedSet(ws, CaseFoldLeq)
  }

  ghost function FileRow(f: (string, set<string>)): seq<string> {
    [BaseName(f.0), NatToString(|f.1|), Join(SortedWords(f.1), " ")]
  }

  function SumCounts(files: seq<(string, set<string>)>): nat
    decreases |files|
  {
    if |files| == 0 then 0 else |files[0].1| + SumCounts(files[1..])
  }

  ghost function FileRows(files: seq<(string, set<string>)>): (r: seq<seq<string>>)
    ensures |r| == |files|
    ensures forall i :: 0 <= i < |files| ==> r[i] == FileRow(files[i])
    decreases |files|
  {
    if |files| == 0 then [] else [FileRow(files[0])] + FileRows(files[1..])
  }

  lemma {:induction false} SumCountsPermutation(a: seq<(string, set<string>)>, b: seq<(string, set<string>)>)
    requires multiset(a) == multiset(b)
    ensures SumCounts(a) == SumCounts(b)
    decreases |a|
  {
    if |a| == 0 {
      assert |b| == |multiset(b)| == 0;
    } else {
      var x := a[0];
      assert x in multiset(b);
      var k :| 0 <= k < |b| && b[k] == x;
      var b' := b[..k] + b[k + 1..];
      assert b == b[..k] + ([x] + b[k + 1..]);
      RemoveFromBoth(a, b, k);
      SumCountsPermutation(a[1..], b');
      SumCountsSplit(b[..k], [x] + b[k + 1..]);
      SumCountsSplit(b[..k], b[k + 1..]);
      assert ([x] + b[k + 1..])[1..] == b[k + 1..];
    }
  }

  lemma {:induction false} SumCountsSplit(a: seq<(string, set<string>)>, b: seq<(string, set<string>)>)
    ensures SumCounts(a + b) == SumCounts(a) + SumCounts(b)
    decreases |a|
  {
    if |a| == 0 {
      assert a + b == b;
    } else {
      assert (a + b)[0] == a[0];
      assert (a + b)[1..] == a[1..] + b;
      SumCountsSplit(a[1..], b);
    }
  }

  /** `write_words_per_file`: header, one row per file in report order,
      then the two summary rows. */
  ghost function WriteReport(files: seq<(string, set<string>)>): (rows: seq<seq<string>>)
    ensures |rows| == |files| + 3
    ensures rows[0] == ["file", "count", "words"]
    ensures rows[|rows| - 2] == ["__summary__", "files", NatToString(|files|)]
    ensures rows[|rows| - 1] == ["__summary__", "total_words", NatToString(SumCounts(files))]
  {
    var ordered := SortBy(files, FileLeq);
    SumCountsPermutation(ordered, files);
    [["file", "count", "words"]] + FileRows(ordered)
    + [["__summary__", "files", NatToString(|ordered|)], ["__summary__", "total_words", NatToString(SumCounts(ordered))]]
  }

  /** The file rows of the report are exactly the files' rows, each once,
      in (lower-cased name, path) order. */
  lemma ReportOrder(files: seq<(string, set<string>)>)
    ensures var rows := WriteReport(files);
            var ordered := SortBy(files, FileLeq);
            multiset(ordered) == multiset(files) && SortedBy(ordered, FileLeq)
            && forall i :: 0 <= i < |files| ==> rows[i + 1] == FileRow(ordered[i])
  {
    FileLeqIsTotal();
  }

  /** Reading a file row back: the count field is the number of words, and
      splitting the words field on spaces gives the file's word set, sorted
      case-insensitively. */
  lemma {:induction false} RowReadsBack(f: (string, set<string>))
    requires f.1 != {}
    requires forall w :: w in f.1 ==> IsVocabularyWord(w)
    ensures DigitsValue(FileRow(f)[1]) == |f.1|
    ensures var ws := Split(FileRow(f)[2], ' ');
            |ws| == |f.1| && (forall w :: w in ws <==> w in f.1) && SortedBy(ws, CaseFoldLeq)
  {
    NatToStringValue(|f.1|);
    var ws := SortedWords(f.1);
    forall i | 0 <= i < |ws| ensures ' ' !in ws[i] {
      assert ws[i] in f.1;
      NoSpaceInWord(ws[i]);
    }
    SplitJoin(ws, ' ');
  }

  lemma NoSpaceInWord(w: string)
    requires IsVocabularyWord(w)
    ensures ' ' !in w
  {
    Tokens.WordShapeMatches(w);
  }

  /** The summary's word total adds up per-file counts: a word in two files
      is counted twice, so it is not the number of distinct words. */
  lemma SummaryCountsRepeats()
    ensures var files := [("a.json", {"cat"}), ("b.json", {"cat"})];
            SumCounts(files) == 2 && |files[0].1 + files[1].1| == 1
  {
    var files := [("a.json", {"cat"}), ("b.json", {"cat"})];
    assert files[1..] == [("b.json", {"cat"})];
    assert files[0].1 + files[1].1 == {"cat"};
  }

  datatype InputDir = Missing | NotADirectory | Directory(entries: seq<DirEntry>)

  /** `main`: exit status 1 and no report when the input is missing or not a
      directory; otherwise the report of the scanned files and status 0. */
  ghost function RunCli(input: InputDir, output: Option<string>): (r: (int, Option<seq<seq<string>>>))
    ensures r.0 == 0 || r.0 == 1
    ensures r.0 == 1 <==> !input.Directory?
    ensures r.1.Some? <==> r.0 == 0
    ensures input.Directory? ==> r.1 == Some(WriteReport(CollectWords(input.entries, output)))
  {
    match input
    case Directory(entries) => (0, Some(WriteReport(CollectWords(entries, output))))
    case _ => (1, None)
  }
}
