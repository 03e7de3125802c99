/** proj/words/validate-deduplication.js: check a new word-bank file
    against the global vocabulary CSV. The words of every other file's row
    are collected (trimmed, lower-cased); a new word is a duplicate when
    its lower-cased form is among them; the script fails when there is
    any. Reading files is an input. */
module ValidateDedup {
  import opened Wrappers
  import opened Text
  import opened Ordering
  import opened JsonValue
  import GlobalVocabulary

  /** The words of a row's word cell: split on commas, trimmed and
      lower-cased, empty ones dropped. */
  function CellWords(cell: string): (r: set<string>)
    ensures "" !in r
    ensures forall p :: p in Split(cell, ',') && Lower(Trim(p)) != "" ==> Lower(Trim(p)) in r
    ensures forall w :: w in r ==> exists p :: p in Split(cell, ',') && Lower(Trim(p)) == w
  {
    set p | p in Split(cell, ',') && Lower(Trim(p)) != "" :: Lower(Trim(p))
  }

  /** What one line after the header contributes: nothing for a blank or
      unmatched line, the row of the file under validation, or a row with
      no words; otherwise that row's words. */
  function LineWords(line: string, current: string): Option<set<string>> {
    var t := Trim(line);
    if t == "" then None
    else
      match GlobalVocabulary.ParseRow(t)
      case None => None
      case Some((path, cell)) => if path == current || cell == "" then None else Some(CellWords(cell))
  }

  /** The words a line contributes, none when it contributes nothing. */
  function LineSet(line: string, current: string): set<string> {
    match LineWords(line, current)
    case Some(ws) => ws
    case None => {}
  }

  /** The number of lines that contribute a file's words. */
  function CountRead(rows: seq<string>, current: string): (n: nat)
    ensures n <= |rows|
    decreases |rows|
  {
    if |rows| == 0 then 0 else (if LineWords(rows[0], current).Some? then 1 else 0) + CountRead(rows[1..], current)
  }

  /** The loop body over the data lines: the collected words and the
      number of other files read. */
  function Collect(rows: seq<string>, current: string): (r: (set<string>, nat))
    ensures r.1 <= |rows|
    ensures forall w :: w in r.0 <==>
              exists i :: 0 <= i < |rows| && LineWords(rows[i], current).Some? && w in LineWords(rows[i], current).value
  {
    var f := (l: string) => LineSet(l, current);
    var words := UnionOver(rows, f);
    assert forall i :: 0 <= i < |rows| ==> f(rows[i]) == LineSet(rows[i], current);
    (words, CountRead(rows, current))
  }

  /** `otherWords` and `csvFileCount`: every line but the first (the
      header) is read. */
  function OtherWords(csv: string, current: string): (r: (set<string>, nat)) {
    var lines := Split(csv, '\n');
    Collect(lines[1..], current)
  }

  /** The new words whose lower-cased form is already taken, in the
      file's order. */
  function Duplicates(newWords: seq<string>, other: set<string>): (r: seq<string>)
    ensures |r| <= |newWords|
    ensures forall w :: w in r <==> w in newWords && Lower(w) in other
  {
    Filter(newWords, w => Lower(w) in other)
  }

  datatype Outcome = Outcome(status: int, duplicates: seq<string>)

  /** The script end to end. `arg` is the command-line path and `relative`
      its path relative to the word-bank directory; `newWords` is `None`
      when the file is not JSON or a `word` is not a string (the script
      then dies with an uncaught error, exit status 1); `csv` is `None`
      when the global CSV does not exist. Duplicates are listed sorted. */
  function Validate(arg: Option<string>, jsonExists: bool, csv: Option<string>, relative: string,
                    newWords: Option<seq<string>>): (r: Outcome)
    ensures r.status == 0 || r.status == 1
    ensures r.status == 0 <==>
              arg.Some? && jsonExists && csv.Some? && newWords.Some?
              && forall w :: w in newWords.value ==>
                   Lower(w) !in OtherWords(csv.value, GlobalVocabulary.ForwardSlashes(relative)).0
    ensures r.status == 1 && arg.Some? && jsonExists && csv.Some? && newWords.Some? ==>
              multiset(r.duplicates) ==
                multiset(Duplicates(newWords.value, OtherWords(csv.value, GlobalVocabulary.ForwardSlashes(relative)).0))
              && SortedBy(r.duplicates, LexLeq)
  {
    if arg.None? || !jsonExists || csv.None? || newWords.None? then Outcome(1, [])
    else
      var other := OtherWords(csv.value, GlobalVocabulary.ForwardSlashes(relative)).0;
      var dups := Duplicates(newWords.value, other);
      LexLeqIsTotal();
      if |dups| > 0 then
        assert dups[0] in dups;
        Outcome(1, SortBy(dups, LexLeq))
      else
        Outcome(0, [])
  }

  // ---------------------------------------------------------------------
  // Reading back the generated CSV

  /** A written row is read as the file's words, unless it is the file
      under validation or has no words. */
  lemma RowLineWords(f: (string, seq<Json>), current: string)
    requires GlobalVocabulary.Writable(f)
    ensures var cell := Join(GlobalVocabulary.DisplayAll(f.1), ",");
            LineWords(GlobalVocabulary.Row(f.0, f.1), current) ==
              if f.0 == current || cell == "" then None else Some(CellWords(cell))
  {
    var row := GlobalVocabulary.Row(f.0, f.1);
    TrimOfUnpadded(row);
    GlobalVocabulary.RowReadsBack(f);
  }

  /** The file's words are read when validating `current`. */
  predicate ReadsFile(f: (string, seq<Json>), current: string, w: string) {
    var cell := Join(GlobalVocabulary.DisplayAll(f.1), ",");
    f.0 != current && cell != "" && w in CellWords(cell)
  }

  lemma {:induction false} CollectRows(files: seq<(string, seq<Json>)>, current: string, w: string)
    requires forall f :: f in files ==> GlobalVocabulary.Writable(f)
    ensures w in Collect(GlobalVocabulary.Rows(files), current).0 <==>
              exists f :: f in files && ReadsFile(f, current, w)
  {
    var rows := GlobalVocabulary.Rows(files);
    if w in Collect(rows, current).0 {
      var i :| 0 <= i < |rows| && LineWords(rows[i], current).Some? && w in LineWords(rows[i], current).value;
      assert files[i] in files;
      RowLineWords(files[i], current);
      assert ReadsFile(files[i], current, w);
    }
    if exists f :: f in files && ReadsFile(f, current, w) {
      var f :| f in files && ReadsFile(f, current, w);
      var i :| 0 <= i < |files| && files[i] == f;
      RowLineWords(f, current);
      assert LineWords(rows[i], current).Some? && w in LineWords(rows[i], current).value;
    }
  }

  /** Validation against a CSV the generator wrote sees exactly the words
      of every other file with words: the header is skipped, every row
      parses, and only the row of the file under validation is left out. */
  lemma GeneratedCsvIsRead(files: seq<(string, seq<Json>)>, current: string, w: string)
    requires forall f :: f in files ==> GlobalVocabulary.Writable(f)
    ensures w in OtherWords(GlobalVocabulary.Csv(files), current).0 <==>
              exists f :: f in files && ReadsFile(f, current, w)
  {
    var sorted := SortBy(files, GlobalVocabulary.PathLeq);
    SortKeepsElements(files, GlobalVocabulary.PathLeq);
    GlobalVocabulary.CsvLines(files);
    assert Split(GlobalVocabulary.Csv(files), '\n')[1..] == GlobalVocabulary.Rows(sorted);
    CollectRows(sorted, current, w);
  }

  /** A cell of words without commas reads back as those words, trimmed
      and lower-cased, empty ones dropped. */
  lemma CellOfJoinedWords(words: seq<string>)
    requires |words| > 0 && forall i :: 0 <= i < |words| ==> ',' !in words[i]
    ensures forall w :: w in CellWords(Join(words, ",")) <==>
              w != "" && exists i :: 0 <= i < |words| && Lower(Trim(words[i])) == w
  {
    SplitJoin(words, ',');
  }
}
