# Word Tetris, modelled in Dafny

A model of the logic of WordPractice's "Word Tetris" spelling game and the
tooling around its word banks. Words fall down the screen with some letters
hidden. The player types the missing letters. Missed words go to a stack and
to a missed-words book. Levels, exams and certificates gate progress.
The scripts scan, deduplicate, rebalance and index the JSON word banks.

Each module models one part of the repository as pure functions over
immutable datatypes. The contracts and lemmas state what that part promises:
- round trips (a saved value loads back, a written CSV row parses back);
- the invariants an operation keeps (the stack and the missed book agree,
  at least one library stays enabled);
- membership "if and only if" facts (a word is collected exactly when some
  file holds it);
- permutations and ordering (the dealt words are the pool, the reports are
  sorted).

The clock, randomness, storage, the network, files and the DOM are not
modelled. Where the code reads them, the value read becomes a parameter:
- the time `now`;
- a sequence of random draws;
- the stored string or the parsed JSON;
- whether a `HEAD` request succeeded.

Thrown and caught errors become `Option` results or outcome datatypes.

Modules:

| module | models |
|---|---|
| `Wrappers`, `Text`, `Ordering`, `JsonValue` | shared helpers: `Option`, JavaScript string operations (`trim`, `split`, `join`, `toLowerCase`), sorting and sets, JSON values |
| `Tokens`, `JsonWords`, `ScanReport` | proj/tools/scan_words.py |
| `AudioTool` | proj/tools/download_word_audio.py |
| `AnalyzeBank`, `FixWords`, `Dedup` | proj/analyze_words.py, proj/fix_words.py |
| `AnalyzeDocument` | proj/tools/analyze_words.py |
| `GlobalVocabulary`, `ValidateDedup`, `ChapterWords` | the three Node scripts under proj/words |
| `Masking`, `RecentWords`, `LevelSelection`, `MissedBook`, `Collection`, `WordPool`, `Syllables` | the vocabulary managers (proj/vocabulary.js, proj/old_version/vocabulary.js, proj/vocabulary-manager-v2.js, proj/src/core/vocabulary-manager-v2.js) |
| `TetrisGame` | proj/src/core/WordTetrisGame.js |
| `LegacyGame` | proj/game.js |
| `MissedStore` | proj/src/utils/MissedWordsManager.js |
| `CertStorage`, `CertSystem`, `CertPage` | proj/src/utils/CertificationStorage.js, proj/src/systems/CertificationSystem.js, proj/src/ui/CertificationPage.js |
| `ExamFiles` | proj/src/systems/ExamIntegration.js |
| `Phonetic` | proj/src/utils/PhoneticFormatter.js |
| `R2Config` | proj/src/config/r2-config.js |
| `Tts` | proj/src/utils/TTSService.js |
| `AudioCache` | proj/src/utils/AudioCacheManager.js |
| `Settings`, `LibrarySettings` | proj/src/ui/settings.js, proj/settings-v2.js, proj/settings.js |

## Model

| member | source | states |
|---|---|---|
| Tokens.WordShapeMatches | proj/tools/scan_words.py:32 | the word pattern accepts exactly the letter/hyphen/apostrophe strings that start and end with a letter and never have two joiners side by side |
| Tokens.MatchLength | proj/tools/scan_words.py:32 | the greedy match at a letter is a whole word: it matches the pattern, no letter follows it, and no joiner-plus-letter could extend it |
| Tokens.FindAll | proj/tools/scan_words.py:41 | every result of `findall` matches the word pattern |
| Tokens.FindAllKeepsLetters | proj/tools/scan_words.py:41 | no letter of the text is lost: the matches together hold as many letters as the text |
| Tokens.MatchLengthUnique | proj/tools/scan_words.py:32 | the greedy match is the only prefix that is a word and is followed by neither a letter nor a joiner plus a letter |
| Tokens.FindAllScans | proj/tools/scan_words.py:41 | the text is letter-free gaps woven with `findall`'s matches, each a word that the pattern cannot extend |
| Tokens.ScansAreFindAll | proj/tools/scan_words.py:41 | any split of the text into letter-free gaps and unextendable words is `findall`'s result: it returns every maximal word, in order, and nothing else |
| Tokens.ShortWordIsWord | proj/tools/analyze_words.py:15 | every match of the one-joiner pattern also matches the many-joiner pattern |
| Tokens.ShortMatchLength | proj/tools/analyze_words.py:15 | the one-joiner match at a letter is non-empty, matches its pattern, is not followed by a letter, and a letters-only match is not followed by a joiner and a letter (the optional group is greedy) |
| Tokens.FindAllShort | proj/tools/analyze_words.py:15 | every result of `findall` with the one-joiner pattern matches that pattern |
| Tokens.ShortMatchLengthUnique | proj/tools/analyze_words.py:15 | the one-joiner match is the only prefix that fits the pattern and that the pattern cannot extend |
| Tokens.FindAllShortScans | proj/tools/analyze_words.py:15 | the text is letter-free gaps woven with the one-joiner matches, none extendable |
| Tokens.ScansAreFindAllShort | proj/tools/analyze_words.py:15 | any such split of the text is the one-joiner `findall` result, so the result is exactly the leftmost maximal matches in order |
| JsonWords.OwnWord | proj/tools/scan_words.py:60-63 | an object contributes at most one word of its own, and only a vocabulary word (lower case, two characters or more, matching the pattern) |
| JsonWords.WordsAreVocabulary | proj/tools/scan_words.py:45-77 | everything the recursive walk collects is a vocabulary word |
| JsonWords.OwnWordExactly | proj/tools/scan_words.py:60-63 | a string `word` member contributes exactly its stripped, lower-cased value when that is a vocabulary word, and nothing otherwise |
| JsonWords.NoOwnWord | proj/tools/scan_words.py:60 | a missing or non-string `word` member contributes nothing |
| JsonWords.NestedWordsCollected | proj/tools/scan_words.py:64-73 | the words of every nested object or list member, and of every list element, are collected |
| JsonWords.ListWordsExactly | proj/tools/scan_words.py:55-77 | a list yields exactly its elements' words; `null` and primitives yield nothing |
| JsonWords.ObjectWordsExactly | proj/tools/scan_words.py:45-77 | an object yields exactly its own `word` and the words of its object and list members; its other members are ignored |
| JsonWords.TextWords | proj/tools/scan_words.py:35-42 | the text fallback yields only vocabulary words |
| JsonWords.TextWordsComplete | proj/tools/scan_words.py:41-42 | every match of two characters or more is collected, lower-cased |
| ScanReport.BaseName | proj/tools/scan_words.py:152 | the file name holds no `/` and ends the path |
| ScanReport.Suffix | proj/tools/scan_words.py:110 | the suffix is empty or a proper dotted ending of the name |
| ScanReport.CollectWords | proj/tools/scan_words.py:87-128 | never more entries than walked paths, each with a non-empty word set |
| ScanReport.CollectWordsExactly | proj/tools/scan_words.py:96-126 | a file appears with its word set exactly when it is a `.json` file other than the output, with readable text and a non-empty word set |
| ScanReport.ParsedFileUsesJson | proj/tools/scan_words.py:117-122 | a file that parses is walked as JSON and never falls back to the text regex |
| ScanReport.FileLeqIsTotal | proj/tools/scan_words.py:139-140 | the report's sort key orders any two files |
| ScanReport.ReportOrder | proj/tools/scan_words.py:150-158 | the file rows are every file's row once, sorted by lower-cased name and then path |
| ScanReport.SumCountsPermutation | proj/tools/scan_words.py:144-155 | the word total does not depend on the order the files are written in |
| ScanReport.WriteReport | proj/tools/scan_words.py:131-160 | a header, one row per file, and the two summary rows with the file count and the word total |
| ScanReport.RowReadsBack | proj/tools/scan_words.py:151-158 | a row's count field is its number of words, and its words field splits back into the file's words, sorted case-insensitively |
| ScanReport.SummaryCountsRepeats | proj/tools/scan_words.py:154 | the total adds per-file counts, so a word in two files counts twice |
| ScanReport.RunCli | proj/tools/scan_words.py:162-205 | exit status 1 and no report exactly when the input is not a directory; otherwise status 0 and the report of the collected files |
| AudioTool.FileWords | proj/tools/download_word_audio.py:92-104 | a file that fails to parse contributes nothing; otherwise only vocabulary words |
| AudioTool.AllWords | proj/tools/download_word_audio.py:106-118 | the collected set is exactly the union of the words of every scanned file (`config.json` and `manifest.json` skipped) |
| AudioTool.ExistingWords | proj/tools/download_word_audio.py:120-133 | a missing audio directory means no existing words; otherwise the existing words are exactly the words the `*_youdao.mp3` file names stand for |
| AudioTool.SavedFileIsRecognised | proj/tools/download_word_audio.py:127-137 | the file saved for a vocabulary word is found again by the next run as that same word |
| AudioTool.WordsToDownload | proj/tools/download_word_audio.py:227 | a word is fetched exactly when it is collected and has no audio yet |
| AudioTool.DownloadOrder | proj/tools/download_word_audio.py:180 | the words are fetched once each, in sorted order |
| AudioTool.DownloadAudio | proj/tools/download_word_audio.py:135-168 | at most three attempts, stopping at the first 200 response of at least 100 bytes; failure exactly when all three fail |
| AudioTool.SuccessCountSnoc | proj/tools/download_word_audio.py:182-190 | one more word adds one success exactly when its download succeeds |
| AudioTool.DownloadMissing | proj/tools/download_word_audio.py:170-194 | every word attempted counts once, as downloaded or failed, and the downloads are the words whose fetch succeeds |
| AnalyzeBank.LessonSources | proj/analyze_words.py:55-75 | one occurrence per word object, with the lesson key, the lower-cased word and the difficulty (1 when absent) |
| AnalyzeBank.SourcesOf | proj/analyze_words.py:69-75 | a word's sources are exactly its occurrences, in order |
| AnalyzeBank.RepeatedIffTwoPositions | proj/analyze_words.py:103-106 | a word has more than one source exactly when it occurs at two different positions |
| AnalyzeBank.Duplicates | proj/analyze_words.py:103-106 | the duplicates are exactly the words with more than one source, each with all its sources |
| AnalyzeBank.DuplicatesEmptyIffDistinct | proj/analyze_words.py:103-116 | no duplicate is reported exactly when the lower-cased words are pairwise different |
| AnalyzeBank.TierSet | proj/analyze_words.py:138-142 | a tier's set is exactly the words occurring with that difficulty |
| AnalyzeBank.Overlaps | proj/analyze_words.py:145-150 | the pairs (1,2), (1,3), (2,3) in that order, each reported with its shared words exactly when they share one |
| AnalyzeBank.Insufficient | proj/analyze_words.py:168-173 | tiers 1 to 3 with fewer than 20 distinct words are flagged, with their size |
| AnalyzeBank.Analyze | proj/analyze_words.py:77-80 | the duplicate count is the total number of words less the number of distinct words |
| AnalyzeBank.DuplicateCountAgrees | proj/analyze_words.py:78-116 | the duplicate count is zero exactly when the duplicate list is empty, exactly when no word repeats |
| AnalyzeBank.NoOverlapWithOneTierPerWord | proj/analyze_words.py:138-157 | when every word keeps one tier wherever it occurs, no overlap is reported |
| AnalyzeBank.RepairedBankIsClean | proj/analyze_words.py:77-157 | analysing a bank written by the repair tool finds no duplicates and no overlaps |
| Dedup.KeepFirst | proj/fix_words.py:37-49 | the kept items have pairwise different keys, none already seen, and cover every unseen key of the input |
| Dedup.Skipped | proj/fix_words.py:41-43 | every item is either kept or skipped, and a skipped item's key was already seen or kept |
| Dedup.KeptAreFirst | proj/fix_words.py:41-46 | every kept item is the first occurrence of its key |
| Dedup.KeepFirstOfDistinct | proj/fix_words.py:37-49 | a list that has no repeats and no seen keys is kept whole |
| Dedup.KeepFirstIdempotent | proj/fix_words.py:37-49 | de-duplicating twice is de-duplicating once |
| Dedup.KeepFirstAppend | proj/fix_words.py:37-49 | one pass over two parts is a pass over the first and then over the second with the first's keys seen, as the shared `seen_words` does across lessons |
| FixWords.Removals | proj/fix_words.py:39-43 | every dropped word is recorded with its lesson, index and lower-cased spelling, and records plus kept words account for the lesson |
| FixWords.DedupLessons | proj/fix_words.py:37-49 | lessons keep their keys and order, and removals plus kept words account for the whole bank |
| FixWords.DedupIsGlobalKeepFirst | proj/fix_words.py:31-49 | lesson by lesson with a shared seen set is keep-first over the whole bank in order |
| FixWords.DedupLeavesNoRepeats | proj/fix_words.py:31-49 | after step 1 no lower-cased word occurs twice, and every word of the bank is still represented |
| FixWords.LengthTier | proj/fix_words.py:72-77 | tier 1 for at most 4 characters, 3 for at least 8, 2 in between |
| FixWords.NewDifficulty | proj/fix_words.py:80-105 | the exception table, looked up lower-cased, overrides the length tier |
| FixWords.ExceptionTableOnlyMovesCamera | proj/fix_words.py:72-105 | every new tier is 1 to 3, and the table changes only `camera` (length tier 2, table 3) |
| FixWords.RebalanceWords | proj/fix_words.py:67-109 | every word gets its new tier, and a change is recorded exactly for the words whose tier moved |
| FixWords.RebalanceKeepsWords | proj/fix_words.py:55-109 | rebalancing keeps every word in place, puts it in tier 1 to 3, and keeps keys distinct |
| FixWords.TiersCoverAll | proj/fix_words.py:121-140 | the three tier counts written to `fixedIssues` add up to the word total |
| FixWords.StampMetadata | proj/fix_words.py:130-132 | `totalWords`, `version` 1.2 and `lastUpdated` 2025-10-05 are set and every other key is kept |
| FixWords.AppendIssues | proj/fix_words.py:134-141 | the notes are appended to `fixedIssues`, created when absent; a non-list `fixedIssues` is an error |
| FixWords.FixedIssuesUntouched | proj/fix_words.py:130-134 | stamping the metadata leaves `fixedIssues` alone |
| FixWords.UpdateMetadata | proj/fix_words.py:130-141 | fails exactly when `fixedIssues` is present and not a list; otherwise the total is the new word count |
| FixWords.IssuesAreAppended | proj/fix_words.py:137-141 | an existing issue list is extended, never replaced |
| FixWords.IssuesAreCreated | proj/fix_words.py:134-141 | a bank without `fixedIssues` gets a list holding just the three notes |
| FixWords.FixBank | proj/fix_words.py:24-149 | for well-typed word objects, fails exactly when there is no metadata or its `fixedIssues` is not a list; otherwise the lessons keep their keys in order, the surviving words are the first occurrence of each lower-cased word across the bank in order, each with its new tier (1 to 3), and `totalWords` is their count |
| AnalyzeDocument.SortedUnique | proj/tools/analyze_words.py:31-40 | the word list holds each lower-cased word once, in code point order, and nothing else |
| AnalyzeDocument.Analyze | proj/tools/analyze_words.py:18-41 | an unreadable file gives no report; otherwise the token count, the number of distinct lower-cased tokens and their sorted list |
| AnalyzeDocument.LowerKeepsShortWord | proj/tools/analyze_words.py:15-31 | lower-casing a token keeps it a token of the pattern |
| AnalyzeDocument.RunCli | proj/tools/analyze_words.py:43-49 | without a file argument the exit status is 1 and nothing is analysed; otherwise the file is analysed |
| AnalyzeDocument.ReportConsistent | proj/tools/analyze_words.py:28-40 | the distinct count never exceeds the total, the list holds exactly that many words, and each is a lower-case token |
| GlobalVocabulary.WordValues | proj/words/generate-global-vocabulary.js:48 | the values are exactly the truthy `word` members of the items, in order |
| GlobalVocabulary.WordValuesAppend | proj/words/generate-global-vocabulary.js:48 | the values of two runs of items are the two runs' values in turn, so the item order is kept |
| GlobalVocabulary.ExtractWords | proj/words/generate-global-vocabulary.js:42-55 | no `words` array or a thrown error (a `null` item) gives []; otherwise exactly the truthy `word` values |
| GlobalVocabulary.PlainWordList | proj/words/generate-global-vocabulary.js:47-49 | a list of `{word: w}` objects with non-empty words yields exactly those words in order |
| GlobalVocabulary.ForwardSlashes | proj/words/generate-global-vocabulary.js:58-60 | every `\` becomes `/` and nothing else changes |
| GlobalVocabulary.ForwardSlashesIdempotent | proj/words/generate-global-vocabulary.js:58-60 | converting twice is converting once, and a path with no `\` is unchanged |
| GlobalVocabulary.PathLeqIsTotal | proj/words/generate-global-vocabulary.js:100 | the path comparison orders any two files |
| GlobalVocabulary.RowIsOneLine | proj/words/generate-global-vocabulary.js:105-106 | a row of a path and words without line breaks is one line |
| GlobalVocabulary.CsvLines | proj/words/generate-global-vocabulary.js:94-109 | split into lines the file is the header followed by every file's row in path order (code-point order; see Left out) |
| GlobalVocabulary.SortedRows | proj/words/generate-global-vocabulary.js:100-107 | the rows are every file's row once, sorted by path in code-point order (see Left out) |
| GlobalVocabulary.RowsPermute | proj/words/generate-global-vocabulary.js:102-107 | reordering the files only reorders the rows |
| GlobalVocabulary.ParseRow | proj/words/validate-deduplication.js:68 | a matching line is exactly `"path","words"` with a non-empty path and no quotes inside |
| GlobalVocabulary.RowMatches | proj/words/validate-deduplication.js:68 | every line of that shape matches, giving back its path and its words |
| GlobalVocabulary.RowReadsBack | proj/words/generate-global-vocabulary.js:105-106 | a row the generator writes parses back as its path and its comma-joined words |
| GlobalVocabulary.AddPath | proj/words/generate-global-vocabulary.js:120-127 | each word of the file gains the file's path, and every other word is unchanged |
| GlobalVocabulary.WordFilesExactly | proj/words/generate-global-vocabulary.js:119-127 | the map holds exactly the words of the files, each with the set of paths of the files holding it |
| GlobalVocabulary.DuplicateIff | proj/words/generate-global-vocabulary.js:130 | a word counts as repeated exactly when two files with different paths hold it, compared exactly, without case folding |
| ValidateDedup.CellWords | proj/words/validate-deduplication.js:85-90 | a word cell yields exactly its comma-separated pieces, trimmed and lower-cased, without the empty ones |
| ValidateDedup.Collect | proj/words/validate-deduplication.js:63-91 | a word is collected exactly when some data line contributes it, and at most one file is counted per line |
| ValidateDedup.Duplicates | proj/words/validate-deduplication.js:104-110 | a new word is a duplicate exactly when its lower-cased form was collected, in the file's order |
| ValidateDedup.Validate | proj/words/validate-deduplication.js:24-139 | exit status 0 exactly when the argument, the file and the CSV are present, the file parses and no new word is taken; otherwise 1, with the duplicates sorted |
| ValidateDedup.RowLineWords | proj/words/validate-deduplication.js:63-90 | a row the generator wrote is read as that file's words unless it is the file under validation or has no words |
| ValidateDedup.CollectRows | proj/words/validate-deduplication.js:63-91 | reading the generated rows collects a word exactly when some other file with words holds it |
| ValidateDedup.GeneratedCsvIsRead | proj/words/validate-deduplication.js:54-91 | validating against a CSV the generator wrote sees exactly the words of every other file with words |
| ValidateDedup.CellOfJoinedWords | proj/words/validate-deduplication.js:85-90 | a cell of comma-free words reads back as those words, trimmed and lower-cased, without the empty ones |
| ChapterWords.Gather | proj/words/temp-extract-words.js:8-14 | a word is gathered exactly when some matching row's cell holds it |
| ChapterWords.ExistingWords | proj/words/temp-extract-words.js:3-14 | every line after the header that matches the row pattern untrimmed contributes its words; no row is skipped for being the current file |
| ChapterWords.CarriageReturnRowIgnored | proj/words/temp-extract-words.js:9 | a row ending in a carriage return does not match, so a CRLF file yields no existing words |
| ChapterWords.Clean | proj/words/temp-extract-words.js:23-25 | the text is lower-cased and every character other than a letter, white space, `'` or `-` becomes a space, keeping the length |
| ChapterWords.Fields | proj/words/temp-extract-words.js:26-27 | the white-space split without empty pieces gives non-empty pieces without white space |
| ChapterWords.FieldsKeepCharacters | proj/words/temp-extract-words.js:26-27 | the pieces, run together, are the text's non-space characters in order |
| ChapterWords.Tokens | proj/words/temp-extract-words.js:23-27 | every token is non-empty and made of lower-case letters, apostrophes and hyphens |
| ChapterWords.NewWords | proj/words/temp-extract-words.js:30-40 | the result lists each token once, sorted, exactly when it is neither a function word nor already in the CSV |
| Masking.Gather | proj/src/core/vocabulary-manager-v2.js:792-797 | the rejection loop ends with the wanted number of distinct positions, all drawn |
| Masking.GatherSucceedsIff | proj/src/core/vocabulary-manager-v2.js:792-797 | the loop ends exactly when the draws hold enough different new values |
| Masking.SortIndices | proj/src/core/vocabulary-manager-v2.js:799 | the numeric sort keeps the positions and puts them in increasing order |
| Masking.MissingIndices | proj/src/core/vocabulary-manager-v2.js:784-800 | a count of at least the length hides every position; otherwise `count` distinct drawn positions, in increasing order |
| Masking.MissingIndicesKeepOne | proj/vocabulary.js:128-140 | at most `length - 1` distinct positions in increasing order, so one letter always stays visible |
| Masking.KeepOneLeavesALetter | proj/old_version/vocabulary.js:358-371 | a non-empty word keeps at least one visible position |
| Masking.ReviewIndices | proj/vocabulary.js:229-237 | the review puzzle hides one or two distinct positions (fewer for a shorter word), in the order drawn |
| Masking.ReviewIndicesUnsorted | proj/vocabulary.js:229-237 | unlike the other variants the review positions are not sorted |
| Masking.DisplayWord | proj/src/core/vocabulary-manager-v2.js:802-810 | hidden positions show `_`, all others the word's letter, and the length is kept |
| Masking.MissingLetters | proj/src/core/vocabulary-manager-v2.js:812-814 | the expected letters are the word's letters at the hidden positions, in list order |
| Masking.FillRestores | proj/src/core/vocabulary-manager-v2.js:802-814 | putting the expected letters back into the hidden positions restores the word |
| Masking.DisplayRoundTrip | proj/src/core/vocabulary-manager-v2.js:802-814 | filling the displayed word's blanks with the expected letters gives back the word |
| Masking.ChallengeHidesEverything | proj/src/core/vocabulary-manager-v2.js:703-705 | challenge mode hides every letter: the display is all blanks and the expected letters are the word |
| Masking.MakePuzzle | proj/src/core/vocabulary-manager-v2.js:707-718 | the puzzle keeps the word, its blanks lie inside it, and its expected letters complete it |
| Masking.CheckAnswer | proj/src/core/vocabulary-manager-v2.js:898-902 | an answer is right exactly when, upper-cased and trimmed, it equals the upper-cased expected letters |
| Masking.AnswerIgnoresCaseAndSpace | proj/src/core/vocabulary-manager-v2.js:898-902 | any letter case and surrounding white space are accepted |
| Masking.LowerCaseAnswerAccepted | proj/src/core/vocabulary-manager-v2.js:898-902 | the expected letters typed in lower case are accepted |
| Masking.AnswerLengthMatters | proj/src/core/vocabulary-manager-v2.js:898-902 | an answer of another length after trimming is rejected |
| RecentWords.AddToRecent | proj/src/core/vocabulary-manager-v2.js:820-830 | the shown word goes first, earlier copies are dropped, the rest keep their order, and the list is cut to the bound |
| RecentWords.WithoutKeepsDistinct | proj/src/core/vocabulary-manager-v2.js:821-823 | removing every copy of a word keeps a list free of repeats |
| RecentWords.AddToRecentKeepsDistinct | proj/src/core/vocabulary-manager-v2.js:820-830 | the recent list never holds a word twice |
| RecentWords.AddToRecentRemembers | proj/src/core/vocabulary-manager-v2.js:820-830 | the shown word is remembered, and other remembered words stay while there is room |
| RecentWords.AddAllKeepsDistinct | proj/src/core/vocabulary-manager-v2.js:820-830 | over any run of shown words the list stays free of repeats and within the bound |
| RecentWords.RemoveFirst | proj/old_version/vocabulary.js:301-304 | `splice` at `indexOf` removes one copy when the word is present and nothing otherwise |
| RecentWords.AddToRecentSplice | proj/old_version/vocabulary.js:299-315 | the first manager's update puts the word first and keeps the bound |
| RecentWords.RemoveFirstOfDistinct | proj/old_version/vocabulary.js:301-304 | on a list without repeats, removing the first copy removes every copy |
| RecentWords.SpliceAgreesWithFilter | proj/old_version/vocabulary.js:299-315 | on a list without repeats the first manager's update equals the later managers' update |
| RecentWords.SpliceDiffersOnRepeats | proj/old_version/vocabulary.js:301-304 | on a list with a repeated word the two updates differ |
| RecentWords.MaxRecentFor | proj/old_version/vocabulary.js:247 | the first manager's bound is at most 15 and at most the vocabulary size, and is 15 from 22 words on |
| RecentWords.TinyVocabularyForgets | proj/old_version/vocabulary.js:247 | with one word the bound is 0, so the list is always empty |
| RecentWords.WindowLeavesAWordOut | proj/old_version/vocabulary.js:247 | from two words on the bound is at least 1 and below the vocabulary size |
| LevelSelection.OfTarget | proj/src/core/vocabulary-manager-v2.js:728-730 | the filtered words are exactly the words of the target difficulty |
| LevelSelection.Candidates | proj/src/core/vocabulary-manager-v2.js:737-757 | the pick is made among unused words when there are any, and among those not recent when there are any; never from nothing |
| LevelSelection.RoundOverIff | proj/src/core/vocabulary-manager-v2.js:738-741 | no unused word is left exactly when every target word has been used |
| LevelSelection.ResetUsed | proj/src/core/vocabulary-manager-v2.js:741-747 | a new round forgets exactly the target difficulty's words and then records the pick |
| LevelSelection.SelectForLevel | proj/src/core/vocabulary-manager-v2.js:722-761 | no word without a loaded bank or a word of the target difficulty; otherwise a target word, unused and not recent when possible, with the used set and recent list updated |
| LevelSelection.PuzzleFor | proj/src/core/vocabulary-manager-v2.js:763-781 | the puzzle is well formed and completes to the word; challenge mode hides every letter, casual mode one or two |
| LevelSelection.VocabularyForLevel | proj/src/core/vocabulary-manager-v2.js:722-782 | a puzzle only for a word of the target difficulty, and always one in challenge mode when such a word exists |
| LevelSelection.TargetDifficulty | proj/old_version/vocabulary.js:203-210 | levels up to 2 use difficulty 1, from 5 on difficulty 3, and 2 between |
| LevelSelection.TargetDifficultyMonotone | proj/old_version/vocabulary.js:203-210 | a higher level never asks for easier words |
| LevelSelection.OldVocabularyForLevel | proj/old_version/vocabulary.js:196-225 | the words of the level's difficulty, or the whole bank when there are none; empty only for an empty bank |
| LevelSelection.FindWord | proj/old_version/vocabulary.js:329 | the first word with the given text, absent exactly when no word has it |
| LevelSelection.SelectLeastRecent | proj/old_version/vocabulary.js:318-331 | a word of the vocabulary, and a non-recent one whenever one exists |
| LevelSelection.FirstNotRecent | proj/old_version/vocabulary.js:254-265 | the first drawn non-recent word, absent exactly when every draw was recent |
| LevelSelection.OldPickWord | proj/old_version/vocabulary.js:249-270 | a word of the vocabulary, and a non-recent one whenever one exists |
| LevelSelection.OldMissingCount | proj/old_version/vocabulary.js:334-355 | between 1 and 4 letters, the level table plus one at the end of a level |
| LevelSelection.BankMissingCount | proj/vocabulary.js:104-125 | the end-of-level challenge adds exactly one letter |
| LevelSelection.ClampNeverBites | proj/old_version/vocabulary.js:354 | the clamp to at least one never changes the table's value |
| LevelSelection.OldRandomWord | proj/old_version/vocabulary.js:228-291 | no puzzle before loading or for an empty bank; otherwise a well-formed puzzle of a bank word that keeps a letter visible, with the recent list updated |
| LevelSelection.BankLevel | proj/vocabulary.js:78-81 | the bank key is the level for levels 1 to 3, 3 above and 1 below |
| LevelSelection.BankRandomWord | proj/vocabulary.js:84-101 | a puzzle of a word of the level's bank list that keeps a letter visible |
| MissedBook.IndexOf | proj/src/core/vocabulary-manager-v2.js:841 | the position of the word's entry, absent exactly when no entry has that word |
| MissedBook.AddMissed | proj/src/core/vocabulary-manager-v2.js:837-860 | a new word is appended with count 1 and the give-up or failure counter set, and a level of 1 when none or zero is given |
| MissedBook.AddMissedInvariant | proj/src/core/vocabulary-manager-v2.js:837-860 | the book keeps one entry per word, each count equal to give-ups plus failures, and the missed word is in it afterwards |
| MissedBook.AddMissedRepeat | proj/src/core/vocabulary-manager-v2.js:841-848 | a repeated miss adds one to that word's count and to the matching counter and changes no other entry |
| MissedBook.TotalMissesUpdate | proj/src/core/vocabulary-manager-v2.js:843-848 | replacing one entry changes the total by the difference of the counts |
| MissedBook.AddMissedCountsOne | proj/src/core/vocabulary-manager-v2.js:837-860 | every call records exactly one more miss |
| MissedBook.StatsV2 | proj/src/core/vocabulary-manager-v2.js:872-878 | the vocabulary size (0 when unset), the number of missed words and the book itself |
| MissedBook.StatsReview | proj/vocabulary.js:196-201 | there `totalWords` is the number of missed words |
| MissedBook.ClearBook | proj/src/core/vocabulary-manager-v2.js:866-870 | the old book is handed back and the book becomes empty |
| MissedBook.ReviewWord | proj/vocabulary.js:211-247 | no puzzle from an empty book; otherwise a puzzle of the given or drawn word hiding one or two distinct letters that completes to the word |
| Collection.Find | proj/src/core/vocabulary-manager-v2.js:308 | the record stored under a word, absent exactly when the word was not collected |
| Collection.AddWord | proj/src/core/vocabulary-manager-v2.js:520-543 | a word already collected (lower-cased) is logged as a duplicate and skipped; any other is appended lower-cased with its library and lesson |
| Collection.AddAllIsKeepFirst | proj/src/core/vocabulary-manager-v2.js:502-543 | the collection loop is keep-first de-duplication by lower-cased word |
| Collection.AddAllAccountsForEveryWord | proj/src/core/vocabulary-manager-v2.js:520-543 | every word seen is either collected or logged as a duplicate |
| Collection.AddAllNamesKeepers | proj/src/core/vocabulary-manager-v2.js:523-528 | each duplicate record names the library and lesson of the word that was kept |
| Collection.AddAllAppend | proj/src/core/vocabulary-manager-v2.js:502-517 | processing two runs of words one after the other is processing their concatenation |
| Collection.ProcessAllWords | proj/vocabulary-manager-v2.js:171-195 | the vocabulary holds each lower-cased word once, first occurrence first, and every other word is a named duplicate |
| Collection.RecordsKeepKeys | proj/src/core/vocabulary-manager-v2.js:532-541 | turning tagged words into records keeps their words |
| Collection.LibraryByLibraryIsOnePass | proj/src/core/vocabulary-manager-v2.js:307-324 | loading the libraries one by one gives the same vocabulary as one pass over all of them |
| Collection.ProcessLibrariesIsAddAll | proj/src/core/vocabulary-manager-v2.js:307-324 | library-by-library processing is the collection loop over all their words |
| Collection.Bucket | proj/src/core/vocabulary-manager-v2.js:423-432 | a difficulty's list holds exactly the words of that difficulty, 1 for none |
| Collection.GroupingIsBuckets | proj/src/core/vocabulary-manager-v2.js:423-432 | there is one non-empty list per difficulty that occurs, holding that difficulty's words in order |
| Collection.BucketEmpty | proj/src/core/vocabulary-manager-v2.js:423-432 | a difficulty no word has gets an empty list |
| Collection.EachWordInOneBucket | proj/src/core/vocabulary-manager-v2.js:423-432 | every word is in the list of its difficulty and in no other |
| Collection.WordsUntilBad | proj/src/core/vocabulary-manager-v2.js:392-393 | the words of a card's array up to the first item without a string word |
| Collection.NonEmptyTrimmed | proj/src/core/vocabulary-manager-v2.js:383 | the comma-separated fallback keeps no empty word |
| Collection.SelectedCards | proj/src/core/vocabulary-manager-v2.js:359-361 | exactly the cards whose name was selected |
| Collection.MergeMissed | proj/src/core/vocabulary-manager-v2.js:329-418 | the vocabulary only grows, by new words at difficulty 2; every selected card word ends up present, and words stay unique ignoring case |
| Collection.MergeFacts | proj/src/core/vocabulary-manager-v2.js:371-407 | the merge is keep-first de-duplication of the card words against the vocabulary |
| Collection.NothingSelected | proj/src/core/vocabulary-manager-v2.js:343-346 | with no card selected nothing is added |
| Collection.LibraryWordsAreLowerCase | proj/src/core/vocabulary-manager-v2.js:521 | library words are stored lower-cased, so the merge's case-blind key is their word |
| Collection.UpdateConfig | proj/src/core/vocabulary-manager-v2.js:573-594 | given values override, and a reload happens exactly when the library list changed |
| Collection.OldProcessWordsData | proj/old_version/vocabulary.js:38-102 | no words without lessons, and never two with the same word |
| Collection.OldAndNewAgree | proj/old_version/vocabulary.js:38-102 | the first manager keeps the same words in the same order as the later collection loop |
| Collection.RelabelKeepsKeys | proj/old_version/vocabulary.js:49-86 | the library name does not change which words are kept |
| Collection.RelabelEntries | proj/src/core/vocabulary-manager-v2.js:502-510 | relabelling a library changes the tags but not the words |
| Collection.KeepFirstRelabel | proj/old_version/vocabulary.js:55-68 | keep-first de-duplication keeps the same words whatever the tags |
| Collection.TierCount | proj/old_version/vocabulary.js:106-112 | a tier count never exceeds the number of words |
| Collection.TierWarnings | proj/old_version/vocabulary.js:105-125 | a warning for exactly those of tiers 1, 2 and 3 with fewer than 10 words |
| Collection.DistributionWarnings | proj/src/core/vocabulary-manager-v2.js:546-559 | a warning for exactly those difficulties that some word has (a missing or zero one counting as 1) and that fewer than 10 words have; a difficulty no word has is never reported |
| WordPool.SwapKeepsWords | proj/src/core/vocabulary-manager-v2.js:485 | a swap keeps the same words |
| WordPool.ShuffleDownKeepsWords | proj/src/core/vocabulary-manager-v2.js:482-487 | the Fisher-Yates loop keeps every word as often as it occurs |
| WordPool.Shuffle | proj/src/core/vocabulary-manager-v2.js:482-487 | the shuffled pool is a permutation of the vocabulary |
| WordPool.IdentityDrawsKeepOrder | proj/src/core/vocabulary-manager-v2.js:482-487 | with every draw equal to its own position the order is unchanged |
| WordPool.InitializePool | proj/src/core/vocabulary-manager-v2.js:469-479 | the pool is a permutation of the vocabulary, nothing is used and the level counter is 0 |
| WordPool.OnLevelUp | proj/src/core/vocabulary-manager-v2.js:496-499 | only the per-level counter restarts; the pool and the used words are kept |
| WordPool.TakeFront | proj/src/core/vocabulary-manager-v2.js:691-698 | the front word leaves the pool and is recorded as used and recent, and the counter goes up |
| WordPool.GetRandomWordFromAll | proj/src/core/vocabulary-manager-v2.js:679-720 | no word and no change before loading or from an empty pool; otherwise the front word as a puzzle that completes to it |
| WordPool.Deal | proj/src/core/vocabulary-manager-v2.js:691 | `n` deals give `n` words |
| WordPool.DealIsPoolOrder | proj/src/core/vocabulary-manager-v2.js:691 | the deals follow the pool's order |
| WordPool.ShuffleDownWords | proj/src/core/vocabulary-manager-v2.js:482-487 | shuffling records and reading their words is shuffling the words |
| WordPool.GameDealsEveryWordOnce | proj/src/core/vocabulary-manager-v2.js:469-487 | one game deals each vocabulary word exactly as often as it occurs, before the pool runs out |
| Syllables.FirstFrom | proj/src/core/vocabulary-manager-v2.js:1070-1074 | the first position from `i` on with the property, absent exactly when there is none |
| Syllables.LastBefore | proj/src/core/vocabulary-manager-v2.js:1077-1081 | the last position before `i` with the property, absent exactly when there is none |
| Syllables.NearestVowel | proj/src/core/vocabulary-manager-v2.js:1066-1084 | -1 exactly when the word has no vowel; otherwise the first vowel from the start, or failing that the last one before it |
| Syllables.RunEnd | proj/src/core/vocabulary-manager-v2.js:1031-1033 | the end of the vowel run: vowels up to it and a consonant or the word's end after it |
| Syllables.SyllableStart | proj/src/core/vocabulary-manager-v2.js:1000-1025 | the syllable starts after the previous vowel, at the word start when there is none, with only consonants before the vowel |
| Syllables.SyllableEnd | proj/src/core/vocabulary-manager-v2.js:1027-1053 | the syllable ends at its vowel run when another vowel follows, else at the word's end |
| Syllables.WholeSyllable | proj/src/core/vocabulary-manager-v2.js:986-1061 | consecutive positions inside the word that contain the given vowel; the whole word when it has no vowel |
| Syllables.SyllableShape | proj/src/core/vocabulary-manager-v2.js:1000-1053 | before the vowel a syllable holds only consonants, and it holds the vowel's whole run |
| Syllables.SyllablesDoNotOverlap | proj/src/core/vocabulary-manager-v2.js:1000-1053 | two vowels with a consonant between them get disjoint syllables, the first before the second |
| Syllables.Positions | proj/src/core/vocabulary-manager-v2.js:924-931 | exactly the positions with the property, ascending |
| Syllables.MarksToProcess | proj/src/core/vocabulary-manager-v2.js:944-946 | the primary stress marks when there are any, otherwise every stress mark; none exactly when the transcription has none |
| Syllables.VowelRuns | proj/src/core/vocabulary-manager-v2.js:951 | the number of maximal runs of phonetic vowels is at most the length |
| Syllables.VowelRunsMonotone | proj/src/core/vocabulary-manager-v2.js:950-951 | a longer prefix never has fewer vowel runs |
| Syllables.VowelCountMonotone | proj/src/core/vocabulary-manager-v2.js:954-968 | a longer prefix never has fewer vowels, and strictly more past a vowel |
| Syllables.NthVowel | proj/src/core/vocabulary-manager-v2.js:954-969 | the vowel with exactly `n` vowels before it, absent exactly when the word has no more than `n` vowels |
| Syllables.LaterMarkLaterVowel | proj/src/core/vocabulary-manager-v2.js:948-969 | a later stress mark never lands on an earlier vowel |
| Syllables.AddNew | proj/src/core/vocabulary-manager-v2.js:960-964 | appending only unseen positions keeps them unique and gives the union |
| Syllables.Collect | proj/src/core/vocabulary-manager-v2.js:948-970 | the unique positions of every processed mark's syllable |
| Syllables.StressPositions | proj/src/core/vocabulary-manager-v2.js:910-978 | nothing without a word, a transcription or a stress mark; otherwise, ascending, exactly the letters of the stressed syllables |
| Syllables.CollectedMembers | proj/src/core/vocabulary-manager-v2.js:977 | sorting keeps exactly the collected positions |
| Syllables.BananaStress | proj/src/core/vocabulary-manager-v2.js:907 | "banana" transcribed with its stress before the second vowel group stresses "na" |
| TetrisGame.StartBufferCountdown | proj/src/core/WordTetrisGame.js:1242-1247 | only an idle buffer starts counting, from frame 0 with every light off |
| TetrisGame.UpdateBufferCountdown | proj/src/core/WordTetrisGame.js:1261-1287 | a frame counts only during a countdown, and releases exactly on frame 240 with a word waiting, leaving the buffer idle |
| TetrisGame.CountdownSchedule | proj/src/core/WordTetrisGame.js:1264-1280 | for the first 240 frames the buffer counts the frames and shows red from 60, yellow from 120 and green from 180 |
| TetrisGame.OneLightAfterRed | proj/src/core/WordTetrisGame.js:1266-1280 | from the first light on exactly one light is lit |
| TetrisGame.ReleaseOnFrame240 | proj/src/core/WordTetrisGame.js:1281-1283 | the word is released on frame 240 and on no earlier frame |
| TetrisGame.NoWordNoRelease | proj/src/core/WordTetrisGame.js:1289-1293 | with no word waiting the countdown never ends |
| TetrisGame.CalculateScore | proj/src/core/WordTetrisGame.js:999-1016 | one point per missing letter, times one and a half rounded down within 2000 ms of release (a missing release time counts as now), plus one from a combo of 3 |
| TetrisGame.ScoreBonuses | proj/src/core/WordTetrisGame.js:1003-1013 | a fast hit never scores less than a slow one, and a combo of 3 adds exactly one point |
| TetrisGame.NewGame | proj/src/core/WordTetrisGame.js:4-134 | the new game is stopped, empty and satisfies the game invariant |
| TetrisGame.ResetGame | proj/src/core/WordTetrisGame.js:834-915 | score, level, falling words and stack, the book, the hit and fallen sets and the give-up, failure and perfect-level counters are cleared and the invariant kept; the spawn interval and combo are not reset |
| TetrisGame.AddToStack | proj/src/core/WordTetrisGame.js:1444-1487 | a word without a spelling changes nothing; any other is appended to the stack, and only the stack and the book change |
| TetrisGame.AddToStackKeepsLayout | proj/src/core/WordTetrisGame.js:1460-1475 | the word takes row `n / 5`, column `n % 5`, and the book records exactly one more miss, keeping one entry per word |
| TetrisGame.ReleaseWord | proj/src/core/WordTetrisGame.js:1289-1321 | the waiting word starts falling at the release time and counts as fallen |
| TetrisGame.ReleaseKeepsInv | proj/src/core/WordTetrisGame.js:1289-1321 | releasing a word keeps the game invariant |
| TetrisGame.LevelUpAsWritten | proj/src/core/WordTetrisGame.js:1018-1066 | the level goes up with target `100 * level`, the spawn interval drops by 10 down to 120, the stack empties and the perfect bonus of 20 is added |
| TetrisGame.RecordAll | proj/src/core/WordTetrisGame.js:1028-1030 | recording the stack adds one miss per stacked word |
| TetrisGame.LevelUpCountsStackTwice | proj/src/core/WordTetrisGame.js:1028-1030 | with a non-empty stack the book then holds more misses than there were give-ups and failures |
| TetrisGame.LevelUp | proj/src/core/WordTetrisGame.js:1018-1066 | the level-up of the as-written version, with the book left as `addToStack` made it |
| TetrisGame.SpawnRateFloor | proj/src/core/WordTetrisGame.js:1047 | after `k` level-ups the spawn interval is the start minus `10 k`, but not below 120 |
| TetrisGame.FirstMatch | proj/src/core/WordTetrisGame.js:957-964 | the first falling word the answer hits, absent exactly when it hits none |
| TetrisGame.SubmitAnswer | proj/src/core/WordTetrisGame.js:949-997 | outside play or with a blank input nothing changes; a miss loses the combo and perfect flag; a hit removes exactly the first accepted word, counts it as hit and scores it; below the target the combo grows and the level stays, at the target the level rises, the stack empties and the perfect bonus of 20 is added, with the corrected `TetrisGame.LevelUp` (see Findings) |
| TetrisGame.GiveUpCurrentWord | proj/src/core/WordTetrisGame.js:1830-1887 | the oldest falling word goes onto the stack as given up, costing a point (never below 0) and the combo |
| TetrisGame.WordReachesStack | proj/src/core/WordTetrisGame.js:1395-1420 | the word that touched the stack leaves the falling words and joins the stack as failed; combo and perfect flag are lost |
| TetrisGame.LevelUpKeepsInv | proj/src/core/WordTetrisGame.js:1018-1066 | levelling up keeps the game invariant |
| TetrisGame.SubmitKeepsInv | proj/src/core/WordTetrisGame.js:949-997 | answering keeps the game invariant |
| TetrisGame.GiveUpKeepsInv | proj/src/core/WordTetrisGame.js:1830-1887 | giving up keeps the game invariant |
| TetrisGame.WordReachesStackKeepsInv | proj/src/core/WordTetrisGame.js:1386-1426 | a failed word keeps the game invariant |
| TetrisGame.StackTopY | proj/src/core/WordTetrisGame.js:1429-1442 | the canvas bottom for an empty stack, else 52 pixels higher per full row above a first word of height 50 |
| TetrisGame.StackTopMonotone | proj/src/core/WordTetrisGame.js:1429-1442 | a taller stack never has a lower top edge |
| TetrisGame.GameOverStays | proj/src/core/WordTetrisGame.js:1489-1500 | once the stack has reached the top, more stacked words keep the game over |
| TetrisGame.NewRowEveryFiveWords | proj/src/core/WordTetrisGame.js:1436-1439 | every five words start a row 52 pixels higher, and a row's words share its top |
| TetrisGame.UpdateExamStats | proj/src/core/WordTetrisGame.js:135-165 | the remaining count is the words not yet fallen, never negative; the percentages are 0 when their divisor is 0 |
| TetrisGame.HitPercentageIsCorrectRate | proj/src/core/WordTetrisGame.js:144 | in a reachable game the hit percentage is the exam's correct rate over hit and fallen words, and at most 100 |
| TetrisGame.GameComplete | proj/src/core/WordTetrisGame.js:1103-1160 | the game completes exactly when loaded, the pool is empty, nothing waits or falls, the buffer is idle and it has not completed before |
| TetrisGame.Find | proj/src/core/WordTetrisGame.js:2165 | the entry of a key in the card map, absent exactly when no entry has it |
| TetrisGame.PutGet | proj/src/core/WordTetrisGame.js:2158 | after setting a key it maps to the new word and every other key is unchanged |
| TetrisGame.FindSameKeys | proj/src/core/WordTetrisGame.js:2165 | maps with the same keys in the same order find a key at the same position |
| TetrisGame.FindUnique | proj/src/core/WordTetrisGame.js:2165 | in a map without repeated keys a key is found at its one position |
| TetrisGame.AddBookWordStep | proj/src/core/WordTetrisGame.js:2163-2179 | one book word changes only its own key: a repeat adds one to the error count (a missing count counts as 1), a new spelling starts at 1 |
| TetrisGame.AddBookWordsCounts | proj/src/core/WordTetrisGame.js:2163-2179 | after the whole book a key's error count has grown by the number of book words with that spelling |
| TetrisGame.SeedMapKeys | proj/src/core/WordTetrisGame.js:2156-2160 | the card's existing words with a spelling go in under their lower-cased spelling, and no other key appears |
| TetrisGame.Values | proj/src/core/WordTetrisGame.js:2182 | the merged words are the map's values in insertion order |
| TetrisGame.MergeMissedWordsCounts | proj/src/core/WordTetrisGame.js:2152-2182 | no two merged words share a spelling up to case, and a spelling new to the card appears exactly when missed, counted once per miss |
| LegacyGame.UpdateBufferCountdown | proj/game.js:325-340 | a frame counts only during a countdown, and releases exactly on frame 180 with a word waiting, leaving the buffer idle |
| LegacyGame.CountdownSchedule | proj/game.js:328-335 | for the first 180 frames the buffer counts the frames and the lights come on at 60, 120 and 180 |
| LegacyGame.LightsAccumulate | proj/game.js:330-335 | lit lights stay lit: none before frame 60, then one, two and three |
| LegacyGame.ReleaseOnFrame180 | proj/game.js:334-336 | the word is released on frame 180 and no earlier, 60 frames before the later generation |
| LegacyGame.NoWordNoRelease | proj/game.js:342-343 | with no word waiting the countdown keeps counting and never ends |
| LegacyGame.NewGame | proj/game.js:3-48 | the new game is stopped, empty and satisfies the invariant that the book holds exactly the stack's misses |
| LegacyGame.AddMissedKeepsWords | proj/vocabulary.js:159-181 | recording a miss never loses a word, and a repeated word adds no entry |
| LegacyGame.AddToStack | proj/game.js:414-427 | the miss goes into the book and the word takes row `n / 5`, column `n % 5`; nothing else changes |
| LegacyGame.AddToStackKeepsInv | proj/game.js:414-427 | stacking a word keeps the invariant |
| LegacyGame.RecordAllKeepsSize | proj/game.js:273-275 | recording again words already in the book adds no entry |
| LegacyGame.LevelUp | proj/game.js:265-305 | the level goes up with target `100 * level`, the spawn interval drops by 10 down to 120, the stack and the book are emptied and the perfect bonus of 20 is added |
| LegacyGame.LevelUpKeepsInv | proj/game.js:265-305 | levelling up keeps the invariant, and the count shown is the number of different words missed during the level |
| LegacyGame.AutoShoot | proj/game.js:808-845 | a word still falling is shot: scored, counted as hit, the combo and best combo updated, levelling up at the target |
| LegacyGame.SubmitAnswer | proj/game.js:205-244 | outside play or with a blank input nothing changes; a miss loses the combo and perfect flag; a hit scores without counting a hit |
| LegacyGame.GiveUpCurrentWord | proj/game.js:847-878 | the oldest falling word goes onto the stack as given up, costing a point (never below 0) and the combo |
| LegacyGame.WordReachesBottom | proj/game.js:392-412 | the word that reached the bottom joins the stack as failed; combo and perfect flag are lost |
| LegacyGame.AutoShootKeepsInv | proj/game.js:808-845 | the automatic shot keeps the invariant |
| LegacyGame.SubmitKeepsInv | proj/game.js:205-244 | answering keeps the invariant |
| LegacyGame.GiveUpKeepsInv | proj/game.js:847-878 | giving up keeps the invariant |
| LegacyGame.WordReachesBottomKeepsInv | proj/game.js:392-412 | a failed word keeps the invariant |
| LegacyGame.GameOverThreshold | proj/game.js:429-439 | the game ends exactly when the stack reaches into the last row that fits, and at once when none fits |
| LegacyGame.GameOverStays | proj/game.js:429-439 | more stacked words never undo a game over |
| MissedStore.Find | proj/src/utils/MissedWordsManager.js:149 | the position of a key, absent exactly when the store lacks it |
| MissedStore.TotalCountUpdate | proj/src/utils/MissedWordsManager.js:150 | replacing one record changes the total count by the difference of the counts |
| MissedStore.TotalCountAppend | proj/src/utils/MissedWordsManager.js:156-163 | appending a record adds its count |
| MissedStore.GenerateKey | proj/src/utils/MissedWordsManager.js:120-122 | the key is the lower-cased spelling, of the same length |
| MissedStore.GenerateKeyIdempotent | proj/src/utils/MissedWordsManager.js:120-122 | a key is its own key |
| MissedStore.SaveMissedWord | proj/src/utils/MissedWordsManager.js:127-177 | a known key counts one more miss, moves its update time to now and gains a creation time if it had none, nothing else changing; a new key is appended with count 1 |
| MissedStore.SaveMissedWordCountsOne | proj/src/utils/MissedWordsManager.js:127-177 | a save keeps keys unique and records exactly one more miss |
| MissedStore.SavedKeysCons | proj/src/utils/MissedWordsManager.js:185-188 | the keys a list of saves writes are the first word's key and the rest's |
| MissedStore.SaveMissedWordsCounts | proj/src/utils/MissedWordsManager.js:182-196 | saving a list reports every save, records one miss per word and adds exactly the words' keys |
| MissedStore.FindSep | proj/src/utils/MissedWordsManager.js:213 | the first position of a double colon, absent exactly when there is none |
| MissedStore.NoColonNoSep | proj/src/utils/MissedWordsManager.js:213 | text without a colon holds no double colon |
| MissedStore.NormalizeKeyOfSavedKeys | proj/src/utils/MissedWordsManager.js:246-252 | a key the store writes reads back as itself, and an old address-prefixed key as its word's key |
| MissedStore.MergeEntry | proj/src/utils/MissedWordsManager.js:254-272 | a record joins the list under its normalised key: a repeat adds its count (one when missing) and keeps the size, a new key adds one record |
| MissedStore.NormalizedKeysCons | proj/src/utils/MissedWordsManager.js:246-252 | the normalised keys of a store are the first record's and the rest's |
| MissedStore.MergeFromFacts | proj/src/utils/MissedWordsManager.js:246-273 | folding the records gives one record per normalised key and adds every count, a missing one as one |
| MissedStore.NewerFirstIsTotal | proj/src/utils/MissedWordsManager.js:276 | ordering by latest update is total |
| MissedStore.GetMissedWords | proj/src/utils/MissedWordsManager.js:237-283 | a permutation of the merged records, latest update first |
| MissedStore.GetMissedWordsAgrees | proj/src/utils/MissedWordsManager.js:201-283 | the list holds one record per different normalised key, as many as the count reports, and its counts add up to the stored ones |
| MissedStore.WellKeyedKeysSize | proj/src/utils/MissedWordsManager.js:244 | a list with unique keys has as many records as keys |
| CertStorage.NewLevelData | proj/src/utils/CertificationStorage.js:132-141 | a fresh exam record: not passed, no score or attempts, no times |
| CertStorage.FreshLevels | proj/src/utils/CertificationStorage.js:15-127 | one fresh record for each listed level and no other key |
| CertStorage.FreshGroup | proj/src/utils/CertificationStorage.js:15-127 | a group with an unearned badge, a fresh final exam and fresh levels |
| CertStorage.DefaultProgress | proj/src/utils/CertificationStorage.js:15-127 | only phonics is unlocked; every series, grade, book and stage has its levels, and no badge is earned |
| CertStorage.FieldOr | proj/src/utils/CertificationStorage.js:192 | `target[key] \|\| {}` is always truthy |
| CertStorage.DeepMerge | proj/src/utils/CertificationStorage.js:184-200 | a falsy source leaves the target; otherwise the result is an object, and a non-object source only copies the target |
| CertStorage.MergeFieldsMembers | proj/src/utils/CertificationStorage.js:189-197 | the merge loop keeps the keys of the accumulator and the source, leaves other keys alone, and sets each source key from its last occurrence |
| CertStorage.LastKeyIsNotLater | proj/src/utils/CertificationStorage.js:189 | the last occurrence of a key has no later one |
| CertStorage.DeepMergeMembers | proj/src/utils/CertificationStorage.js:184-200 | the merged keys are the target's and the source's; keys only in the target keep their values, source keys take the merged value |
| CertStorage.MergeKeepsDefaultKeys | proj/src/utils/CertificationStorage.js:176-179 | merging a saved record over the defaults keeps every default key |
| CertStorage.MergeOverrides | proj/src/utils/CertificationStorage.js:191-195 | a key absent from the saved record keeps its default, and a saved non-object value replaces it |
| CertStorage.MergeEmpty | proj/src/utils/CertificationStorage.js:184-200 | merging an empty saved object gives back the defaults |
| CertStorage.Load | proj/src/utils/CertificationStorage.js:146-158 | with nothing saved, or an unreadable record, the defaults; otherwise an object that keeps every default key |
| CertStorage.RemainingCooldown | proj/src/utils/CertificationStorage.js:213-217 | positive exactly during a cooldown, and then the remaining milliseconds rounded up to seconds |
| CertStorage.FormatCooldownTime | proj/src/utils/CertificationStorage.js:222-228 | empty exactly outside a cooldown; otherwise minutes and two-digit seconds that add up to the remaining seconds |
| CertStorage.SetCooldown | proj/src/utils/CertificationStorage.js:233-235 | only the cooldown changes, which then lasts exactly thirty minutes from now |
| CertStorage.FreshCooldownShowsThirtyMinutes | proj/src/utils/CertificationStorage.js:222-235 | a cooldown just set shows "30:00" |
| CertStorage.ClearCooldown | proj/src/utils/CertificationStorage.js:240-242 | only the cooldown changes, and no time is then in a cooldown |
| CertStorage.Ids | proj/src/utils/CertificationStorage.js:255-309 | the ids of the badge list, in order |
| CertStorage.EarnedIn | proj/src/utils/CertificationStorage.js:255-309 | exactly the earned badges among the given ids, in their order |
| CertStorage.EarnedInAppend | proj/src/utils/CertificationStorage.js:255-309 | the earned badges of two id lists one after the other are those of their concatenation |
| CertStorage.GradeBadges | proj/src/utils/CertificationStorage.js:264-273 | a grade badge is the primary-school group's badge |
| CertStorage.BookBadges | proj/src/utils/CertificationStorage.js:276-290 | a book badge is the reading group's badge |
| CertStorage.AcademicBadges | proj/src/utils/CertificationStorage.js:293-306 | an academic badge is the stage group's badge |
| CertStorage.BranchBadges | proj/src/utils/CertificationStorage.js:264-306 | the earned badges of a series carry their group's earning time |
| CertStorage.BranchBadgesIds | proj/src/utils/CertificationStorage.js:264-306 | a series lists exactly its earned badges, in order |
| CertStorage.EarnedBadges | proj/src/utils/CertificationStorage.js:255-309 | every listed badge exists and carries its earning time |
| CertStorage.BadgeOrderSplit | proj/src/utils/CertificationStorage.js:255-309 | the badge order is phonics, then grades, books and stages |
| CertStorage.EarnedBadgesSplit | proj/src/utils/CertificationStorage.js:255-309 | the list is the phonics badge, then the grade, book and stage badges |
| CertStorage.SeriesIds | proj/src/utils/CertificationStorage.js:255-309 | each part lists exactly its earned badges |
| CertStorage.PhonicsIds | proj/src/utils/CertificationStorage.js:259-261 | the phonics part lists the phonics badge exactly when earned |
| CertStorage.GradeIds | proj/src/utils/CertificationStorage.js:264-273 | the grade part lists exactly the earned grades, in order |
| CertStorage.BookIds | proj/src/utils/CertificationStorage.js:276-290 | the book part lists exactly the earned books, in order |
| CertStorage.AcademicIds | proj/src/utils/CertificationStorage.js:293-306 | the stage part lists exactly the earned stages, in order |
| CertStorage.EarnedBadgesInOrder | proj/src/utils/CertificationStorage.js:255-309 | the list holds exactly the earned badges, in the fixed badge order |
| CertStorage.IdsAppend | proj/src/utils/CertificationStorage.js:255-309 | the ids of two lists one after the other are their ids concatenated |
| CertSystem.IndexOf | proj/src/systems/CertificationSystem.js:232 | `indexOf`: -1 exactly when absent, otherwise the first position holding the value |
| CertSystem.WithBranch | proj/src/systems/CertificationSystem.js:375-418 | replacing one series' branch leaves the other branches and the phonics record alone |
| CertSystem.WriteSlot | proj/src/systems/CertificationSystem.js:519-544 | writing one level's record changes that record only: no other record, badge or unlock flag |
| CertSystem.GetLevelData | proj/src/systems/CertificationSystem.js:375-418 | a record is found exactly when the level names a slot that exists; a phonics final exam is the phonics final record; an unknown series, or a book or stage level without a minor level, has none |
| CertSystem.PhonicsChain | proj/src/systems/CertificationSystem.js:226-238 | the first phonics level is open, and each later one opens exactly when the one before it is passed |
| CertSystem.PrimaryNeedsPhonicsBadge | proj/src/systems/CertificationSystem.js:241-265 | no grade is open without the phonics badge; with it, a second term opens exactly when the first term is passed |
| CertSystem.BranchesNeedGradeSix | proj/src/systems/CertificationSystem.js:268-346 | no book and no academic stage is open without the sixth-grade badge |
| CertSystem.FinalExamUnlock | proj/src/systems/CertificationSystem.js:226-346 | the phonics and grade final exams open exactly when every sub-level is passed; a book or stage final exam never opens before that |
| CertSystem.DefaultUnlocks | proj/src/systems/CertificationSystem.js:224-346 | on a fresh record exactly the first phonics level is open |
| CertSystem.NothingPassedAtFirst | proj/src/systems/CertificationSystem.js:224-346 | a fresh record has no passed level |
| CertSystem.CanStartExam | proj/src/systems/CertificationSystem.js:351-367 | locked exactly when the level is not open; no data exactly when open without a record; cooling down exactly when the record is in its cooldown, with the non-empty remaining time; otherwise allowed |
| CertSystem.UpdateLevel | proj/src/systems/CertificationSystem.js:517-544 | one more attempt at `now`; passed once at or above 90; the best score is the maximum; a pass clears the cooldown and may only lower the best time, a fail sets a thirty-minute cooldown and keeps the best time |
| CertSystem.AwardBadge | proj/src/systems/CertificationSystem.js:571-629 | awarding a badge never changes a level record |
| CertSystem.SubmitExamResult | proj/src/systems/CertificationSystem.js:511-563 | without a record nothing changes; otherwise the result reports pass, score, best score and cooldown, the record becomes the updated one, and a badge only comes with a passed final exam |
| CertSystem.SubmitFrame | proj/src/systems/CertificationSystem.js:511-563 | a submission leaves every other level's record as it was |
| CertSystem.BadgeOnlyFromFinalExam | proj/src/systems/CertificationSystem.js:571-575 | a submission to an ordinary level earns no badge and changes no badge or unlock flag |
| CertSystem.BadgeAwardedOnce | proj/src/systems/CertificationSystem.js:571-629 | a badge is reported only when it was not held before, and it is then held from `now` |
| CertSystem.PassingFinalEarnsBadge | proj/src/systems/CertificationSystem.js:571-629 | passing a final exam whose badge is not held earns it; phonics opens the grades and grade six opens books and stages |
| CertSystem.AwardAdvances | proj/src/systems/CertificationSystem.js:571-629 | awarding keeps every passed level and held badge and never closes a series |
| CertSystem.SubmitAdvances | proj/src/systems/CertificationSystem.js:511-563 | a submission keeps every pass and held badge, never lowers a score, and never closes a series |
| CertSystem.UnlockMonotone | proj/src/systems/CertificationSystem.js:224-346 | a level open on a record stays open on any record that has moved forward |
| CertSystem.BranchUnlockMonotone | proj/src/systems/CertificationSystem.js:276-329 | the previous-badge condition of books and stages survives moving forward |
| CertSystem.SubmitNeverLocks | proj/src/systems/CertificationSystem.js:511-563 | no submission closes a level that was open |
| CertSystem.UpdateKeepsConsistent | proj/src/systems/CertificationSystem.js:517-544 | a record with a score of 90 or a best time only when passed keeps that property |
| CertSystem.SubmitKeepsConsistent | proj/src/systems/CertificationSystem.js:511-563 | submitting keeps every record consistent |
| CertSystem.DefaultConsistent | proj/src/systems/CertificationSystem.js:224-346 | every fresh record is consistent |
| CertSystem.FreshRecord | proj/src/utils/CertificationStorage.js:15-141 | every record of a fresh progress is a new level record |
| CertSystem.StarMeansPassed | proj/src/systems/CertificationSystem.js:464-510 | on consistent records a star means every sub-level and the final exam are passed |
| CertSystem.GetExamInfo | proj/src/systems/CertificationSystem.js:177-202 | an entry used is always a configured one; phonics uses its level or the final exam; a configured book or stage never falls back to the placeholder |
| CertSystem.GroupEntry | proj/src/systems/CertificationSystem.js:194-199 | a book or stage uses the level's entry, else its final-exam entry, and has one whenever the final exam is configured |
| CertPage.FormatDuration | proj/src/ui/CertificationPage.js:935-940 | empty exactly without a duration; ends in `s` and shows minutes exactly from sixty seconds on |
| CertPage.NoLetterInNumber | proj/src/ui/CertificationPage.js:935-940 | a decimal number holds no unit letter |
| CertPage.DurationRoundTrip | proj/src/ui/CertificationPage.js:935-940 | a rendered duration reads back as the same number of seconds |
| CertPage.ShownTooltip | proj/src/ui/CertificationPage.js:904-929 | locked before anything else, then the cooldown text, then a passed record's best score and time, a failed record's best score, or an invitation to start; the time shown reads back as the best duration |
| CertPage.PhonicsNodeAgrees | proj/src/ui/CertificationPage.js:373-382 | the tree draws a phonics level open exactly when the exam rules open it |
| CertPage.TermNodeAgrees | proj/src/ui/CertificationPage.js:466-477 | with the phonics badge held, the tree draws a term open exactly when the exam rules open it |
| CertPage.CountPassed | proj/src/ui/CertificationPage.js:1037-1044 | at most one per listed level |
| CertPage.TermsPassed | proj/src/ui/CertificationPage.js:1047-1050 | at most the two terms of a grade |
| CertPage.GradeTermsPassed | proj/src/ui/CertificationPage.js:1047-1050 | at most two per grade |
| CertPage.UpdateStats | proj/src/ui/CertificationPage.js:1027-1063 | the badge count is the number of earned badges, and the passed count is bounded by the phonics levels and two terms per grade |
| CertPage.CountPassedIsSetSize | proj/src/ui/CertificationPage.js:1037-1044 | the passed count is the number of distinct passed levels |
| CertPage.GradeCountsAgree | proj/src/ui/CertificationPage.js:1047-1060 | records that agree on every grade term show the same term counts and attempts |
| CertPage.SameLevels | proj/src/ui/CertificationPage.js:1037-1044 | records that agree on every phonics level have the same phonics levels |
| CertPage.OtherExamsNotCounted | proj/src/ui/CertificationPage.js:1027-1063 | a book, stage or final exam submission changes neither the passed count nor the attempt count |
| CertPage.CountPassedUpdate | proj/src/ui/CertificationPage.js:1037-1044 | replacing one counted record changes the counts by exactly its difference |
| CertPage.CountPassedOther | proj/src/ui/CertificationPage.js:1037-1044 | a record not listed does not count |
| CertPage.PhonicsPassCountsOne | proj/src/ui/CertificationPage.js:1027-1063 | a phonics submission adds one attempt, and a first pass adds one passed level |
| ExamFiles.MinorText | proj/src/systems/ExamIntegration.js:389 | a present minor level is spliced in as it is |
| ExamFiles.RemoveFirst | proj/src/systems/ExamIntegration.js:375 | `replace` with a string pattern removes at most one copy |
| ExamFiles.RemoveFirstAbsent | proj/src/systems/ExamIntegration.js:375 | a string without the pattern is left alone |
| ExamFiles.RemoveFirstPresent | proj/src/systems/ExamIntegration.js:375 | a string with the pattern loses exactly one copy |
| ExamFiles.GradeNumberOfGrade | proj/src/systems/ExamIntegration.js:375 | `grade` followed by a number names that number |
| ExamFiles.Units | proj/src/systems/ExamIntegration.js:380-390 | the unit files 1 to n of one term, in unit order |
| ExamFiles.GradeExamFiles | proj/src/systems/ExamIntegration.js:370-395 | a final exam covers units 1-6 of both terms in order; a term exam covers its own term's units |
| ExamFiles.GradeExamFileCounts | proj/src/systems/ExamIntegration.js:377-390 | twelve files for a final exam, four for the second term of grade 6, six for any other term |
| ExamFiles.GradePathInjective | proj/src/systems/ExamIntegration.js:381-389 | two unit paths of one grade are equal only for the same term and unit |
| ExamFiles.UnitsDistinct | proj/src/systems/ExamIntegration.js:388-390 | one term's unit files are distinct |
| ExamFiles.FinalUnitsDistinct | proj/src/systems/ExamIntegration.js:379-383 | the final exam's twelve files are distinct |
| ExamFiles.GradeExamFilesDistinct | proj/src/systems/ExamIntegration.js:370-395 | no grade exam loads a file twice |
| ExamFiles.BookPathRoundTrip | proj/src/systems/ExamIntegration.js:417-418 | a book's padded path names that book |
| ExamFiles.BookRange | proj/src/systems/ExamIntegration.js:407-414 | the known ranges lie within books 1 to 15 |
| ExamFiles.BookPaths | proj/src/systems/ExamIntegration.js:416-419 | the paths of books lo to hi, in order |
| ExamFiles.ExtracurricularExamFiles | proj/src/systems/ExamIntegration.js:400-428 | files exactly for Fly Guy with a known range, and then the range's books in order |
| ExamFiles.ExtracurricularFilesDistinct | proj/src/systems/ExamIntegration.js:400-428 | no book exam loads a file twice |
| ExamFiles.BookPathsSplit | proj/src/systems/ExamIntegration.js:416-419 | a run of books splits at any book inside it |
| ExamFiles.FlyGuyFinalCoversRanges | proj/src/systems/ExamIntegration.js:407-412 | the Fly Guy final exam is the three ranges back to back |
| ExamFiles.DayPathInjective | proj/src/systems/ExamIntegration.js:328 | distinct days have distinct files |
| ExamFiles.DayPaths | proj/src/systems/ExamIntegration.js:350 | one file per day, in day order |
| ExamFiles.FindCategory | proj/src/systems/ExamIntegration.js:348 | found exactly when some category has the key |
| ExamFiles.FindCategoryIsFirst | proj/src/systems/ExamIntegration.js:348 | the category found is the first listed under the key |
| ExamFiles.PhonicsExamFiles | proj/src/systems/ExamIntegration.js:312-365 | an unreadable configuration gives no files; a single exam loads its category's learning days |
| ExamFiles.DayPathsMember | proj/src/systems/ExamIntegration.js:350 | a day's file is listed exactly when the day is |
| ExamFiles.DayPathsDistinct | proj/src/systems/ExamIntegration.js:350 | distinct days give distinct files |
| ExamFiles.PhonicsFinalCoversEveryDayOnce | proj/src/systems/ExamIntegration.js:318-345 | the phonics final exam loads every learning and test day's file, each once, and no other |
| ExamFiles.ExamVocabularyFiles | proj/src/systems/ExamIntegration.js:288-307 | each series uses its own file list; the academic stages have none |
| ExamFiles.GradeExamsHaveFiles | proj/src/systems/ExamIntegration.js:370-395 | every grade exam has at least four files |
| ExamFiles.ToExamWord | proj/src/systems/ExamIntegration.js:447-453 | the word and its file are kept; a missing or zero difficulty becomes 1 |
| ExamFiles.FileWords | proj/src/systems/ExamIntegration.js:446-454 | one exam word per stored word, in order |
| ExamFiles.LoadWordsFromFiles | proj/src/systems/ExamIntegration.js:433-466 | every loaded word comes from a listed file |
| ExamFiles.LoadWordsAppend | proj/src/systems/ExamIntegration.js:462-463 | loading two file lists is loading each in turn |
| ExamFiles.DeduplicateWords | proj/src/systems/ExamIntegration.js:471-481 | no spelling twice (case-blind), every spelling kept, only loaded words |
| ExamFiles.DeduplicateKeepsFirst | proj/src/systems/ExamIntegration.js:471-481 | each kept word is the first of its spelling, and de-duplicating again changes nothing |
| ExamFiles.ApplyWordCountLimit | proj/src/systems/ExamIntegration.js:486-497 | a list within the target is kept; otherwise the target's number of its words |
| ExamFiles.SelectExamWords | proj/src/systems/ExamIntegration.js:262-271 | a target of 0 or at least the word count keeps every word; otherwise the target's number of them |
| ExamFiles.SelectedWordsAreDistinct | proj/src/systems/ExamIntegration.js:258-271 | the exam's words come from the loaded ones and no two share a spelling |
| ExamFiles.MultisetPairIn | proj/src/systems/ExamIntegration.js:262-271 | two positions of a sub-multiset sit at two distinct positions of the whole |
| ExamFiles.SecondIndex | proj/src/systems/ExamIntegration.js:262-271 | a value held twice has a second position |
| ExamFiles.LoadExamVocabularyAsWritten | proj/src/systems/ExamIntegration.js:207-283 | the original list is backed up once; the fallback after an empty load cuts to the target even when it is 0 |
| ExamFiles.FailedLoadEmptiesVocabulary | proj/src/systems/ExamIntegration.js:246-253 | an exam asking for all words whose files load nothing is left with no words |
| ExamFiles.LoadExamVocabulary | proj/src/systems/ExamIntegration.js:207-283 | the backup is made once; loaded words are de-duplicated and cut; without files or words the list is only cut, and left whole for a target of 0 |
| ExamFiles.FullExamUsesEverySpelling | proj/src/systems/ExamIntegration.js:257-271 | an exam asking for all words uses every loaded spelling |
| ExamFiles.RestoreOriginalVocabulary | proj/src/systems/ExamIntegration.js:502-510 | the backup is put back and forgotten; without one nothing changes |
| ExamFiles.RestoreUndoesLoads | proj/src/systems/ExamIntegration.js:226-230 | however many loads precede it, restoring gives back the list from before the first |
| ExamFiles.ExamCorrectRate | proj/src/systems/ExamIntegration.js:661-669 | 0 without a game or fallen words; otherwise the rounded percentage of hits |
| ExamFiles.CorrectRateIsPercentage | proj/src/systems/ExamIntegration.js:661-669 | at most 100 when hits do not exceed fallen words, and at least 90 exactly when hits are at least 89.5 percent |
| Phonetic.Format | proj/src/utils/PhoneticFormatter.js:11-35 | empty exactly for a missing or blank transcription; otherwise always between slashes |
| Phonetic.FormatKeepsTranscription | proj/src/utils/PhoneticFormatter.js:17-34 | between the slashes is the trimmed transcription, without its square brackets if it had them |
| Phonetic.FormatIdempotent | proj/src/utils/PhoneticFormatter.js:11-35 | formatting a formatted transcription changes nothing |
| Phonetic.FormatWords | proj/src/utils/PhoneticFormatter.js:42-51 | a non-list comes back as it is; otherwise each word keeps its other fields and gets its transcription formatted |
| Phonetic.FormatWordsIdempotent | proj/src/utils/PhoneticFormatter.js:42-51 | formatting a list twice is formatting it once |
| R2Config.PercentByte | proj/src/config/r2-config.js:73 | a percent sign and two hexadecimal digits |
| R2Config.Utf8 | proj/src/config/r2-config.js:73 | one to four bytes, and a single byte exactly for ASCII |
| R2Config.PercentBytes | proj/src/config/r2-config.js:73 | three escape characters per byte |
| R2Config.EncodeChar | proj/src/config/r2-config.js:73 | an unreserved character is kept; any other becomes percent escapes |
| R2Config.Encode | proj/src/config/r2-config.js:73 | the escaped name holds only unreserved characters and percent signs |
| R2Config.EncodeUnreserved | proj/src/config/r2-config.js:73 | a name of unreserved characters is not changed |
| R2Config.EncodeHasNoSlash | proj/src/config/r2-config.js:93 | an escaped piece holds no slash |
| R2Config.HexRoundTrip | proj/src/config/r2-config.js:73 | a hexadecimal digit reads back as its value |
| R2Config.DecodeEncodeAscii | proj/src/config/r2-config.js:73 | an escaped ASCII name decodes back to itself |
| R2Config.FallbackDecidesLocalHosts | proj/src/config/r2-config.js:45-63 | with the fallback off any configured address sends every host to the CDN; with it on, development hosts use local files; the shipped setting has the fallback off |
| R2Config.NotContainedWithoutFirstChar | proj/src/config/r2-config.js:47 | a string without the placeholder's first letter cannot hold the placeholder |
| R2Config.AudioUrl | proj/src/config/r2-config.js:70-82 | the CDN's audio folder and the escaped name when the CDN is used, else the local audio folder and the plain name |
| R2Config.EncodeParts | proj/src/config/r2-config.js:93 | each path piece escaped on its own |
| R2Config.ImageUrlKeepsDirectories | proj/src/config/r2-config.js:89-99 | on the CDN the URL's tail splits on slashes into exactly the escaped pieces of the path; locally the path is used as given |
| R2Config.PlainAudioName | proj/src/config/r2-config.js:70-76 | a name with nothing to escape goes into the CDN URL as it is |
| Tts.NewState | proj/src/utils/TTSService.js:44-70 | no providers, not yet tested, index 0, and no id in use |
| Tts.Candidates | proj/src/utils/TTSService.js:171-190 | exactly the providers whose test succeeded, with their response times |
| Tts.Initialize | proj/src/utils/TTSService.js:171-195 | a second call does nothing; the first keeps exactly the successful providers, fastest first, and changes nothing else |
| Tts.InitializeIdempotent | proj/src/utils/TTSService.js:172-174 | calling it again, whatever the tests would now say, changes nothing |
| Tts.OnFailure | proj/src/utils/TTSService.js:999-1029 | the provider's consecutive failures go up by one; the index stays in range, and stays 0 when it was 0 |
| Tts.OnFailureKeepsOthers | proj/src/utils/TTSService.js:1003-1029 | the third consecutive failure drops the provider, an earlier one moves it to the end; the others keep their order |
| Tts.IndexStaysZero | proj/src/utils/TTSService.js:1017-1028 | with the index at 0 a failure leaves it at 0, so the head of the list is always tried |
| Tts.NextSpeakId | proj/src/utils/TTSService.js:840-848 | the counter goes up by one and the id becomes active; just below the largest safe integer it starts over at 1 and forgets cancellations |
| Tts.NewIdIsFresh | proj/src/utils/TTSService.js:840-848 | until the counter starts over, a new id is neither active nor cancelled |
| Tts.Stop | proj/src/utils/TTSService.js:1181-1240 | nothing is speaking afterwards; with cancelling on, every active call is marked cancelled; the providers are untouched |
| Tts.Step | proj/src/utils/TTSService.js:867-1032 | success resets the provider's failures and ends the call; cancellation ends it and forgets its id; a failure counts against the provider and either ends the call when none is left or goes on with one in range |
| Tts.Names | proj/src/utils/TTSService.js:877 | the providers' names, in order |
| Tts.AsWrittenSkipsAProvider | proj/src/utils/TTSService.js:867-1031 | the loop as written, with three failing providers of which the first is dropped, stops after two attempts and never tries the third |
| Tts.Attempts | proj/src/utils/TTSService.js:867-1031 | the corrected loop makes at most as many attempts as there were providers when the call began, and exactly that many when it runs out |
| Tts.AttemptsTryEachOnce | proj/src/utils/TTSService.js:867-1031 | when all fail, the loop bounded by the starting count tries every untried provider once, in list order |
| Tts.AllFailedMeansAllTried | proj/src/utils/TTSService.js:867-1031 | a call that fails everywhere has tried every provider it started with, in order |
| Tts.StopCancelsCallInFlight | proj/src/utils/TTSService.js:869-875 | an outside stop ends a call in flight, which forgets its id |
| Tts.Speak | proj/src/utils/TTSService.js:814-1087 | the call reports that no provider exists only when the list is empty; its attempt loop is the corrected one of `Tts.Attempts` (see Findings) |
| Tts.SuccessKeepsProvider | proj/src/utils/TTSService.js:895-907 | the provider that speaks keeps its place at the head with no failures |
| AudioCache.CacheKey | proj/src/utils/AudioCacheManager.js:179-181 | a lower-case key one character longer than word and provider together |
| AudioCache.LowerKeepsUnderscore | proj/src/utils/AudioCacheManager.js:180 | lower-casing neither adds nor removes an underscore |
| AudioCache.CacheKeySplits | proj/src/utils/AudioCacheManager.js:179-181 | a key splits back into the lower-cased word and provider when neither holds an underscore |
| AudioCache.CacheKeyIgnoresCase | proj/src/utils/AudioCacheManager.js:179-181 | the key does not depend on the case of word or provider |
| AudioCache.LocalFilePath | proj/src/utils/AudioCacheManager.js:186-188 | a path under the local audio folder ending in `.mp3` |
| AudioCache.LocalFilePathNamesKey | proj/src/utils/AudioCacheManager.js:186-188 | the file name inside the local path is exactly the cache key |
| AudioCache.LocalHostsCompared | proj/src/utils/AudioCacheManager.js:95-102 | every host the CDN configuration treats as local is local here too, and a 10.x address only here |
| AudioCache.NewManager | proj/src/utils/AudioCacheManager.js:53-80 | local exactly on a development host; not initialised, no object URLs and no records |
| AudioCache.CheckLocalFile | proj/src/utils/AudioCacheManager.js:196-208 | a local file exists exactly on a development host whose request succeeded |
| AudioCache.HasCache | proj/src/utils/AudioCacheManager.js:216-257 | cached exactly when a local file exists or, once initialised, the database has a record for the lower-cased pair |
| AudioCache.GetCache | proj/src/utils/AudioCacheManager.js:265-324 | a remembered object URL first; then the local path; then, once initialised, a stored audio turned into a new remembered URL; otherwise nothing |
| AudioCache.GetCacheRemembers | proj/src/utils/AudioCacheManager.js:269-272 | once a pair's object URL is remembered, every later lookup of the pair in any case returns it and changes nothing |
| AudioCache.GetCacheAgreesWithHasCache | proj/src/utils/AudioCacheManager.js:216-324 | on a cold memory a found audio is also reported cached; the only cached pair not found is a database record without audio |
| AudioCache.RemoteNeverUsesLocalFiles | proj/src/utils/AudioCacheManager.js:196-199 | off a development host the file check has no effect |
| AudioCache.Construct | proj/src/utils/AudioCacheManager.js:53-58 | the first construction records a new manager for the host; later ones return the recorded manager |
| AudioCache.GetInstance | proj/src/utils/AudioCacheManager.js:85-90 | the same manager a construction would give |
| AudioCache.ConstructIsSingleton | proj/src/utils/AudioCacheManager.js:53-58 | two constructions return the same manager and the second ignores its host |
| Settings.ExpandedSet | proj/src/ui/settings.js:71-72 | unreadable exactly when the stored text is not JSON; a missing value or a non-list gives nothing expanded |
| Settings.LoadUserSettings | proj/src/ui/settings.js:46-80 | a saved non-empty list with readable expansion state is restored with the saved mode; challenge mode only when saved; a missing, empty or unreadable list gives the defaults |
| Settings.LoadSelectionV2 | proj/settings-v2.js:40-55 | a saved list is restored as it is, even empty; otherwise the defaults |
| Settings.SaveThenLoad | proj/src/ui/settings.js:46-95 | settings saved with a non-empty selection load back unchanged; an empty saved list loads as the defaults here and as nothing in the older page |
| Settings.Toggle | proj/src/ui/settings.js:387-392 | the lesson's membership flips and no other lesson changes |
| Settings.ToggleTwice | proj/src/ui/settings.js:387-392 | toggling a lesson twice restores the selection |
| Settings.SelectAll | proj/src/ui/settings.js:589-600 | when every listed lesson is selected they are all removed; otherwise they are all added |
| Settings.SelectAllTwice | proj/src/ui/settings.js:589-600 | from a partial selection the first click selects all and the second removes them all |
| Settings.SubIds | proj/src/ui/settings.js:589-590 | the subcategories' ids, in order |
| Settings.ItemIds | proj/src/ui/settings.js:619-620 | the items' ids, in order |
| Settings.FindCategory | proj/src/ui/settings.js:585 | the category found has the id; none means no category has it |
| Settings.FindSub | proj/src/ui/settings.js:615 | the group found has the id; none means no group has it |
| Settings.SelectAllInCategory | proj/src/ui/settings.js:580-607 | an unknown category, or one without subcategories, leaves the selection alone; otherwise select-all over its subcategories |
| Settings.SelectAllInGrade | proj/src/ui/settings.js:609-637 | select-all over one grade group's items; an unknown group leaves the selection alone |
| Settings.GradeItems | proj/src/ui/settings.js:614-616 | the items found are those of a group with the requested id inside the `grade-based` category |
| Settings.Save | proj/src/ui/settings.js:452-460 | refused exactly when nothing is selected; otherwise the selection is stored |
| Settings.ResetToDefault | proj/src/ui/settings.js:462-467 | the default selection in casual mode; the expansion state is kept |
| Settings.ItemsTotalAppend | proj/src/ui/settings.js:108-128 | the total over two lesson lists is the sum of their totals |
| Settings.SubsTotalIsLessonTotal | proj/src/ui/settings.js:110-126 | a category's total is the total over its lessons, grade items included |
| Settings.TotalIsLessonTotal | proj/src/ui/settings.js:104-131 | the overview total is the word count of the selected lessons |
| Settings.AddOneId | proj/src/ui/settings.js:116-123 | selecting one more lesson adds exactly its words |
| Settings.ToggleMovesTotal | proj/src/ui/settings.js:387-416 | toggling a lesson moves the total by exactly its words, up when selected and down when deselected |
| Settings.DigitRun | proj/src/ui/settings.js:665 | the leading run of digits, as far as it goes |
| Settings.OpenLesson | proj/src/ui/settings.js:662-671 | a grade unit id opens the unit page, anything else the phonics page |
| Settings.OpenLessonV2 | proj/settings-v2.js:482-485 | every lesson opens the phonics page |
| Settings.DigitRunOfDigits | proj/src/ui/settings.js:665 | a run of digits followed by a non-digit is read whole |
| Settings.UnitIdsMatch | proj/src/ui/settings.js:665 | every `grade<n>-term<n>-unit<n>` id matches the pattern |
| Settings.UnitShapeParts | proj/src/ui/settings.js:665 | a matching id splits into its three digit runs |
| Settings.UnitLessonShape | proj/src/ui/settings.js:665 | a routed id has exactly the unit form once lower-cased |
| Settings.CapitalisedUnitRoutes | proj/src/ui/settings.js:665-666 | the pattern ignores case, so a capitalised unit id opens the unit page |
| Settings.PhonicsDayRoutesElsewhere | proj/src/ui/settings.js:665-670 | a phonics day opens the phonics page |
| LibrarySettings.IndexOf | proj/settings.js:177 | none exactly when absent; otherwise the first position holding the id |
| LibrarySettings.ToggleLibrary | proj/settings.js:175-190 | refused exactly when the library is the only one enabled; a disabled library is appended; an enabled one loses its first occurrence, the others keeping their order |
| LibrarySettings.ToggleKeepsOne | proj/settings.js:180-184 | a non-empty list never becomes empty |
| LibrarySettings.ToggleKeepsDistinct | proj/settings.js:175-190 | a list without repeats keeps none, and the library ends up enabled exactly when it was not |
| LibrarySettings.EnableThenDisable | proj/settings.js:175-190 | enabling and then disabling a library restores the list, unless it was the only one, when the second click is refused |
| LibrarySettings.OnMinChange | proj/settings.js:154-162 | the new minimum is kept and a lower maximum is raised to it, leaving an ordered range |
| LibrarySettings.OnMaxChange | proj/settings.js:164-172 | the new maximum is kept and a higher minimum is lowered to it, leaving an ordered range |
| LibrarySettings.HandlersMoveLeast | proj/settings.js:154-172 | each handler moves the other bound no further than it must |
| LibrarySettings.EditsKeepValid | proj/settings.js:154-255 | the defaults are valid, and toggling and both range handlers keep a configuration valid |
| LibrarySettings.WaitForLoad | proj/settings.js:40-50 | succeeds exactly when the vocabulary is loaded within 100 waits, after the fewest waits; otherwise fails after 100 |
| Text.MinutesSeconds | proj/src/utils/CertificationStorage.js:225-227 | minutes, a colon and two-digit seconds below sixty that read back as the duration; the minutes take exactly two digits below 100 minutes and carry no extra leading zero beyond |

## Left out

- Canvas rendering, animation, particles and the cannon: drawing and floating-point motion, with no logic the game's state depends on.
- Word speed and the speed multiplier: floating-point physics.
- The network: HTTP fetches of word banks, audio and images, the IP lookup, the TTS proxy and the upload tool. What they return becomes a parameter (the parsed JSON, whether a `HEAD` request succeeded, a download's status and size).
- Audio playback, Web Speech, the iOS audio unlock, timers and the speech loop. Only the provider list and the speak-id bookkeeping of the TTS service are modelled.
- IndexedDB transactions of the audio cache: the database becomes an optional map.
- localStorage, sessionStorage and files: they become string or JSON inputs and outputs. Storage quota errors are not modelled.
- Python's `csv` quoting: rows are modelled as field tuples.
- `Math.random` and `Date.now`: they become sequences of draws and a `now` parameter. Properties hold for every draw sequence.
- The DOM, HTML strings, modals, status and log messages, notifications, badge and tier widgets, the debug loggers and the game-settings integration scripts.
- The image and audio compression tools and the one-off source patchers: they wrap external programs or rewrite one fixed file.
- Case mapping, white space and `trim`/`strip` are ASCII only. Unicode case folding and Unicode white space are not modelled, nor the separators U+001C to U+001F that Python's `strip()` also removes.
- String order is code-point order. JavaScript's default sort compares UTF-16 code units, and the two agree up to U+FFFF.
- GlobalVocabulary.SortedRows: the generator sorts its paths with `localeCompare`, a locale collation. That collation compares letters ignoring case first and puts `_` and other punctuation before digits and letters. The model orders by code point, so even pure-ASCII paths can come out in another order: `B.json` sorts before `a.json` here and after it there, and `aB` sorts before `a_b` here and after it there.
- GlobalVocabulary.CsvLines: its rows are in `SortedRows` order, so the same difference in path order applies.
- `SortBy` is an insertion sort whose contract gives a sorted permutation; that equal elements keep their order (the stability of `sorted` and `Array.sort`) is not stated.
- Tokens.FindAll: its own contract says only that each item matches the word pattern. Which matches `findall` returns is stated by the lemmas `Tokens.FindAllScans` and `Tokens.ScansAreFindAll`.
- Tokens.FindAllShort: its own contract says only that each item matches the short-word pattern. Which matches are returned is stated by `Tokens.FindAllShortScans` and `Tokens.ScansAreFindAllShort`.
- FixWords.FixBank: a word object is typed as a string `word` and an integer `difficulty`. The script raises on a word object without `word` (proj/fix_words.py:39) or without `difficulty` (line 69), and on a non-string `word` (`.lower()`). Such banks cannot be represented, so they are not among the failures the contract lists.
- AnalyzeBank.Duplicates: the duplicates are listed in order of first appearance. The contract states which words and sources are listed, not that order.
- LegacyGame.AutoShoot: review mode is not modelled: the review counters and the timed next review word at proj/game.js:837-842.
- JSON numbers are integers (`JsonValue.Num(int)`). A fractional number, such as a difficulty of 1.5, cannot be represented. Only integers are compared or counted in the code modelled.
- JSON objects are the parsed field lists, compared structurally. A parser keeps the last of two equal keys while `JsonValue.Lookup` returns the first, so duplicate keys are not modelled.
- `Math.round` of a floating-point percentage is modelled as exact rounding half up. The floating-point product can differ at an exact half (23 of 40 gives 57 there, 58 here).
- `min(15, floor(0.7 * n))` is modelled as `min(15, 7n / 10)`. The two differ only where both are clamped to 15.
- Settings.LoadSelectionV2: as for `LoadUserSettings`, a saved value that parses as JSON but is not an array gives the defaults. `new Set(JSON.parse(saved))` at proj/settings-v2.js:44 would give a set of a string's characters, or an empty set for `null`.
- Settings.LoadUserSettings: a saved value that parses as JSON but is not an array is treated as unreadable. In JavaScript a string would give a set of its characters and `null` an empty set.
- LibrarySettings.ToggleLibrary: the status message, which throws for an unknown id after the list is updated, is not modelled.
- LegacyGame.SubmitAnswer: like the source, it counts no hit and does not update `maxCombo`. The legacy missed book keeps no phonetic.
- MissedStore.SaveMissedWords: the store is already a parsed list of records. A stored value that is not JSON, or is `null`, cannot be represented. In JavaScript every save then throws and reports failure, so the count is 0; here every save succeeds.
- MissedStore.SaveMissedWord: the visitor's IP in `ip::word` keys is an input. `count++` on an entry without a count (NaN in JavaScript) and the key order of the stored object are not modelled.
- R2Config.FallbackDecidesLocalHosts: stated for any base URL that does not contain the placeholder's first letter. That the literal default URL goes to the CDN is not shown.
- Tts.Speak: its contract only says that "no provider" means an empty list. The attempt bound and the single retry are stated on `Tts.Attempts` and by the recursion's termination measure. Its loop is the corrected one of `Tts.Attempts`, which allows as many attempts as there were providers when the call began. The loop as written compares with the current, shrinking list. When a provider is dropped mid-call it can stop before trying them all (`Tts.AsWrittenSkipsAProvider`, under Findings), and the model then tries providers the source never reaches.
- The TTS provider tests, the error-category texts, `switchProvider`, `getAvailableProviders`, `getAvailableProvidersDetails` and `getCurrentProvider`: these are network tests, display text and getters.
- TetrisGame.SubmitAnswer: a level-up here uses the corrected `TetrisGame.LevelUp`. The source's level-up records each stacked word in the missed book a second time (`TetrisGame.LevelUpAsWritten`, under Findings). With a non-empty stack, the model's book therefore holds one record fewer per stacked word than the source's.
- TetrisGame.ResetGame: like the source, it keeps the spawn rate, the combo and the perfect-level flag.
- `gameOver` in proj/src/core/WordTetrisGame.js re-records the stack into the missed book. The book written at game over is not modelled; the game-over condition is.
- `validateDifficultyDistribution` only logs. Which tiers it warns about is modelled for the first manager (`Collection.TierWarnings`) and for the later ones (`Collection.DistributionWarnings`). The log text and the order of the warnings are not modelled.
- `getNextAvailableLevel` and `getLevelDisplayName` of the certification system: navigation and display text.
- CertSystem.GetLevelData: `_getLevelData(primary, g, "badge")` would return the badge object rather than level data, which is not modelled.
- CertStorage.DeepMerge: the index keys of a string or array source, and spreading a non-object target, are not modelled.

## Findings

| source | as written | input that shows it | evidently intended | confidence | as-written member | corrected member |
|---|---|---|---|---|---|---|
| proj/src/systems/ExamIntegration.js:246-253 | after a load that finds no words, the fallback calls `_applyWordCountLimit(vm, targetWordCount)` even when the target is 0, and every exam's target is 0 | any exam whose files yield no words while the manager holds a non-empty vocabulary: the vocabulary is emptied | guard the call with `targetWordCount > 0`, as lines 235-241 do | not executed | ExamFiles.LoadExamVocabularyAsWritten | ExamFiles.LoadExamVocabulary |
| proj/src/core/WordTetrisGame.js:1028-1030 | `levelUp` adds every stacked word to the missed book again, although `addToStack` (lines 1459-1462) already added it | one word given up, then a level up: that word's miss count is 2 | record each stacked word once | not executed | TetrisGame.LevelUpCountsStackTwice | TetrisGame.LevelUpKeepsInv |
| proj/src/utils/TTSService.js:867-1031 | the attempt loop compares `attemptCount` with the current length of the provider list, which shrinks when a provider is dropped | providers a, b, c where a has failed twice before and all three fail now: only a and b are tried | bound the loop by the number of providers at the start of the call | not executed | Tts.AsWrittenSkipsAProvider | Tts.AllFailedMeansAllTried |
