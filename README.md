# Poem corpus cleaning and n-gram statistics, modelled in Dafny

This project models two parts of a small poetry language-model repository:

- **The CSV poem cleaner** (`data/poems/clean.py`):
  - `clean_poem_text` turns a poem cell into a canonical multi-line text;
  - `clean_title` normalises a title cell;
  - `format_poem_entry` renders one training record, `"title: …\npoem: …\n\n\n"`;
  - `_strip_edge_blank_lines` trims blank lines off both ends of a list;
  - the row loop of `clean()` chooses the poem and title columns, then sorts each row into accepted, skipped or empty-after-cleaning, with one counter for each.
- **The evaluation metrics** (`evaluation.py`):
  - `ngrams` is the character sliding window;
  - `trigram_precision` is the clipped overlap of generated n-grams with a reference;
  - `trigram_repetition` gives the share of repeated windows and the rate of repeated kinds.

Modules, one file each:

- `Wrappers` (`wrappers.dfy`): `Option` and `Result`.
- `Strings` (`strings.dfy`): Python's `str.isspace`, `strip`/`lstrip`/`rstrip`, `split('\n')` and `'\n'.join`.
- `Rewrites` (`rewrites.dfy`): each regular-expression rewrite of `clean_poem_text` and `clean_title`, written out as a function on `seq<char>`, with lemmas that pin down what it does.
- `PoemCleaner` (`cleaner.dfy`): the cleaning pipeline, the title, the record format and `_strip_edge_blank_lines`.
- `CleanDriver` (`driver.dfy`): the column selection and the row loop of `clean()`.
- `NGramStats` (`evaluation.dfy`): the n-gram statistics.

How the Python maps to Dafny:

- **Unicode data.** NFKC normalisation and the Unicode general category come from Python's `unicodedata` tables. They are the two function-valued fields of `PoemCleaner.UnicodeData`, passed to every operation that uses them. Every property proved here holds for any normalisation function and any control-character predicate, with two exceptions: `PoemCleaner.CleanPoemNoCarriageReturn` assumes that `\r` is a control character, as it is in Unicode, and `PoemCleaner.CleanTitleExample` assumes that normalisation leaves its example title unchanged.
- **Whitespace.** `Strings.IsSpace` is the concrete table behind Python's `str.isspace` and `\s`.
- **Cells.** A pandas cell is `PoemCleaner.Cell`: missing (`None`), `NaN`, or text.
- **Rows.** A row is a map from column name to cell. The table's columns are a set of names.
- **Ratios.** The metrics return exact `real` ratios of counts.
- **Counters.** A `collections.Counter` is a `multiset<string>`, whose keys are enumerated by `NGramStats.Distinct` in order of first appearance.

Four behaviours of the code are easy to get wrong, and the model proves each of them:

- Cleaning is **not idempotent**. `"a\n\n\nb"` collapses to `"a\n\nb"`, and collapsing that again gives `"a\nb"` (`Rewrites.CollapseNotIdempotent`). Runs of one or two newlines become one, and longer runs become two (`Rewrites.CollapseBlankLinesRun`), so a second pass shortens them again. This is consistent with the source's own comment at `data/poems/clean.py:61`.
- `/* … */` removal makes **one pass**. A span can be assembled from the pieces around a removed comment: `"//**/*x*/"` becomes `"/*x*/"` (`Rewrites.SinglePassCanLeaveComment`). So a cleaned poem can still contain a `/*…*/` span.
- The control-character pass runs **after** the blank-line collapse and the comment-line filter, and it can join newlines or uncover a `//` at the start of a line. The model therefore proves the properties that hold at the end of the pipeline: no control characters except tab and newline, and no trailing whitespace on any line. It does not claim that the output is free of blank-line runs or of comment lines.
- The branch at `data/poems/clean.py:168-169` is **unreachable**. The model keeps it, and `CleanDriver.ProcessRowOutcome` proves that it cannot be taken.

## Model

| member | source | states |
|---|---|---|
| Strings.IsSpace | data/poems/clean.py:46 | the code points for which Python's `str.isspace()` holds, the table behind `strip`, `lstrip`, `rstrip` and `\s` |
| Strings.LeadingRun | data/poems/clean.py:20-21 | the length of the longest prefix whose elements satisfy a predicate: all before it satisfy it, the next one does not |
| Strings.TrailingRun | data/poems/clean.py:23-24 | the same for the longest suffix |
| Strings.LStrip | data/poems/clean.py:53 | `lstrip()` returns a suffix of the input: everything dropped is whitespace, and the result is empty or starts with a non-space |
| Strings.StartsWith | data/poems/clean.py:54 | `str.startswith`: the text begins with the given prefix |
| Strings.RStrip | data/poems/clean.py:51 | `rstrip()` returns a prefix of the input: everything dropped is whitespace, and the result is empty or ends with a non-space |
| Strings.Strip | data/poems/clean.py:46 | `strip()` is empty exactly when the text is all whitespace; otherwise both of its ends are non-space |
| Strings.StripKeepsNonSpace | data/poems/clean.py:46 | stripping keeps every non-space character, in order |
| Strings.RStripKeepsEvery | data/poems/clean.py:51 | right-trimming keeps any property that every character had |
| Strings.Split | data/poems/clean.py:50 | `split('\n')` gives at least one piece, and no piece contains a newline |
| Strings.SplitFirstPrefix | data/poems/clean.py:50 | the first piece of `split('\n')` is the text up to its first newline |
| Strings.Join | data/poems/clean.py:59 | `'\n'.join` puts one newline between consecutive lines; `JoinSplit` and `SplitJoin` prove it the inverse of `split('\n')` |
| Strings.JoinSplit | data/poems/clean.py:59 | `'\n'.join(s.split('\n')) == s` |
| Strings.SplitJoin | data/poems/clean.py:72 | splitting a join of newline-free lines gives back those lines |
| Strings.SplitNoNewline | data/poems/clean.py:50 | a text without a newline splits into itself alone |
| Strings.SplitAfterLine | data/poems/clean.py:50 | splitting a first line followed by a newline peels off that line |
| Strings.SplitKeepsEvery | data/poems/clean.py:50 | each piece of a split keeps a property that every character had |
| Strings.JoinKeepsEvery | data/poems/clean.py:59 | joining keeps a property that every character of every line had, and that the newline has |
| Strings.NonSpaceAppend | data/poems/clean.py:84 | the non-space characters of a concatenation are those of its parts, in order |
| Strings.NonSpaceOfSpaces | data/poems/clean.py:84 | an all-whitespace text has no non-space characters |
| Rewrites.Newlines | data/poems/clean.py:62-63 | a run of exactly k newlines |
| Rewrites.ReplaceCrLf | data/poems/clean.py:35 | `replace('\r\n', '\n')` never lengthens the text |
| Rewrites.ReplaceCrLfNoCr | data/poems/clean.py:35 | a text without `\r` is left unchanged by the CRLF replacement |
| Rewrites.ReplaceCrLfCons | data/poems/clean.py:35 | a character that does not start a `\r\n` pair is copied |
| Rewrites.ReplaceCrLfPair | data/poems/clean.py:35 | a leading `\r\n` becomes `\n` |
| Rewrites.ReplaceCr | data/poems/clean.py:35 | `replace('\r', '\n')` keeps the length, leaves no `\r`, and leaves a text without `\r` unchanged |
| Rewrites.NormalizeNewlines | data/poems/clean.py:35 | after both replacements no `\r` remains and the text is no longer than before |
| Rewrites.ReplaceCrAppend | data/poems/clean.py:35 | the lone-CR replacement works piece by piece |
| Rewrites.ReplaceCrLfAppend | data/poems/clean.py:35 | the CRLF replacement works piece by piece when the cut does not split a `\r\n` |
| Rewrites.CrLfBecomesNewline | data/poems/clean.py:35 | each `\r\n` becomes exactly one `\n` |
| Rewrites.LoneCrBecomesNewline | data/poems/clean.py:35 | each `\r` not followed by `\n` becomes one `\n` |
| Rewrites.CommentEnd | data/poems/clean.py:39 | finds the nearest `*/` at or after a position, or reports that there is none |
| Rewrites.StripBlockComments | data/poems/clean.py:39 | removing `/*…*/` spans never lengthens the text |
| Rewrites.NoOpenerUnchanged | data/poems/clean.py:39 | a text with no `/*` is unchanged |
| Rewrites.NoCloserUnchanged | data/poems/clean.py:39 | a text with no `*/` is unchanged |
| Rewrites.StripBlockCommentsPlainPrefix | data/poems/clean.py:39 | a prefix without `/*` is kept as it is, and scanning resumes after it |
| Rewrites.FirstCloserAfter | data/poems/clean.py:39 | after an opener, the lazy match ends at the first `*/`, the one following a closer-free stretch |
| Rewrites.RemovesLeftmostComment | data/poems/clean.py:39 | the leftmost `/*` and the nearest `*/` after it are removed with everything between them, and scanning continues after the `*/` |
| Rewrites.UnmatchedOpenerAlone | data/poems/clean.py:39 | a `/*` with no `*/` after it is left in place |
| Rewrites.UnmatchedOpenerKept | data/poems/clean.py:39 | an unmatched `/*` after a plain prefix is left in place |
| Rewrites.SinglePassCanLeaveComment | data/poems/clean.py:39 | one pass can leave a complete `/*x*/` behind |
| Rewrites.StripLeadingQuotes | data/poems/clean.py:42 | `^"+\s*` removes a prefix made of quotes and whitespace; the text changes exactly when it starts with a quote, and then the result does not start with whitespace |
| Rewrites.DropQuotedTail | data/poems/clean.py:43 | drops a suffix of quotes and whitespace, and at least the final quote |
| Rewrites.StripTrailingQuotes | data/poems/clean.py:43 | `\s*"+$` removes quotes and whitespace at the end, or just before a final newline, which stays; a text without a quote is unchanged |
| Rewrites.CollapsePairs | data/poems/clean.py:62 | replacing `\n\n` by `\n` never lengthens the text |
| Rewrites.CollapsePairsNewlines | data/poems/clean.py:62 | a run of k newlines becomes ceil(k/2) newlines |
| Rewrites.CollapsePairsAppend | data/poems/clean.py:62 | the pair replacement works piece by piece when the cut is not inside a newline run |
| Rewrites.CollapsePairsRun | data/poems/clean.py:62 | a maximal run of k newlines inside a text becomes ceil(k/2) newlines, and the text around it is rewritten independently |
| Rewrites.CollapsePairsFirst | data/poems/clean.py:62 | the result is empty only for the empty text, and a leading non-newline is kept |
| Rewrites.CollapsePairsLast | data/poems/clean.py:62 | a final non-newline is kept |
| Rewrites.LeadingNewlinesStop | data/poems/clean.py:63 | the counted leading run is all newlines, and the next character is not one |
| Rewrites.LeadingNewlinesAppend | data/poems/clean.py:63 | the leading newline run of a concatenation |
| Rewrites.LeadingNewlinesOfNewlines | data/poems/clean.py:63 | k newlines have a leading run of k |
| Rewrites.CollapseRunsFirst | data/poems/clean.py:63 | `\n\n\n+ → \n\n` gives an empty result only for the empty text, and keeps a leading non-newline |
| Rewrites.CollapseRunsLeading | data/poems/clean.py:63 | a leading run of 3 or more newlines becomes 2; a shorter one stays |
| Rewrites.CollapseRunsNoTriple | data/poems/clean.py:63 | after the second pass no three consecutive newlines remain |
| Rewrites.CollapseRunsNewlines | data/poems/clean.py:63 | m newlines become 2 when m >= 3, and stay m otherwise |
| Rewrites.CollapseRunsAppend | data/poems/clean.py:63 | the run replacement works piece by piece when the cut is not inside a newline run |
| Rewrites.CollapseRunsRun | data/poems/clean.py:63 | a maximal run of m newlines inside a text becomes min(m, 2) newlines, the rest independently |
| Rewrites.CollapseRuns | data/poems/clean.py:63 | the left-to-right `\n\n\n+ → \n\n` scan, with the greedy `+` taking the whole run; `CollapseRunsRun` pins it on every text |
| Rewrites.CollapseBlankLinesRun | data/poems/clean.py:62-63 | after both passes a maximal run of 1–2 newlines becomes 1 and a run of 3 or more becomes 2 |
| Rewrites.CollapseBlankLines | data/poems/clean.py:62-63 | both passes, in the source's order, leave no three newlines in a row |
| Rewrites.CollapseNotIdempotent | data/poems/clean.py:62-63 | `"a\n\n\nb"` becomes `"a\n\nb"`, which becomes `"a\nb"` |
| Rewrites.RemoveControl | data/poems/clean.py:66-69 | every kept character is `\n`, `\t` or not a control character; each such character keeps its exact count, and every other character is removed; with `RemoveControlAppend` the kept characters stay in order |
| Rewrites.RemoveControlAppend | data/poems/clean.py:66-69 | characters are filtered one at a time: the result for a concatenation is the results for its parts, in order |
| Rewrites.RStripAll | data/poems/clean.py:72 | right-trims each line and keeps the number of lines |
| Rewrites.RStripLines | data/poems/clean.py:72 | right-trimming every line keeps the number of lines |
| Rewrites.RStripLinesShape | data/poems/clean.py:72 | the lines of the result are the right-trimmed lines of the input, none ends in whitespace, and a property of every character survives |
| Rewrites.RStripLinesTrimmed | data/poems/clean.py:72 | no line of the result ends in whitespace |
| Rewrites.CollapseSpaces | data/poems/clean.py:84 | `\s+ → ' '` never lengthens the text; `CollapseSpacesRun` and `CollapseSpacesSpaceless` pin it on every text |
| Rewrites.CollapseSpacesEnds | data/poems/clean.py:84 | the result is empty only for the empty text, and its first and last characters are whitespace exactly when the input's are |
| Rewrites.CollapseSpacesSingle | data/poems/clean.py:84 | in the result every whitespace character is a single `' '` followed by a non-space |
| Rewrites.CollapseSpacesNonSpace | data/poems/clean.py:84 | the non-space characters are kept, in order |
| Rewrites.CollapseSpacesSpaceless | data/poems/clean.py:84 | a text without whitespace is unchanged |
| Rewrites.SpaceRunBecomesSpace | data/poems/clean.py:84 | a whitespace run in front of a text that does not start with whitespace becomes one space |
| Rewrites.CollapseSpacesAppend | data/poems/clean.py:84 | the collapse works piece by piece when the cut is not inside a whitespace run |
| Rewrites.CollapseSpacesRun | data/poems/clean.py:84 | a maximal whitespace run becomes one `' '` in the same place, and the text on either side is collapsed on its own |
| Rewrites.CollapseTwoWords | data/poems/clean.py:84 | two words with a whitespace run between them come out as the two words with one space between them |
| PoemCleaner.CoerceText | data/poems/clean.py:31-32 | text cells pass unchanged, and `None` becomes `""` |
| PoemCleaner.StripEdgeBlankLines | data/poems/clean.py:14-26 | the result is the contiguous slice after the leading empty lines, and only empty lines are dropped at the end; it is empty exactly when every line is empty; otherwise its first and last lines are non-empty |
| PoemCleaner.KeptLines | data/poems/clean.py:49-59 | the filter never adds lines |
| PoemCleaner.KeptLinesAppend | data/poems/clean.py:50-57 | lines are filtered independently, and their order is kept |
| PoemCleaner.KeptLinesSingle | data/poems/clean.py:51-57 | a line is dropped exactly when its trimmed form starts with `//`, and is otherwise kept right-trimmed |
| PoemCleaner.KeptLinesClean | data/poems/clean.py:49-59 | no kept line ends in whitespace or starts, after left-trimming, with `//` |
| PoemCleaner.RStripIdempotent | data/poems/clean.py:51 | right-trimming twice is right-trimming once |
| PoemCleaner.IsCommentLine | data/poems/clean.py:53-54 | a line is a comment line when, left-trimmed, it starts with `//` |
| PoemCleaner.Prepare | data/poems/clean.py:34-46 | line endings, NFKC, block comments, quote artefacts and trimming, in order; the result is empty or has no whitespace at either end |
| PoemCleaner.Visible | data/poems/clean.py:48-69 | the comment-line filter, both blank-line passes and the control-character filter, in order; every character left is `\n`, `\t` or not a control character |
| PoemCleaner.CleanPoem | data/poems/clean.py:34-72 | every step of `clean_poem_text`, in order; no line of the result ends in whitespace |
| PoemCleaner.DropCommentLines | data/poems/clean.py:49-57 | the loop builds exactly the filtered, right-trimmed lines |
| PoemCleaner.CleanPoemText | data/poems/clean.py:28-74 | the step-by-step rewrite of the poem computes the whole pipeline, applied to the coerced text |
| PoemCleaner.CleanPoemNoControl | data/poems/clean.py:66-72 | the cleaned poem has no control character other than `\n` and `\t`, for every normalisation and every control-character predicate |
| PoemCleaner.CleanPoemNoCarriageReturn | data/poems/clean.py:35 | when `\r` is a control character, the cleaned poem has no `\r` |
| PoemCleaner.CleanTitle | data/poems/clean.py:76-89 | `"Untitled"` for `None`/NaN and for a title that is blank after normalisation; otherwise a non-empty title without edge whitespace, where every whitespace character is a single space, and which keeps the normalised title's non-space characters in order; `CollapseSpacesRun` places each space where its run was |
| PoemCleaner.CleanTitleOneLine | data/poems/clean.py:84 | a cleaned title never contains a newline |
| PoemCleaner.StripPaddedTitle | data/poems/clean.py:83 | `"  The\t\tRaven  ".strip()` is `"The\t\tRaven"` |
| PoemCleaner.CleanTitleExample | data/poems/clean.py:76-89 | `clean_title("  The\t\tRaven  ")` is `"The Raven"` when normalisation leaves that title unchanged |
| PoemCleaner.FormatPoemEntry | data/poems/clean.py:91-98 | the record is empty exactly when the poem is blank |
| PoemCleaner.ParseBody | data/poems/clean.py:98 | the part of a record after the title reads back as its poem |
| PoemCleaner.ParseFormatted | data/poems/clean.py:98 | `"title: " + t + "\npoem: " + p + "\n\n\n"` reads back as `(t, p)` when `t` is one line |
| PoemCleaner.FormatParseRoundTrip | data/poems/clean.py:91-98 | a record of a non-blank poem reads back as its title and its stripped poem |
| CleanDriver.ResolveColumns | data/poems/clean.py:114-129 | fails exactly when neither `Poem` nor `poem` is a column; prefers `Poem`; the title column is `Title`, else `title`, else none |
| CleanDriver.RowTitle | data/poems/clean.py:160-163 | the title a row is filed under: the cleaned title cell, or `"Untitled"` without a title column; never empty |
| CleanDriver.ProcessRow | data/poems/clean.py:143-169 | one pass of the loop body; an accepted row's record is never empty |
| CleanDriver.ProcessRowOutcome | data/poems/clean.py:143-169 | a row is skipped exactly when its poem is NaN/None or blank; it is empty-after-cleaning exactly when it is not skipped and its cleaned poem is blank; so the branch at line 168 is never taken |
| CleanDriver.RowTitleOneLine | data/poems/clean.py:160-163 | the title of a row is one line |
| CleanDriver.ProcessRowAccepted | data/poems/clean.py:159-167 | an accepted row's record is non-empty and reads back as the row's title and its stripped, cleaned poem |
| CleanDriver.Outcomes | data/poems/clean.py:140 | one outcome per row |
| CleanDriver.OutcomesAt | data/poems/clean.py:140-169 | the i-th outcome is that of the i-th row |
| CleanDriver.Record | data/poems/clean.py:145-169 | one outcome bumps exactly one counter or appends exactly one entry, and earlier entries are kept |
| CleanDriver.Tally | data/poems/clean.py:136-169 | entries + skipped + empty-after-cleaning = number of rows processed |
| CleanDriver.TallyAppend | data/poems/clean.py:136-169 | entries of consecutive row blocks concatenate in order, and the counters add up |
| CleanDriver.TallyEntries | data/poems/clean.py:166-167 | only non-empty records are appended |
| CleanDriver.OutcomesEntries | data/poems/clean.py:155-167 | no row yields an empty record |
| CleanDriver.TallyOfTable | data/poems/clean.py:136-169 | over a whole table, the counters sum to the row count, and every entry is non-empty |
| CleanDriver.HandleRow | data/poems/clean.py:141-169 | the loop body computes the row's outcome |
| CleanDriver.Count | data/poems/clean.py:145-169 | the loop body's bookkeeping bumps exactly the counter the outcome names, or appends the accepted entry |
| CleanDriver.ProcessRows | data/poems/clean.py:136-169 | the row loop builds exactly the tally of the rows' outcomes, in row order |
| CleanDriver.Clean | data/poems/clean.py:114-169 | fails exactly when there is no poem column; otherwise the report is the tally of the rows' outcomes in row order, its counts sum to the number of rows, and every entry is non-empty |
| NGramStats.NGrams | evaluation.py:4-5 | `max(|s|-n+1, 0)` windows, the i-th being `s[i..i+n]` |
| NGramStats.NGramsMembers | evaluation.py:4-5 | a string is an n-gram exactly when it has length n and occurs in the text |
| NGramStats.NGramsSlide | evaluation.py:4-5 | the windows are the first window followed by the windows of the rest of the text |
| NGramStats.NGramsExamples | evaluation.py:4-5 | `ngrams("abc",3) == ["abc"]`, `ngrams("ab",3) == []`, `ngrams("abcd",2) == ["ab","bc","cd"]` |
| NGramStats.Distinct | evaluation.py:10 | the counter's keys: exactly the n-grams, each once |
| NGramStats.CountSum | evaluation.py:10 | the sum of a counter's counts over given keys |
| NGramStats.ClippedSum | evaluation.py:11 | `sum(min(cg[t], cr.get(t, 0)))` over the given keys |
| NGramStats.ExcessSum | evaluation.py:17 | `sum(max(v - 1, 0))` over the given keys |
| NGramStats.RepeatedSum | evaluation.py:18 | `sum(1 for v if v > 1)` over the given keys, at most one per key |
| NGramStats.CountSumAdd | evaluation.py:10 | counting one more occurrence adds one to the sum over the keys exactly when it is a key |
| NGramStats.CountSumEmpty | evaluation.py:10 | an empty counter sums to 0 |
| NGramStats.CountSumOfDistinct | evaluation.py:10 | the counts of a counter's keys sum to the number of n-grams |
| NGramStats.CountSumBound | evaluation.py:11 | the counts of distinct keys in a counter sum to at most its size |
| NGramStats.ClippedSumBound | evaluation.py:11 | `sum(min(cg[t], cr[t]))` is at most either side's sum |
| NGramStats.ClippedSumSelf | evaluation.py:11 | against itself the clipped sum is the plain sum |
| NGramStats.ClippedSumDisjoint | evaluation.py:11 | keys absent from the reference contribute 0 |
| NGramStats.ExcessSumOfPresent | evaluation.py:17 | `sum(max(v-1,0))` over present keys is the total count minus the number of keys |
| NGramStats.RepeatedSumBound | evaluation.py:17-18 | the number of repeated keys is at most the excess |
| NGramStats.Ratio | evaluation.py:11 | the exact quotient: the ratio times the total is the numerator |
| NGramStats.RatioMonotonic | evaluation.py:11 | a ratio over a positive total grows with its numerator |
| NGramStats.RatioBounds | evaluation.py:11 | such a ratio lies in [0,1] when the numerator is at most the total, and below 1 when it is smaller |
| NGramStats.ClippedNGramsBound | evaluation.py:10-11 | the clipped numerator is at most `len(g)` and at most `len(r)` |
| NGramStats.TrigramPrecision | evaluation.py:7-11 | precision lies in [0,1], and is 0 when the generated text is shorter than n |
| NGramStats.PrecisionSelf | evaluation.py:11 | a text with at least n characters has precision 1 against itself |
| NGramStats.PrecisionDisjoint | evaluation.py:11 | texts sharing no n-gram have precision 0 |
| NGramStats.TrigramRepetition | evaluation.py:13-19 | `(0,0)` for a text shorter than n; otherwise `0 <= rep_unique <= rep_share < 1`, and `rep_share` is (windows − distinct windows) / windows |
| NGramStats.RepetitionCounts | evaluation.py:16-18 | the excess equals windows minus distinct windows, there is at least one distinct window, and the repeated-key count is at most the excess |
| NGramStats.RepetitionExample | evaluation.py:16-18 | `"aaaaa"` with n = 3 gives `rep_share = 2/3` and `rep_unique = 1/3` |
| NGramStats.DistinctOfRepeats | evaluation.py:16 | three copies of `"aaa"` have the single key `"aaa"` |

## Left out

- Reading the CSV with pandas, the progress prints, writing the output file, the character and line statistics, and the sample display (`data/poems/clean.py:101-111`, `172-197`) are I/O. The header list becomes a set of names and the table becomes a sequence of rows. Duplicate column names, which pandas would rename, are not modelled.
- The `PoemCSVCleaner` constructor and the `__main__` blocks only store file names and parse arguments. `read()` in `evaluation.py` reads files. None of these is modelled.
- NFKC normalisation and `unicodedata.category` are parameters (`UnicodeData`), not Unicode tables. Properties that depend on their concrete values, such as the fact that NFKC never produces `\r`, are not modelled.
- `str()` of a non-string, non-NaN cell (an integer, say) is not modelled: such a cell is taken to be the `Text` it prints as. `NaN` in the poem column of `clean_poem_text` is coerced to `"nan"`, as Python does.
- The pipeline's rewrites are written as functions. `CleanPoemText` reassigns the text step by step as the source does, and `DropCommentLines` keeps the source's loop, but the regular-expression engine itself is not modelled.
- The body of the row loop is split into `HandleRow`, which decides what happens to a row, and `Count`, which updates the counters. In the source both happen inline, with `continue`.
- Float results and their printing to six decimals are modelled as exact reals.
- `n` is a natural number. A negative `n` (Python's negative slicing) is not modelled.
- `_strip_edge_blank_lines` is modelled on its own, because `clean_poem_text` never calls it.
- Poems that fail to clean are not re-tried, and no property about running the cleaner twice is claimed, because it is not idempotent.
