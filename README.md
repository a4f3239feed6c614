# Calgary community immigration figures — a Dafny model

`main.py` downloads the community profile PDF of every Calgary community,
reads two figures from page 8 of each, and appends at most one CSV row
per community. Three parts of it hold logic, and this project models them and
proves properties about them:

- **`data_normalize`** (module `Normalizer`, `normalize.dfy`). It drops
  non-ASCII characters. It then either builds URL slugs (lower case, each
  run of space, `/` or `.` becomes one `-`) or upper-case labels, split
  into non-empty lines. If a requested list is empty, it falls back to the
  filtered text itself. The two modes are zipped index by index, so the
  central result is that slug `i` and label `i` come from the same source
  line.
- **`extract_immigration_data`** (module `Extract`, `extract.dfy`). For
  each of the look-behinds `Immigrants ` and `immigrants `, it takes the
  leftmost run of digits and commas that directly follows the look-behind
  and removes the commas. When nothing matches, the field is `N/A`. The
  page text `name` yields an empty string instead of two fields. The
  search is specified by a "leftmost match, greedy run" predicate and
  implemented by a scanning method proved against it.
- **The aggregation rules** (module `Aggregate`, `aggregate.dfy`). These
  cover the CSV header, the row format and its append condition, the job
  outcome of `fetch_pdf_and_append`, the `max_workers` formula, and the
  mode check of `edit_csv`. The CSV file is a class `Table` whose `rows`
  sequence the methods update. A compile run truncates the table to the
  header and runs one job per (slug, label) pair. The model runs the jobs
  in list order, and a lemma shows that any other completion order leaves
  the same rows.

`Wrappers` (`wrappers.dfy`) holds the `Option` type. The page text of each
community is an input to the model, `fetch: string -> Option<string>`,
keyed by slug. `None` means page 8 could not be read: no PDF on disk, an
unreadable PDF, or too few pages.

Two behaviours of the code are easy to miss:

- A job whose PDF is missing or unreadable does not produce an `N/A,N/A`
  row, and it does not stop the run. `get_pdf_page` raises inside the
  worker. The pool stores the exception, and the `as_completed` loop never
  calls `result()`, so the job appends nothing and the other jobs go on
  (`JobOutcome` returns `Crashed`).
- Not every community gets a row. A row is appended only when both fields
  are non-empty. A match made only of commas strips to the empty string
  and suppresses the row (`CommaOnlyFieldIsEmpty`, `JobRowReadsBack`).
  Fields that read `N/A` do produce a row (`NoFiguresStillGiveRow`).

## Model

| member | source | states |
|---|---|---|
| Normalizer.AsciiOnly | main.py:41 | the filtered text keeps exactly the ASCII characters of the input and is no longer than it |
| Normalizer.AsciiOnlyKeepsAscii | main.py:41 | text that is already ASCII passes the filter unchanged |
| Normalizer.AsciiOnlyConcat | main.py:41 | filtering distributes over concatenation, so the kept characters stay in their original order |
| Normalizer.AsciiOnlyIdempotent | main.py:41 | filtering twice is the same as filtering once |
| Normalizer.ToLower | main.py:44 | lower-casing keeps the length, leaves every character that is not an upper-case ASCII letter where it was, and turns each upper-case letter into its lower-case partner (code point plus 32) |
| Normalizer.ToUpper | main.py:45 | upper-casing keeps the length, leaves every character that is not a lower-case ASCII letter where it was, and turns each lower-case letter into its upper-case partner (code point minus 32) |
| Normalizer.LowerOfUpper | main.py:44-45 | lower-casing an upper-cased text gives the lower-cased text: case mapping forgets an earlier upper-casing |
| Normalizer.HyphenateFromConcat | main.py:43 | the left-to-right substitution of `[ \/.]+` by `-` on `a + b` is its result on `a` followed by its result on `b`, resumed in the state `a` left |
| Normalizer.HyphenateFromChars | main.py:43 | the substitution emits only `-` and non-separator characters of its input, and outside a run empties no non-empty text |
| Normalizer.Hyphenate | main.py:43 | the substituted text holds hyphens and the non-separator characters of the input only, and is empty exactly when the input is |
| Normalizer.HyphenateKeepsPlainText | main.py:43 | text without a space, `/` or `.` is left unchanged |
| Normalizer.HyphenateFromRunTail | main.py:43 | once a run has produced its `-`, the rest of the run produces nothing |
| Normalizer.HyphenateRun | main.py:43 | a maximal run of separators, however long, becomes exactly one `-` |
| Normalizer.HyphenateConcat | main.py:43 | the substitution works piecewise on any split that does not cut a run of separators in two |
| Normalizer.HyphenateWord | main.py:43 | a word followed by a single separator keeps the word and turns the separator into `-` |
| Normalizer.HyphenateTwoWords | main.py:43 | two separator-free words around one separator become the two words joined by `-` |
| Normalizer.LineLength | main.py:42 | the first line ends at the first newline or at the end of the text |
| Normalizer.Lines | main.py:42-45 | `re.findall(r'.+')` yields only non-empty pieces, none of which holds a newline |
| Normalizer.LinesOfLine | main.py:42-45 | a text without newline is one line if non-empty and none if empty |
| Normalizer.LinesJoin | main.py:42-45 | the lines of `a + "\n" + b` are the line `a`, if non-empty, followed by the lines of `b` |
| Normalizer.Render | main.py:42-45 | a mode maps empty to empty only, never creates a newline, and URL mode leaves no upper-case letter or separator while label mode keeps the length, leaves no lower-case letter and changes nothing but lower-case letters |
| Normalizer.SlugOfLabel | main.py:42-45 | the slug of a display label is the slug of the original text, so both normalisations of a name agree on its slug |
| Normalizer.RenderJoin | main.py:42-45 | both modes keep newlines in place: rendering `a + "\n" + b` renders `a` and `b` on either side of the newline |
| Normalizer.RenderLinesConcat | main.py:42-45 | rendering a list of lines distributes over concatenation |
| Normalizer.RenderLineOf | main.py:42-45 | rendering and splitting commute on a single line |
| Normalizer.LinesRenderSplit | main.py:42-45 | splitting a rendered text at its first newline matches splitting the source text there |
| Normalizer.LinesRender | main.py:42-45 | the lines of the rendered text are the rendered lines of the text: one entry per non-empty source line, in order, in both modes |
| Normalizer.Normalize | main.py:40-47 | the result is the URL list if URL mode was requested and there is a line, otherwise the label list if label mode was requested and there is a line, otherwise the filtered text; list items are non-empty and newline-free, and URL items hold no upper-case letter or separator |
| Normalizer.ForestLawnDoverSource | main.py:41-42 | the name `Forest Lawn/Dover` is a single source line |
| Normalizer.ForestLawnDoverAscii | main.py:41 | the name `Forest Lawn/Dover` is all ASCII |
| Normalizer.ForestLawnDoverOneLine | main.py:42 | the name `Forest Lawn/Dover` is one line |
| Normalizer.ForestLawnDoverLower | main.py:44 | the name lower-cases to `forest lawn/dover` |
| Normalizer.LawnDoverHyphens | main.py:43 | `lawn/dover` becomes `lawn-dover` |
| Normalizer.ForestLawnDoverHyphens | main.py:43 | `forest lawn/dover` becomes `forest-lawn-dover` |
| Normalizer.ForestLawnDoverUpper | main.py:45 | the name upper-cases to `FOREST LAWN/DOVER` |
| Normalizer.ForestLawnDoverSlug | main.py:42-47 | URL mode turns the name into the list `["forest-lawn-dover"]` |
| Normalizer.ForestLawnDoverLabel | main.py:45-47 | label mode turns the name into the list `["FOREST LAWN/DOVER"]` |
| Normalizer.ForestLawnDover | main.py:40-47 | the name gives the slug list `["forest-lawn-dover"]` and the label list `["FOREST LAWN/DOVER"]` |
| Extract.FirstMatch | main.py:95-99 | `re.search` with a look-behind: the returned position matches and no earlier one does, and `None` means no position matches |
| Extract.RunEnd | main.py:95-96 | the greedy `[\d,]+` run is all digits and commas and cannot be extended |
| Extract.StripCommas | main.py:101-102 | removing commas never lengthens the text, and its characters are exactly the text's characters other than `,` |
| Extract.StripCommasConcat | main.py:101-102 | removing commas distributes over concatenation |
| Extract.StripCommasOfRun | main.py:101-102 | a run of digits and commas loses its commas and keeps only digits, and is emptied exactly when it held only commas |
| Extract.StripCommasKeepsDigits | main.py:101-102 | a comma-free string passes `.replace(',', '')` unchanged |
| Extract.ImmigrationData | main.py:92-106 | the extractor gives the empty string exactly for the text `name`; otherwise each figure is `N/A` exactly when its expression matches nowhere in the text, and holds digits only when it is not `N/A` |
| Extract.Field | main.py:95-102 | a field is `N/A` exactly when no position matches, and otherwise holds digits only, so it is never `N/A` |
| Extract.FieldAtLeftmostMatch | main.py:98-102 | the field is the comma-free run at the leftmost match, however that match and run are found |
| Extract.CommaOnlyFieldIsEmpty | main.py:101-102 | a match made only of commas yields the empty string, not `N/A` |
| Extract.PrefixesNeverShareAMatch | main.py:95-99 | no position satisfies both look-behinds, so the two lookups cannot pick up the same number |
| Extract.FieldHasNoComma | main.py:101-102 | no field contains a comma |
| Extract.ScanField | main.py:98-102 | the scanning loop returns the specified field |
| Extract.ScanImmigrationData | main.py:92-106 | the scanner returns `""` for the text `name` and otherwise the two specified fields |
| Extract.SampleHasNoEarlyNonImmigrantsMatch | main.py:96-99 | in `Immigrants 1,234 Non-immigrants 5,678` nothing before the second number follows `immigrants ` |
| Extract.ThousandsSeparatorDropped | main.py:101-102 | a thousands separator between two comma-free groups is removed and the digits close up |
| Extract.FieldOfGroupedRun | main.py:95-102 | when the leftmost match is two comma-free digit groups around one comma, the field is the two groups closed up |
| Extract.SampleImmigrantsRun | main.py:95-98 | in the sample page `Immigrants ` is followed at position 11 by the complete run `1,234` |
| Extract.SampleNonImmigrantsRun | main.py:96-99 | in the sample page `immigrants ` is followed at position 32 by the complete run `5,678` |
| Extract.SampleImmigrants | main.py:95-101 | the sample page gives the first field `1234` |
| Extract.SampleNonImmigrants | main.py:96-102 | the sample page gives the second field `5678`, since the capital `I` of `Immigrants 1,234` does not match |
| Extract.SampleImmigrationData | main.py:92-106 | the extractor returns `["1234", "5678"]` on the sample page |
| Aggregate.WorkerCount | main.py:128 | the worker count is at most half the cores, at most the number of communities, at most 10, and equal to one of the three |
| Aggregate.WorkerCountRefused | main.py:128-130 | the pool is refused exactly when there are fewer than two cores or no community |
| Aggregate.SingleCoreRefused | main.py:127-130 | on one core the count is 0, which the pool refuses |
| Aggregate.PoolSize | main.py:128-130 | the corrected count is accepted by the pool, at most 10, and keeps the other caps unless it is the floor of one worker |
| Aggregate.PoolSizeAgrees | main.py:128 | wherever the original count is accepted, the corrected count equals it |
| Aggregate.LastComma | main.py:83 | the position returned holds a comma and no comma follows it; `None` means the text has no comma |
| Aggregate.FormatRow | main.py:83 | a row is the three fields plus two commas long, and when the non-immigrant figure holds no comma its last comma is the one just before that figure |
| Aggregate.SplitRow | main.py:83 | a row read back by its last two commas reassembles into the same line, with comma-free fields |
| Aggregate.SplitFormatRow | main.py:83 | a row with comma-free fields reads back as its label and its two fields, even when the label holds commas |
| Aggregate.JobOutcome | main.py:70-94 | a job raises exactly when page 8 cannot be read or its text is `name` |
| Aggregate.Job | main.py:130-141 | the job submitted for a (slug, label) pair raises exactly when the page fetched for the slug is missing or reads `name` |
| Aggregate.Appended | main.py:84-85 | jobs completing one after another append at most one line each |
| Aggregate.JobRowReadsBack | main.py:70-85 | on a readable page a row is appended exactly when both fields are non-empty, and it reads back as the label and the two fields |
| Aggregate.NoFiguresStillGiveRow | main.py:82-85 | a readable page without either figure still appends `label,N/A,N/A` |
| Aggregate.Entries | main.py:119-122 | a list result is iterated item by item, and a plain string result character by character, as one-character strings |
| Aggregate.Zip | main.py:142 | the zip is as long as the shorter list and pair `i` holds entry `i` of each list |
| Aggregate.Communities | main.py:119-142 | the zip loses nothing: slug list and label list have equal length, and pair `i` holds both forms of source line `i` (or character `i` of the filtered text when there is no line) |
| Aggregate.AppendedConcat | main.py:84-85 | two batches of jobs completing one after the other append their rows one after the other |
| Aggregate.AppendedLast | main.py:84-85 | one more completing job appends its row after the others |
| Aggregate.AppendedAtMostOnePerJob | main.py:82-85 | each job appends at most one row, and there are as many rows as jobs only when every job yields a row |
| Aggregate.AppendedLines | main.py:82-85 | a line is in the table exactly when some job yields it as its row |
| Aggregate.AppendedOrderIndependent | main.py:130-146 | jobs with the same outcomes, completing in another order, leave the same multiset of rows |
| Aggregate.OutcomesConcat | main.py:131-143 | the job outcomes of two batches of communities are the outcomes of each batch, one after the other |
| Aggregate.OutcomesOfReordering | main.py:131-143 | reordering the communities reorders their outcomes the same way |
| Aggregate.RowsStep | main.py:84-85 | the next job appends its row after those of the jobs before it |
| Aggregate.RowsOrderIndependent | main.py:130-146 | whatever order the pool completes the jobs in, the table holds the same multiset of rows |
| Aggregate.RowsPerCommunity | main.py:82-85 | the table gains at most one row per community, and one each only when every job yields a row |
| Aggregate.RowsAreTheJobsLines | main.py:82-85 | the rows are exactly the lines of the jobs that yield one |
| Aggregate.Edited | main.py:27-31 | a mode other than `w` or `a` is refused; `w` leaves only the new line, `a` keeps the old lines and puts the new one last |
| Aggregate.WriteForgetsOldRows | main.py:124 | a write in mode `w` gives the same table whatever the table held before |
| Aggregate.Table.constructor | main.py:30 | a table starts with whatever a previous run left in the file |
| Aggregate.Table.EditCsv | main.py:27-31 | the mode check happens before anything is written; a refused mode leaves the table unchanged |
| Aggregate.Table.AppendJob | main.py:70-85 | one job appends its row, if any, and its outcome is the specified one |
| Aggregate.Table.RunJobs | main.py:130-146 | running the jobs in list order appends exactly the specified rows |
| Aggregate.Table.Compile | main.py:119-146 | a compile run leaves the header followed by the rows of every community, and uses the corrected pool size |

## Left out

- HTTP fetching with `requests`, `raise_for_status` and its error messages (main.py:52-67) are not modelled. They are network I/O. The page text is a parameter, `fetch`.
- PDF text extraction with `PdfReader` (main.py:88-90) is not modelled. It is a foreign library. `fetch` returns the text of page 8, or `None` when it cannot be read.
- File reads and writes, the cache check `os.path.exists`, and `clear_directory` (main.py:21-23, 30-31, 35-37, 52-53, 59-60, 84-85, 148-149) are not modelled. They are file-system I/O. The CSV file is the `rows` field of `Table`, one entry per line.
- The thread pool and `as_completed` (main.py:130-146) are not modelled as threads. `Table.RunJobs` runs the jobs in list order, and `RowsOrderIndependent` covers every other completion order. That each append is atomic is assumed, not modelled.
- The ANSI colour helpers, the log messages and the timer (main.py:10-17, 61-66, 72-80, 112, 151-153) are not modelled. They are presentation and wall-clock only.
- The interactive menu `main` (main.py:155-190) is not modelled. It is terminal I/O.
- Extract.IsDigit: Python's `\d` also matches non-ASCII decimal digits. The model accepts only `0` to `9`.
- Extract.Field: the `except AttributeError` branch (main.py:104-105) is not modelled. It cannot run, because `.group()` is only called on a match.
- Normalizer.Lines: only `\n` ends a line, as with Python's `.`. A `\r` stays inside its line.
- Aggregate.Table.Compile: the as-written count `WorkerCount` makes the pool raise `ValueError` when there is one core or no community. `Compile` uses the corrected `PoolSize` instead (see Findings).

## Findings

| source | as written | input that shows it | evidently intended | confidence | as-written member | corrected member |
|---|---|---|---|---|---|---|
| main.py:128-130 | `max_workers = min(num_cores // 2, num_communities, 10)` is passed straight to `ThreadPoolExecutor`, which raises `ValueError` unless `max_workers > 0` | a machine where `cpu_count()` is 1 (1 // 2 is 0), or an empty community list | at least one worker, so a single-core machine still compiles and an empty list gives a header-only table | medium, not executed | Aggregate.SingleCoreRefused | Aggregate.PoolSize |
