# CORD-19 data explorer: the record-table pipeline in Dafny

This project models the data pipeline of a small Streamlit dashboard over the
CORD-19 paper metadata (`app.py`):

- It loads the paper table.
- It cleans the table: drops rows without a `publish_time`, parses the dates,
  drops rows whose date does not parse, derives `year` and
  `abstract_word_count`.
- It summarises the cleaned table: the year histogram, the top ten journals
  and sources, the title corpus for the word cloud, the minimum and maximum
  year, and the distinct journals.
- It serves an explorer that filters the cleaned table by a year range and a
  journal and shows capped previews.

Modules: three support modules (`Wrappers`, `Words`, `Counting`), then one
per stage of the script:

- `Wrappers`: `Option` (a missing cell) and `Result` (the outcome of one run).
- `Words`: Python's `str.split()` with no separator, and `" ".join`.
- `Counting`: the pandas column primitives the script uses, stated once and
  generically. These are `dropna` (`Present`), `unique` (`Distinct`),
  `value_counts` (`Tally` ordered by `SortByRank`, a stable insertion sort)
  and `head` (`Head`).
- `Cleaning`: the `Paper` and `Row` datatypes and the cleaning pass as four
  stage functions: one per `dropna`, one for the date conversion, and one that
  adds both derived columns (app.py:32 and app.py:35). The staged pass is
  proved equal to a row-by-row reference (`CleanRow`, `CleanEach`).
- `Aggregates`: the summaries.
- `Explorer`: the year and journal filters and their previews.
- `Pipeline`: one top-to-bottom pass with its two failure outcomes, and the
  worked scenarios.

Names follow Dafny style:

- `source` is the column `source_x`.
- `abstractText` is `abstract`, which is a Dafny keyword.
- `publishTime` is `publish_time`.
- `abstractWordCount` is `abstract_word_count`.

The date parser `pd.to_datetime(..., errors='coerce')` is a parameter
`parse: string -> Option<Date>`. `None` stands for NaT. pandas infers one date
format for the whole column. For a given input that fixes one per-value
function, so a per-value parameter covers it.

The Streamlit widgets' values are inputs:

- the slider's `(lo, hi)`;
- the selector's value, an `Option<string>`, which is `None` when there are no
  journals to choose from.

## Model

| member | source | states |
|---|---|---|
| `Cleaning.DropMissingTime` | app.py:27 | keeps exactly the loaded rows whose publish_time is present; never longer than its input |
| `Cleaning.ParseTimes` | app.py:30 | the publish_time column is converted cell by cell, row count unchanged; a failed parse becomes a missing date |
| `Cleaning.DropUnparsed` | app.py:31 | keeps exactly the rows whose parsed date is present, with the date unwrapped |
| `Cleaning.AddDerivedColumns` | app.py:32-35 | one output row per input row, each carrying `year` and `abstract_word_count` |
| `Cleaning.CleanRow` | app.py:27-35 | a loaded row survives cleaning if and only if its publish_time is present and parses |
| `Cleaning.CleanIsRowWise` | app.py:27-35 | the four-stage cleaning pass equals cleaning each row on its own, in row order |
| `Cleaning.CleanAppend` | app.py:27-35 | for the same date parser, cleaning only removes rows and keeps the order: cleaning `a + b` is cleaning `a` followed by cleaning `b` |
| `Cleaning.CleanSingle` | app.py:27-31 | a single loaded row is kept exactly when its publish_time is present and parses, and then it becomes its cleaned form |
| `Cleaning.CleanSpec` | app.py:27-35 | every cleaned row comes from a loaded row whose publish_time parsed to its date; its year is that date's year; its word count is its abstract's (missing counts as ""); its other columns are unchanged; every loaded row that parses is kept; never more rows than loaded |
| `Cleaning.MissingAbstractCountsZero` | app.py:35 | a missing abstract gives a word count of 0 |
| `Words.Split` | app.py:35 | `str.split()` yields only non-empty tokens free of white space |
| `Words.WordCountIsRuns` | app.py:35 | the word count equals the number of maximal non-white-space runs, counted by an independent left-to-right scan |
| `Words.SplitJoin` | app.py:35 | splitting words joined by single spaces gives back the words (split is the inverse of join on words) |
| `Words.WordCountExample` | app.py:35 | `"a b  c"` has 3 words and `""` has 0 |
| `Words.JoinSnoc` | app.py:58 | joining one more string appends one space and that string; joining one string is that string |
| `Words.JoinContains` | app.py:58 | each joined string occurs in the joined text at its offset |
| `Counting.Present` | app.py:58 | `dropna` keeps exactly the present values and never lengthens the column |
| `Counting.PresentAppend` | app.py:58 | `dropna` works cell by cell: dropping from `a + b` is dropping from `a` then from `b`, so the present values keep their order and multiplicity |
| `Counting.CountPresent` | app.py:49 | dropping missing cells leaves each value's number of occurrences unchanged |
| `Counting.Count` | app.py:40 | an occurrence count is 0 exactly when the value does not occur, and is at most the column length |
| `Counting.Distinct` | app.py:89 | `unique` lists every value of the column once and nothing else |
| `Counting.DistinctInFirstAppearanceOrder` | app.py:89 | `unique` lists values in order of first appearance |
| `Counting.TallyTotal` | app.py:40 | the counts of the distinct values add up to the column length |
| `Counting.SortByRank` | app.py:40 | the sort orders by rank and is a permutation of its input |
| `Counting.SortByRankNoDupes` | app.py:40 | sorting introduces no duplicate |
| `Counting.SortedTallySpec` | app.py:40 | a sorted tally lists each value of the column once with its number of occurrences (at least 1), nothing else, in rank order, counts summing to the column length |
| `Counting.Head` | app.py:86 | `head(n)` is a prefix of at most n rows, and is the whole table when that has fewer than n rows |
| `Aggregates.YearCountsSpec` | app.py:40 | year histogram: keys strictly ascending; each count is the number of rows of that year and at least 1; its keys are exactly the years that occur; counts sum to the table's length |
| `Aggregates.ValueCountsSpec` | app.py:49 | value_counts: distinct values, non-increasing counts, each count the number of cells with that value (at least 1), keys exactly the present values |
| `Aggregates.TopTenEntries` | app.py:49 | a top-ten list has at most 10 entries, distinct values, non-increasing counts, true counts of at least 1, and only values that occur |
| `Aggregates.TopTenLeavesOutOnlyLessFrequent` | app.py:49 | a present value missing from the top ten is left out only when ten are listed, and is no more frequent than any listed value |
| `Aggregates.TopTenSpec` | app.py:49 | both halves above together |
| `Aggregates.TopJournals` | app.py:49 | top journals: at most 10, each listed once, non-increasing counts, each the number of rows with that journal, every left-out journal no more frequent than the listed ones |
| `Aggregates.TopSources` | app.py:67 | the same for `source_x` |
| `Aggregates.TitleCorpusSnoc` | app.py:58 | the corpus is the present titles in row order joined by single spaces: a row without a title adds nothing, a title is added after one space, and with no titles the corpus is empty |
| `Aggregates.TitleCorpusContains` | app.py:58 | every present title occurs in the corpus as contiguous text |
| `Aggregates.YearBounds` | app.py:80-81 | the bounds exist exactly when the table is non-empty; every row's year lies between them and both are attained |
| `Aggregates.JournalOptionsSpec` | app.py:89 | selector options are distinct, non-missing, exactly the journals that occur, in first-appearance order |
| `Explorer.YearFilter` | app.py:83 | keeps a row if and only if `lo <= year <= hi` (inclusive at both ends), as an order-preserving subsequence |
| `Explorer.JournalFilter` | app.py:90 | keeps a row if and only if its journal equals the selection (a missing journal or selection matches nothing), as an order-preserving subsequence |
| `Explorer.YearPreview` | app.py:86 | at most 20 rows, a prefix of the year-filtered table, all in range |
| `Explorer.JournalPreview` | app.py:90 | at most 10 rows, a prefix of the journal filter of the year-filtered table, each with the selected journal and a year in range |
| `Explorer.JournalFilterAppend` | app.py:90 | the journal filter works row by row: filtering `a + b` is filtering `a` then `b`, so every matching row is kept, repeats included |
| `Explorer.YearFilterAppend` | app.py:83 | the year filter works row by row: filtering `a + b` is filtering `a` then `b` |
| `Explorer.YearFilterKeepsAll` | app.py:83 | a range covering every row's year keeps the table unchanged |
| `Explorer.FullRangeKeepsAll` | app.py:80-83 | the slider's full range from min year to max year selects every row |
| `Explorer.SelectedJournalShows` | app.py:89-90 | a journal with a row in the year range shows at least one row in the journal view |
| `Pipeline.Run` | app.py:13-90 | a run fails with FileNotFound exactly when the file is absent, and with NoRows exactly when cleaning leaves no rows; otherwise every dashboard value is the one computed from the cleaned table (histogram, both top-ten lists, title corpus, journal options, both previews), the slider's min and max are the table's attained minimum and maximum year (so they bound every row), the histogram counts sum to the table size, the top lists have at most 10 entries, and preview rows are in range |
| `Pipeline.JournalPreviewWithinYearPreview` | app.py:83-90 | each journal-view row is a year-view row unless the year view was cut at 20 |
| `Pipeline.ScenarioYears` | app.py:40-83 | rows of 2019, 2020, 2020, 2021 give the histogram 2019:1, 2020:2, 2021:1, and the range 2020-2021 keeps 3 rows |
| `Pipeline.ScenarioCovidStudy` | app.py:27-58 | a parsed paper "Covid Study" without an abstract is kept with word count 0, and the corpus is its title |

## Left out

- Reading `metadata.csv` (app.py:13-17) is file I/O. The loaded table is the
  input `loaded`, and a missing file is `None`.
- After the missing-file message the script goes on to use the unbound table
  at app.py:20 and stops there with an unhandled name error. `Pipeline.Run`
  models this as the failure `FileNotFound`, not as a crash.
- The diagnostic output at app.py:20-23 is display only: `shape`, `head`,
  `info` and the missing-value counts.
- The date-string semantics of `pd.to_datetime` (app.py:30) belong to pandas.
  Parsing is the parameter `parse`. `Date` keeps year, month and day;
  time of day and time zone are not modelled because the script reads only
  the year.
- All charts are not modelled: the bar charts, the word-cloud layout at
  800×400, and their titles and palettes (app.py:41-46, 50-55, 59-64, 68-73).
  Only the values they are drawn from are modelled.
- The word-cloud library raises an error when the corpus holds no word it
  accepts; this ends a run before the explorer is reached. That is the
  library's own behaviour and is not modelled. For an empty cleaned table
  the script stops there (app.py:59), before the minimum year at app.py:80;
  `Pipeline.Run` reports both as `NoRows`.
- The Streamlit widgets and their rerun model (app.py:76-92) are not modelled:
  the slider's bounds, its default `(2020, 2021)` and its validation, the
  selectbox's default choice, and rerunning the script on every change. The
  slider values and the selection are inputs.
- The choice of display columns (`title`, `authors`, `journal`, `year` at
  app.py:86 and `title`, `year`, `authors` at app.py:90) is not modelled; it
  is display only. The previews are modelled as whole rows.
- The order of equal counts in `value_counts` is a pandas implementation
  detail and is not asserted. The model's stable sort keeps first-appearance
  order, but no lemma promises it.
- A file that lacks a column the script uses raises a `KeyError` (for
  example `publish_time` at app.py:27 or `abstract` at app.py:35). This is
  not modelled: `RawPaper` always has all six columns, each cell possibly
  missing.
- `str(x)` at app.py:35 is applied to values that are already strings in the
  model; non-text abstract cells are not modelled.
