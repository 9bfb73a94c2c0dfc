# Library statistics dashboard: a Dafny model of its filtering and aggregates

The dashboard (`lib.py`) loads a table of book-loan records. The user narrows it
with a sidebar: an issue-date range slider and one multi-select for each of the
categorical columns `genre`, `borrower_type`, `student_batch`, `student_major`
and `borrower_age_group`. The page then shows four key metrics of the filtered
view and charts built from frequency counts of its columns.

This project models the part of that script that is logic rather than
presentation:

- **Filter engine** (`filters.dfy`). The loaded table is a value
  `Table(columns, rows)`: the set of columns present and the rows in file order.
  Every cell is an `Option`, and `None` stands for a missing value (NaN/NaT).
  Dates are day numbers. `ApplyFilters` runs the filter stage as the script does:
  - it starts from a copy of the rows;
  - when the table has `issue_date`, it applies the inclusive date window;
  - it then loops over the five categorical columns in their fixed order and
    narrows the rows by each present column whose selection is non-empty.

  Its loop invariant ties the rows after `i` steps to the rows passing the date
  predicate and the first `i` categorical predicates. Its postcondition equates
  the result with `FilteredView`. That function is the declarative statement: a
  row is kept iff it passes the date predicate AND every categorical predicate.
  Lemmas cover the sidebar defaults (full date range, every observed value
  selected), the empty-selection rule and columns the table lacks. The slider
  pair and the multi-select outputs are plain inputs.
- **Metrics** (`metrics.dfy`). `ComputeMetrics` returns four numbers: Total Books
  Issued, Unique Borrowers (`nunique`, which ignores missing ids), Books Not
  Returned (missing `return_date`) and Late Returns. Late Returns counts rows
  whose `overdue_status` contains `Late` or `Overdue`, case-sensitive; a missing
  status does not match. The substring test is proved equivalent to "occurs at
  some offset".
- **Frequency counts** (`counts.dfy`). `ValueCounts` models pandas'
  `value_counts`:
  - it tallies the present values in order of first appearance;
  - it sorts the tally by count, largest first, with an insertion sort;
  - each value appears once, and its count is the number of rows holding it;
  - the counts add up to the number of non-missing cells.

  `TopTitles` is `head(10)` of the title counts. `Distribution` gives the genre
  and borrower-type counts. Each of these is absent when the view is empty or
  lacks its column, because the script skips that chart.
- **One run of the page** (`dashboard.dfy`). `RenderPage` puts the pieces in
  the script's order: the metrics first, then the chart data, which is reached
  only when the metrics were computed.

`seqs.dfy` holds the sequence operations the model is built on. `Filter` stands
for boolean-mask selection: it keeps order, and an element is kept iff it
satisfies the mask; `FilterMultiplicity` shows it keeps every copy of a
satisfying element and none of the others. Lemmas show that two masks applied in turn equal their
conjunction, and that masks agreeing on every row select the same rows.
`lending.dfy` holds the record, column and table types.

Three behaviours of `lib.py` worth knowing:

- `lib.py:72-74` reads `borrower_id`, `return_date` and `overdue_status`
  without checking that they exist. So `ComputeMetrics` returns
  `KeyError(column)` for the first of those three that the view lacks. The
  error is not caught, so the run ends there: `RenderPage` then yields no
  chart data, even for charts whose own column is present.
- `value_counts` drops missing cells. So the genre counts add up to the number
  of rows with a genre, not to the view's row count. `DistributionCoversView`
  proves they add up to the row count when every row has a genre.
- The date mask compares missing issue dates as false. So when the table has
  `issue_date`, a row without an issue date is never in the view, even with the
  slider at its default. `DefaultRangeKeepsDatedRows` and
  `DefaultFiltersKeepTable` state exactly this.

## Model

| member | source | states |
|---|---|---|
| `Seqs.Filter` | lib.py:42-45 | mask selection keeps order (a subsequence), is no longer than its input, and holds a row iff the row is in the input and satisfies the mask |
| `Seqs.FilterMultiplicity` | lib.py:42-45 | selection keeps every copy of a row that satisfies the mask, duplicates included, and no copy of any other row |
| `Seqs.FilterThenFilter` | lib.py:56-65 | narrowing by one mask and then another equals one selection by their conjunction (filters compose by AND) |
| `Seqs.FilterSameMask` | lib.py:42-45 | masks that agree on every row of the table select the same rows |
| `Seqs.FilterAppend` | lib.py:73-74 | one more row extends a selection by that row exactly when it satisfies the mask |
| `Filters.DateWindow` | lib.py:42-45 | keeps exactly the rows whose issue date is present and lies in the closed range `[lo, hi]`: both bounds are kept, and a missing date is dropped |
| `Filters.CategoryFilter` | lib.py:64-65 | an empty selection leaves the rows unchanged; a non-empty one keeps exactly the rows whose cell is in the selection, in order |
| `Filters.FilteredView` | lib.py:30-65 | the view keeps the table's columns, is an order-preserving subsequence no longer than the table, and holds a row iff it passes the date predicate and every categorical predicate |
| `Filters.ApplyFilters` | lib.py:30-65 | the step-by-step filter stage (date window, then one narrowing per present column in the fixed order) produces exactly `FilteredView` |
| `Filters.DateStage` | lib.py:33-45 | after the optional date step the rows are those passing the date predicate alone |
| `Filters.CategoryStage` | lib.py:56-65 | one pass of the column loop adds exactly that column's predicate to the conjunction; an absent column or an empty selection adds none |
| `Filters.AllStages` | lib.py:48-65 | after the five columns in filter order, the conjunction covers every categorical column |
| `Filters.EarliestIssue` | lib.py:34 | the slider's lower default is a present issue date no later than any other, and is absent only when no row has an issue date |
| `Filters.LatestIssue` | lib.py:35 | the slider's upper default is a present issue date no earlier than any other, and is absent only when no row has an issue date |
| `Filters.ObservedValues` | lib.py:58 | a multi-select offers exactly the values that occur in its column, missing included |
| `Filters.DefaultRangeKeepsDatedRows` | lib.py:34-45 | with the slider at (earliest, latest) the date window removes no row that has an issue date |
| `Filters.DefaultFiltersKeepTable` | lib.py:33-65 | with every widget at its default, the view is the whole table, less the rows without an issue date when that column exists |
| `Filters.EmptySelectionDisablesFilter` | lib.py:64-65 | selecting nothing for a column gives the same view as a table without that column |
| `Filters.AbsentColumnIgnored` | lib.py:56-57 | the selection for a column the table lacks does not affect the view |
| `Metrics.ContainsAtOffset` | lib.py:74 | the pattern test holds iff the word starts at some offset of the status |
| `Metrics.LateMeansSubstring` | lib.py:74 | a row counts as late iff its status is present and contains `Late` or `Overdue` at some offset |
| `Metrics.BorrowerIds` | lib.py:72 | the distinct present borrower ids: a value is in the set iff some row has it, and there are no more of them than rows |
| `Metrics.NotReturned` | lib.py:73 | Books Not Returned is at most the number of rows |
| `Metrics.LateReturns` | lib.py:74 | Late Returns is at most the number of rows |
| `Metrics.ComputeMetrics` | lib.py:70-75 | KeyError for the first of `borrower_id`, `return_date`, `overdue_status` that the view lacks; otherwise the four values are the row count, the number of distinct present ids (`BorrowerIds`), the rows without a return date (`NotReturned`) and the late rows (`LateReturns`), each of the last three at most Total; an empty view gives all zeros |
| `Metrics.NotReturnedCountsMissing` | lib.py:73 | a further row adds one to Books Not Returned exactly when its return date is missing |
| `Metrics.LateReturnsCountsLate` | lib.py:74 | a further row adds one to Late Returns exactly when it is late |
| `Counts.Tally` | lib.py:121 | one entry per distinct present value, whose count equals that value's number of rows; counts add up to the non-missing cells |
| `Counts.SortByCount` | lib.py:116 | the sorted list has non-increasing counts and is a permutation of the tally, with the same keys and total |
| `Counts.ValueCounts` | lib.py:121 | largest count first, each present value exactly once, each count equal to its number of rows and positive, and the counts add up to the non-missing cells |
| `Counts.Head` | lib.py:116 | `head(n)` is the first `min(n, length)` entries |
| `Counts.TopTitles` | lib.py:107-116 | absent for an empty view or without `book_title`; otherwise at most 10 entries, non-increasing, distinct titles, each count equal to its number of rows |
| `Counts.TopTitlesAreTop` | lib.py:116 | a title of the view that is left out of the list means the list is full and every listed title is borrowed at least as often |
| `Counts.Distribution` | lib.py:120-126 | absent for an empty view or a missing column; otherwise the column's counts, non-increasing, each value once, adding up to the rows whose cell is not missing |
| `Counts.DistributionCoversView` | lib.py:120-122 | when every row of the view has a value in the column, the counts add up to the view's row count |
| `Dashboard.RenderPage` | lib.py:67-126 | the run stops with the first of `borrower_id`, `return_date`, `overdue_status` the view lacks, and then shows no chart; otherwise the metrics are `ComputeMetrics`' and the chart data is exactly `TopTitles` and the genre and borrower-type `Distribution`s of the view, each present iff the view is non-empty and has that chart's column, the title chart at most 10 entries |
| `Dashboard.ChartsNeedMetricColumns` | lib.py:70-116 | the top-titles chart has data iff the view is non-empty and has `book_title` and all three columns the metrics read |

## Left out

- Page setup, titles, sidebar widgets, metric tiles, the data-table preview and the download button (lib.py:8-14, 29, 36-41, 59-63, 68-69, 77-78, 135-136, 147-152). These are presentation. The slider pair and the multi-select outputs are parameters; nothing constrains them to the offered bounds or options.
- Loading the CSV and parsing its dates (lib.py:17-24). This is file input and library parsing, so the table is given already typed. Type inference is not modelled. This includes the case where an all-empty `overdue_status` column is read as numbers and `.str` would fail.
- The plotting helpers and the matplotlib/seaborn calls (lib.py:81-104). These only render. The model stops at the data each chart receives.
- Monthly issue volume (lib.py:110-113). It needs calendar months from timestamps and pandas' filling of empty months, so it is not modelled.
- Average loan duration per genre (lib.py:129-132). It is a floating-point mean followed by a sort. `days_on_loan` is carried in the row but not aggregated.
- Excel export (lib.py:138-146). This is spreadsheet serialisation in a foreign library.
- Caching with `st.cache_data` (lib.py:17, 138). Memoisation does not change results.
- The re-run of the whole script after each widget change. One run is `ApplyFilters` followed by `RenderPage` on its result; the sequence of runs is not modelled.
- `Counts.ValueCounts`: among equal counts the model keeps first-appearance order, but no contract states any order among ties. pandas does not promise one either.
- Streamlit's behaviour when a slider bound is missing is not modelled. This happens when no row has an issue date: `EarliestIssue` and `LatestIssue` are then absent.
