# Descriptive statistics profiler, pure-Python variant

This project models the core of `python_stats.py`, a small profiler for
CSV tables. The table is the list of rows that `csv.DictReader` produces.
The model covers two operations on that table.

- **`analyze_column`** profiles one column.
  - It keeps the present (non-empty) cells and counts the missing ones.
  - It calls the column *numeric* when there is at least one present cell
    and every present cell parses as a number.
  - A numeric column gets its mean, its minimum and maximum, and its sample
    standard deviation. The mean is `None` for no values. The standard
    deviation is `None` for fewer than two values.
  - Any other column is *categorical*. It gets its number of distinct values
    and its five most common values, as `Counter.most_common(5)` ranks them:
    by count, with ties in order of first appearance.
  - A row without the column raises `KeyError`.
- **The grouping kernel of `group_by_analysis`** groups the rows by a list of
  columns.
  - It builds each row's key from the grouping columns, with `"NA"` for a
    column the row lacks.
  - It collects the rows into an insertion-ordered dict.
  - It counts the groups.
  - It reports the five largest groups, using Python's stable
    `sorted(..., reverse=True)`.

Modules:

- `Wrappers`: `Option` and `Result`.
- `Table`: rows and column cells.
- `Frequencies`: counting, distinct values in first-appearance order, and
  the `Counter` tally.
- `StableSort`: a stable descending sort and `[:n]`, with the ranking
  properties of both.
- `NumericStats`: `sum`, `min`, `max`, `calculate_mean` and the variance
  under `calculate_std_dev`.
- `ColumnAnalysis`: `analyze_column`.
- `GroupBy`: the grouping kernel.

Two loops of the source are methods here: `ColumnAnalysis.CollectNumeric`
(lines 43-46) and `GroupBy.GroupRows` (lines 115-121).
`ColumnAnalysis.AnalyzeColumn` is a method as well, because it calls
`CollectNumeric`. Each method's postcondition ties its result to a
specification function, and lemmas prove the properties of that function.

`group_by_analysis` checks no column: a missing column becomes `"NA"` in the
key. Only `main` (lines 154-158) checks the headers first.

## Model

| member | source | states |
|---|---|---|
| Table.Cells | python_stats.py:40 | `row[column]` for every row, in row order, one cell per row |
| ColumnAnalysis.PresentValues | python_stats.py:40 | `len(values)` plus the number of empty cells is the row count |
| ColumnAnalysis.PresentValuesMembers | python_stats.py:40 | `values` holds only non-empty cells of the column, and every non-empty cell of every row |
| ColumnAnalysis.PresentPlusMissing | python_stats.py:50-51 | kept cells plus empty cells make up all cells, so `count + missing == len(data)` |
| ColumnAnalysis.PresentValuesKeepCountsAndOrder | python_stats.py:40 | each non-empty value occurs in `values` as often as in the column, and values keep the order of their first occurrence |
| Frequencies.Filter | python_stats.py:40 | a list comprehension's filter: the result is no longer than the input, holds only kept elements of the input and every kept element; it is as long as the input exactly when every element is kept, and is then the input itself |
| Frequencies.FilterCounts | python_stats.py:40 | a kept value occurs in the filtered list exactly as often as in the input |
| Frequencies.FilterKeepsFirstOccurrenceOrder | python_stats.py:40 | filtering keeps the relative order of the kept values' first occurrences |
| ColumnAnalysis.NumericParsesAreFilteredParses | python_stats.py:43-46 | `numeric_values` is the parses of exactly the values `is_numeric` accepts, in their order in the column |
| ColumnAnalysis.NumericParsesSnoc | python_stats.py:44-46 | one more value appends its parse exactly when it is numeric |
| ColumnAnalysis.NumericRule | python_stats.py:54 | `numeric_values and len(numeric_values) == len(values)` holds exactly when there is a value and every value is numeric; then `numeric_values` is every value parsed, in order |
| ColumnAnalysis.CollectNumeric | python_stats.py:43-46 | the loop builds exactly the `NumericParses` list |
| ColumnAnalysis.Summarize | python_stats.py:54-66 | the summary satisfies `ProfilesValues`: numeric exactly when there is a value and every value is numeric; a numeric summary satisfies `SummarizesNumbers` for every value parsed, a categorical one `SummarizesValues`; no values give a categorical summary with 0 distinct values and no most-common list |
| ColumnAnalysis.AnalyzeColumn | python_stats.py:38-68 | `KeyError(column)` exactly when some row lacks the column; otherwise count = present cells, missing = empty cells, count + missing = row count, and the summary satisfies `ProfilesValues` for the present values |
| ColumnAnalysis.SummarizeNumeric | python_stats.py:54-60 | mean is `calculate_mean`; min and max are values of the column that bound every value; min <= mean <= max; the `variance` field is the sample variance whose square root is `std_dev`, `None` exactly when there are fewer than two values |
| ColumnAnalysis.SummarizeCategorical | python_stats.py:61-66 | `unique_values` is the number of distinct present values; `most_common` is `MostCommon(values, 5)`; both are empty for no values |
| ColumnAnalysis.MostCommon | python_stats.py:66 | at most n entries, each a value of the column with its true count |
| ColumnAnalysis.MostCommonRanksTally | python_stats.py:64-66 | `most_common(n)` is a stable by-count ranking of the Counter's entries: min(n, #entries) of them, all from the Counter; each entry left out has a lower count than every listed one, or the same count and a later first appearance |
| ColumnAnalysis.MostCommonLength | python_stats.py:66 | `most_common(n)` has min(n, #distinct values) entries |
| ColumnAnalysis.MostCommonCounts | python_stats.py:64-66 | each listed value occurs in the column, its count is its true number of occurrences, and no value is listed twice |
| ColumnAnalysis.MostCommonOrder | python_stats.py:64-66 | counts are non-increasing; equal counts appear in order of the values' first occurrence |
| ColumnAnalysis.MostCommonComplete | python_stats.py:64-66 | every unlisted value of the column occurs less often than each listed value, or equally often and first appears later |
| NumericStats.Min | python_stats.py:58 | `min` returns an element of the list that is <= every element |
| NumericStats.Max | python_stats.py:59 | `max` returns an element of the list that is >= every element |
| NumericStats.SumLeftToRight | python_stats.py:28 | `sum` accumulates left to right: appending x to the list adds x to the total |
| NumericStats.SumBounds | python_stats.py:28 | a sum of values in [lo, hi] lies in [n*lo, n*hi] |
| NumericStats.MeanBounds | python_stats.py:28 | the average of values in [lo, hi] lies in [lo, hi] |
| NumericStats.MeanBetweenMinAndMax | python_stats.py:28 | the average of a non-empty list lies between its min and its max |
| NumericStats.CalculateMean | python_stats.py:24-28 | `None` exactly for the empty list; otherwise a value between min and max |
| NumericStats.SquaredDeviationsNonNegative | python_stats.py:35 | the sum of squared deviations is never negative |
| NumericStats.SampleVariance | python_stats.py:30-36 | `None` exactly when there are fewer than two values; otherwise a non-negative variance (the value under the square root) |
| Frequencies.Count | python_stats.py:64 | a count never exceeds the length and is positive exactly when the value occurs |
| Frequencies.Tally | python_stats.py:64 | `Counter(values)`: one entry per distinct value, each a value of the list with its true (positive) count, no value twice |
| Frequencies.Distinct | python_stats.py:64-65 | the Counter's keys: every element occurs once, and nothing else |
| Frequencies.FirstIndex | python_stats.py:64 | the index of a value's first occurrence, or the length when it is absent |
| Frequencies.DistinctSnoc | python_stats.py:64 | a new element extends the key list by itself; a seen one leaves it unchanged |
| Frequencies.DistinctInFirstOccurrenceOrder | python_stats.py:64 | the Counter's keys come in order of first occurrence |
| Frequencies.DistinctCardinality | python_stats.py:65 | `len(Counter(values))` is the number of distinct values |
| Frequencies.CountsOfDistinctSumToLength | python_stats.py:64 | the Counter's counts add up to the number of values |
| StableSort.Insert | python_stats.py:126 | insertion adds exactly one element (multiset) |
| StableSort.InsertSorted | python_stats.py:126 | insertion keeps a list sorted largest first |
| StableSort.SortDesc | python_stats.py:126 | `sorted(..., reverse=True)` is a permutation, sorted largest first |
| StableSort.InsertRanked | python_stats.py:126 | inserting an element that came earlier in the input than every ranked one keeps the ranking stable |
| StableSort.SortRanked | python_stats.py:126 | the sort is stable: equal keys keep their input order |
| StableSort.Take | python_stats.py:128 | `[:n]`: min(n, len) elements, the first ones of the list, in order |
| StableSort.SortDescMembers | python_stats.py:126 | `sorted` returns only elements of its input |
| StableSort.TakeOfRanked | python_stats.py:128 | `[:n]` of a stable ranking keeps min(n, len) elements from the input, still ranked; every element left out has a smaller key than each kept one, or an equal key and a later position |
| StableSort.TopOfRanking | python_stats.py:126-128 | the same for `sorted(..., reverse=True)[:n]` of a list in position order |
| GroupBy.KeyOf | python_stats.py:118 | the key has one entry per grouping column: the row's cell, or `"NA"` when the row lacks the column |
| GroupBy.Keys | python_stats.py:116-118 | one key per row, the i-th being the key of row i |
| GroupBy.RowsWithKey | python_stats.py:119-121 | `groups[key]` has no more rows than the table, and each of them has that key |
| GroupBy.RowsWithKeyMembers | python_stats.py:116-121 | a group holds only rows of the table that carry its key |
| GroupBy.RowsWithKeyCount | python_stats.py:116-121 | a group has as many rows as its key has occurrences |
| GroupBy.RowsWithKeyAppend | python_stats.py:116-121 | groups keep table order: rows of an earlier stretch come before those of a later one |
| GroupBy.Grouped | python_stats.py:115-121 | the dict's keys are exactly the keys of the rows |
| GroupBy.GroupedSnoc | python_stats.py:119-121 | one row creates its key's list on first sight and is appended to it |
| GroupBy.OrderSnoc | python_stats.py:119-120 | one row extends the dict's key order by its key exactly when the dict has no entry for it yet |
| GroupBy.GroupRows | python_stats.py:115-121 | the loop's dict is `Grouped` and its key order is the distinct keys in first-appearance order |
| GroupBy.GroupsPartitionRows | python_stats.py:115-121 | the groups partition the table: their sizes add up to the row count |
| GroupBy.GroupedHoldsEveryRow | python_stats.py:115-121 | every row is in the group of its own key, and every row of a group has that key |
| GroupBy.GroupCount | python_stats.py:123 | `len(groups)` is the number of distinct keys |
| GroupBy.Items | python_stats.py:126 | `groups.items()`: one group per distinct key, each a key of some row with all rows of that key, no key twice |
| GroupBy.ItemsInFirstAppearanceOrder | python_stats.py:119-126 | `groups.items()` comes in order of each key's first row |
| GroupBy.TopGroups | python_stats.py:126-128 | at most five groups, all from `groups.items()` |
| GroupBy.TopGroupsRanksItems | python_stats.py:126-128 | the report is a stable ranking by size of `groups.items()`, min(5, #groups) long; every group left out is smaller than each reported one, or as large with a later first row |
| GroupBy.TopGroupsLength | python_stats.py:128 | min(5, number of distinct keys) groups are reported |
| GroupBy.TopGroupsContents | python_stats.py:126-129 | each reported group is a real key with all its rows; no key is reported twice |
| GroupBy.TopGroupsOrder | python_stats.py:126-128 | sizes are non-increasing; equal sizes appear in order of the key's first row |
| GroupBy.ItemOfKey | python_stats.py:126 | every key that occurs has its group among `groups.items()` |
| GroupBy.UnreportedKeyOutranked | python_stats.py:126-128 | a key left out of the report has fewer rows than the reported group at a given place, or as many and a later first row |
| GroupBy.TopGroupsComplete | python_stats.py:126-128 | every unreported key has fewer rows than each reported group, or as many rows and a later first row |
| GroupBy.GroupByAnalysis | python_stats.py:105-129 | returns the number of distinct keys and exactly the report `TopGroups` |

## Left out

- `read_csv_file` (lines 6-14) and all file I/O: the table is a parameter. csv.DictReader fills a short row's missing cells with `None`, which a `map<string, string>` row cannot hold. A row here has a string for each of its cells or lacks the column.
- `is_numeric` and `float()` (lines 16-22, 46) are parameters `isNumeric` and `parse`: Python's float syntax is not modelled.
- Floating-point arithmetic: values are exact reals, so rounding, `nan`, `inf` and `-0.0` are not modelled.
- NumericStats.SampleVariance: returns the variance; the square root taken at line 36 is not modelled, so the standard deviation is stated only through its radicand.
- `analyze_dataset`, `main` and every `print` (lines 70-104, 107-110, 123, 127-129, 131-167): output formatting only. The report is returned as values instead.
- `group_by_analysis` reading its file (line 112): the table is a parameter.
- Python's Timsort is replaced by a stable insertion sort. Both are stable, so `StableSort.SortRanked` pins down the same result.
- `pandas_stats.py` and `polars_stats.py`: other front ends over the same table, not part of this model.
