# Stock screening table: a verified model

The dashboard's "STOCK RECOMMEND BY CANSLIM" tab shows a table of stocks with
predicted ratings (`Rate`, `Pivot Price (Buy)`, `Target Price (Sell)`,
`Stop Loss Price`, `Predict`, keyed by `Symbol`). Before it is shown, the
table goes through a small pipeline in `app.py`:

1. columns whose name starts with `Unnamed` (index columns left by an earlier
   CSV export) are dropped;
2. the numeric columns other than `Symbol` are offered as filters;
3. for each selected filter, in order, a slider offers the range from the
   minimum to the maximum of that column *in the rows still kept*, and rows
   outside the chosen inclusive range, or with a missing value, are dropped;
4. the display columns the table has are kept, in display order;
5. the rows are sorted by `Rate`, highest first, missing values last.

The model is written in Dafny and proved by its verifier.

- `seqs.dfy` (module `Seqs`): `Option`, subsequences, distinctness, and
  `Where`, the list comprehension with a condition that every selection of
  the pipeline is an instance of, with lemmas about combining conditions.
- `frame.dfy` (module `Frame`): the table. A cell is a number, a text or a
  missing value (NaN); a row maps column names to cells; a table has its
  column names in order, the set of numeric columns and its rows.
  `WellFormed` says names are unique and every row has exactly the table's
  columns.
- `columns.dfy` (module `Columns`): steps 1, 2 and 4 as functions.
- `range_filter.dfy` (module `RangeFilter`): step 3. The loop is a method
  over a local sequence of rows. It returns the steps it applied (column and
  range), and its contract says each range is the slider's value over the
  rows kept by the steps before it. The lemmas are about the steps as
  fixed ranges: they keep exactly the rows passing them all, in order; they
  are idempotent; their order does not matter; and a slider left at its
  default drops only the rows with a missing value.
- `rank_sort.dfy` (module `RankSort`): step 5 as a function proved sorted and
  a permutation, and a lemma that the shown `Rate` column does not depend on
  how ties are ordered.
- `dashboard.dfy` (module `Dashboard`): the whole pipeline for one rerun of
  the page, with the multiselect's value as an input. Its `KeyError` outcome
  is what the sort at app.py:49 raises on its own when the table has no
  `Rate` column; on the real page the multiselect at app.py:27 fails first
  in that case (see "Left out").

The widgets are inputs. The multiselect's value is `selected`. The sliders'
values are `chosen`, a map from column name to range, since each slider is
keyed by its column. A column missing from `chosen` is a slider left at its
default `(min, max)`. When the rows kept have no value in the column, the
bounds are NaN; the model writes that range as `None` and keeps no row,
because every comparison with NaN is false.

Two behaviours of the code shape the contracts:

- each slider's default range is the `(min, max)` of the rows still kept
  (app.py:35-36), taken from `filtered_df` after the earlier sliders have
  narrowed it, not from the unfiltered table;
- pandas' default `sort_values` (app.py:49) is not stable, so the model
  promises only sortedness and a permutation, not the order among ties.

## Model

| member | source | states |
|---|---|---|
| `Columns.DropUnnamed` | app.py:8 | The kept columns are exactly those whose name does not start with `Unnamed`, in their original order. The numeric set loses the same names. Every row keeps its other cells unchanged. A well-formed table stays well formed. |
| `Columns.NumericColumns` | app.py:21 | The result is exactly the numeric columns, in table order, with no duplicates when the names are unique. |
| `Columns.AvailableVars` | app.py:22 | The filter options are exactly the numeric columns other than `Symbol`, in table order. |
| `Columns.DisplayColumns` | app.py:46 | The shown columns are exactly the names of the default display list that the table has, in display-list order and without duplicates. Absent names are skipped. `Rate` is shown iff the table has it. |
| `Columns.Project` | app.py:49 | `t[names]` has the columns `names` in that order and the same rows in the same order. Each row keeps exactly its cells in those columns. Well-formedness is preserved when the names are unique. |
| `RangeFilter.KeepStep` | app.py:43 | One narrowing keeps exactly the rows that satisfy `Passes` (value defined and within the inclusive range; a missing value or NaN bounds fail), as a subsequence of the input. |
| `RangeFilter.ApplySteps` | app.py:33-43 | After a series of narrowings, a row is kept iff it was an input row and passes every step. |
| `RangeFilter.ColumnMin` | app.py:35 | The minimum ignores missing values. It is absent iff no row has a value, and otherwise it is a value of some row and no larger than any row's value. |
| `RangeFilter.ColumnMax` | app.py:36 | The maximum ignores missing values. It is absent iff no row has a value, and otherwise it is a value of some row and no smaller than any row's value. |
| `RangeFilter.SelectedNumeric` | app.py:33-34 | The loop acts on exactly the selected variables that are numeric columns, in selection order. |
| `RangeFilter.OptionsAreFiltered` | app.py:22-34 | If every selected variable was one of the offered options, the numeric guard skips none of them. |
| `RangeFilter.Narrow` | app.py:35-43 | One pass of the loop body produces the step whose range is `SliderValue`: the slider's chosen value, or else `DefaultRange`, the `(min, max)` of the given rows (NaN bounds, written `None`, when no row has a value). It keeps exactly the rows that pass it (`KeepStep`). |
| `RangeFilter.Filter` | app.py:30-43 | The loop applies one step per selected numeric column, in order. Each step's range is the slider's chosen value, or else the `(min, max)` of the rows kept so far. The result is those steps applied in turn. It is a subsequence of the input, and its rows are exactly the input rows that pass every step. With no selection the table is unchanged. |
| `RangeFilter.ApplyStepsIsKeepAll` | app.py:33-43 | Applying the steps one after the other keeps the same rows as one pass that tests all ranges at once. The result is a subsequence of the input. |
| `RangeFilter.ApplyStepsIdempotent` | app.py:43 | Re-applying the same fixed ranges to the filtered rows changes nothing. |
| `RangeFilter.ApplyStepsOrderFree` | app.py:33-43 | Two step lists with the same set of ranges keep the same rows, in any order and with any repetition. |
| `RangeFilter.DefaultStepKeepsDefined` | app.py:35-43 | A step whose slider is left at the default `(min, max)` of the current rows drops exactly the rows with a missing value. |
| `RangeFilter.UntouchedSlidersDropOnlyMissing` | app.py:33-43 | If no slider was moved, the whole loop keeps exactly the rows that have a value in every filtered column, even though each default is recomputed from the narrowed rows. |
| `RankSort.SortDescending` | app.py:49 | The result is a permutation of the rows. Its values in the sort column never increase, and missing values come last. |
| `RankSort.SortedKeysAgree` | app.py:49 | Any two sorted arrangements of the same rows have the same sort-column value at every position. So the shown `Rate` column is determined even though the sort is not stable. |
| `Dashboard.Screen` | app.py:8-49 | The filtered rows are the cleaned table narrowed as `Filter` promises. With `selected` as a free input, the sort step at app.py:49 gives a `KeyError` on `Rate` iff the cleaned table has no `Rate` column. Otherwise the shown table has the display columns and its rows are a permutation of the projected filtered rows, sorted by `Rate` descending. It is well formed when the loaded table was. |

## Left out

- Page setup, title, tabs, headers, layout columns, the multiselect and slider widgets, the CSS block and the `st.dataframe` rendering (app.py:10-17, 24-28, 37-42, 47-48, 50-72): user interface only; the widgets' values are inputs.
- Loading the CSV file (app.py:5): file I/O; the loaded table is an input.
- Type inference and `float(...)` conversion (app.py:21, 35-36): the numeric columns are given as a set, and numbers are exact reals, so rounding and infinities are not modelled.
- The slider widget's own checks (rejecting NaN bounds, or a kept value outside a new `(min, max)`): the chosen range is taken as given.
- The multiselect's default `["Rate"]` (app.py:27): widget behaviour; `selected` is an input.
- Dashboard.Screen: Streamlit's multiselect rejects a default that is not among its options, so when the cleaned table has no numeric `Rate` column (absent, or holding text) the page stops at app.py:27 and never reaches the sort; the model does not capture that failure, and its `KeyError` outcome models app.py:49 on its own.
- The list `sliders` (app.py:32): it is created and never used.
- `reset_index(drop=True)` and `hide_index` (app.py:49-51): they affect only how the index is displayed.
- Duplicate column names, and names that are not strings: rows are maps from names, so `WellFormed` assumes unique string names.
- RankSort.SortDescending: a text value in the sort column is ordered like a missing value; pandas would sort a text column as text.
- RankSort.SortDescending: the order among rows with equal `Rate` is the insertion sort's, one of those pandas may produce; only sortedness and permutation are promised.
- Technical indicators, charts, price history and news: they are not part of this model; no such code is in `app.py`.
