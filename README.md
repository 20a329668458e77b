# DataDelta comparison pipeline in Dafny

DataDelta compares two versions of a table that share a primary key. It
reports what changed, one report section per check:

- the columns that were removed or added;
- the records (primary-key values) that were removed or added;
- the columns whose declared type changed;
- the shared records whose values changed, with per-column change counts;
- a side-by-side table of the old and new values of every changed record.

Every section is assembled into one consolidated report with an
"everything is equal" flag.

This project models that pipeline as pure Dafny functions over value types
and proves what each step reports. The pandas steps mutate only call-local
copies, so each check becomes a function that returns its report section.

The data model (`tables.dfy`):

- A table is a list of columns (name and declared type label) and a sequence
  of rows; a row maps column names to cells.
- A cell is `Option<int>`: `None` is a missing value (NaN).
- Filling missing values with `"na"` before comparing becomes plain `Option`
  equality: two missing cells compare equal.
- Percentages are kept exact as `Ratio(numerator, denominator)`.
- Summary sentences become small datatypes that carry the numbers the
  sentence prints.
- Every way a step can raise becomes an `Error` value returned in a `Result`:
  - an empty table (`EmptyTable`);
  - a key column a table lacks (`MissingColumn`);
  - a column subset not shared by both tables (`ColumnsNotShared`);
  - two views of different lengths, which pandas refuses to compare with `!=`
    (`MisalignedViews`).

`sort_values` is modelled by a stable insertion sort under these orders:

- keys sort by value with missing keys last;
- column names sort by code point, as Python compares strings;
- summary rows sort by count descending, then name ascending.

Modules, one per step of `src/datadelta/datadelta.py`:

| module | file | step |
|---|---|---|
| TableSummary | summary.dfy | `get_df_summary` |
| ColumnDiff | columndiff.dfy | `check_column_names` |
| RecordDiff | recorddiff.dfy | `check_record_count` |
| TypeDiff | typediff.dfy | `check_datatypes` |
| SharedRecords | shared.dfy | `get_records_in_both_tables` |
| ValueDiff | values.dfy | `check_chg_in_values` |
| Comparison | comparison.dfy | `get_record_changes_comparison_df` |
| Report | report.dfy | `create_consolidated_report` |

`Wrappers`, `Strings`, `Sequences` and `Tables` hold the shared definitions.

Points where the model follows a particular reading of the code:

- **Summary row cap.** The consolidated report builds both table summaries
  with `max_cols=100` (src/datadelta/datadelta.py:429-432), and so does the
  model (`SummaryColumns`).
- **Subset filter of the comparison table.** The code keeps a column when
  `<name>_` occurs anywhere in its name, not only at its start
  (src/datadelta/datadelta.py:392-393). It also applies that test to the key
  column itself. The model does the same.
- **Whole-table equality flag.** `DataFrame.equals`
  (src/datadelta/datadelta.py:426) requires the same column order, the same
  declared types and the same cells. The model's `TablesEqual` requires the
  same too.
- **Order of the type section.** The aligned type table and its
  changed-column list follow the old table's column order. That is the order
  `pd.concat(axis=1)` gives the shared columns once `dropna` removes the
  one-sided ones (src/datadelta/datadelta.py:248-253), and nothing re-sorts
  them.

## Model

Source paths are relative to the repository root.

| member | source | states |
|---|---|---|
| TableSummary.Summarize | src/datadelta/datadelta.py:15-76 | Fails with `EmptyTable` on a table with no rows or no columns and fails when the key column is absent; otherwise reports the row and column counts and the key, says the key is unique exactly when some key is present and no present key repeats, and gives as its summary table exactly `SummaryTable` (sorted by count descending then name, at most `max_cols` long) |
| TableSummary.UniqueKeyMeaning | src/datadelta/datadelta.py:44-47 | `value_counts().max() == 1` holds exactly when at least one key is present and no present key occurs twice (missing keys are not counted) |
| TableSummary.NonNull | src/datadelta/datadelta.py:44 | The present key values are exactly the values of the non-missing cells |
| TableSummary.NonNullCount | src/datadelta/datadelta.py:50-51 | The count of present cells in a column is the number of records less the number of missing cells; it is zero exactly when every cell is missing and equals the record count exactly when none is |
| TableSummary.ColumnRows | src/datadelta/datadelta.py:50-58 | One row per column, in column order: its name, its type label, a count that together with the column's missing cells makes up all the records, and that count over the number of records |
| TableSummary.SummaryTable | src/datadelta/datadelta.py:60-74 | The rows kept are `min(max_cols, n)` of the `n` rows that pass the key-plus-subset filter, drawn from them, sorted by count descending then name, and every dropped row ranks no higher than every kept row |
| TableSummary.RankedPrefix | src/datadelta/datadelta.py:60-74 | Sorting, then filtering, then cutting to `max_cols` keeps the best-ranked `max_cols` of the filtered rows |
| TableSummary.SummaryLeIsTotalPreorder | src/datadelta/datadelta.py:60-61 | Count descending, then name ascending, is a total preorder, so the sort is well defined |
| ColumnDiff.CheckColumnNames | src/datadelta/datadelta.py:98-119 | Equal exactly when the column-name sets are equal, with no summary or lists then; otherwise one summary line and exactly one list: the old-only columns when there are any, else the new-only columns |
| ColumnDiff.DetectionIsSymmetric | src/datadelta/datadelta.py:98 | Swapping the tables does not change whether a difference is detected |
| ColumnDiff.OneSidedChangeSwaps | src/datadelta/datadelta.py:102-119 | When one column set contains the other, swapping the tables swaps the removed and added lists |
| ColumnDiff.BothSidesReportOnlyRemoved | src/datadelta/datadelta.py:109-119 | Columns {A,B} against {A,C} report only removed {B}, and swapped only removed {C}: the `elif` hides the added side |
| ColumnDiff.RemovedColumnScenario | src/datadelta/datadelta.py:109-113 | Columns {A,B,C} against {A,B} report removed {C} and no added list |
| RecordDiff.CheckRecordCount | src/datadelta/datadelta.py:143-174 | Fails when a table lacks the key; equal exactly when the key sets are equal; otherwise the old and new counts, their difference new minus old, then a removed line and list exactly when old minus new keys is non-empty and an added line and list exactly when new minus old is non-empty, independently |
| RecordDiff.SwapExchangesRemovedAndAdded | src/datadelta/datadelta.py:147-163 | Swapping the tables exchanges removed and added records and negates the net change |
| RecordDiff.RemovedAndAddedScenario | src/datadelta/datadelta.py:147-174 | Keys {1,2,3} against {2,3,4} report removed {1}, added {4} and net change 0, both lists at once |
| TypeDiff.DTypeOf | src/datadelta/datadelta.py:248-250 | The type label a name has among the columns exists exactly when a column has that name, and is that column's label |
| TypeDiff.Combined | src/datadelta/datadelta.py:248-253 | The aligned type table holds, for each old column the new table also has, its old and new labels, and nothing else |
| TypeDiff.CheckDatatypes | src/datadelta/datadelta.py:264-276 | Equal exactly when no column is listed; otherwise one summary line whose share is the count over the rows of the aligned type table; the listed names are those of the type table's rows; each row is a row of the aligned type table, so it carries both tables' own labels, and those labels differ |
| TypeDiff.ChangedColumnsMeaning | src/datadelta/datadelta.py:253-262 | With distinct old column names, a column is listed exactly when both tables have it, its type labels differ, and it is the key or in the subset (when one is given) |
| TypeDiff.SubsetNarrowsTypeChanges | src/datadelta/datadelta.py:255-262 | The changes under a subset are the changes without it, filtered to the key plus the subset |
| TypeDiff.SharedColumnCount | src/datadelta/datadelta.py:248-273 | With distinct old column names, the aligned type table (the percentage denominator) has one row per column the two tables share, subset or not |
| TypeDiff.SharedNameIsCombined | src/datadelta/datadelta.py:253 | A name is in the aligned type table exactly when both tables have it |
| SharedRecords.SharedColumns | src/datadelta/datadelta.py:202-203 | The shared columns are exactly the names both tables have |
| SharedRecords.EffectiveColumns | src/datadelta/datadelta.py:205-216 | Without a subset the shared columns are used; a subset naming a column the tables do not share fails with exactly those columns; otherwise the subset plus the key |
| SharedRecords.GetSharedRecords | src/datadelta/datadelta.py:179-222 | Succeeds exactly when both tables have the key and the subset (if any) is shared; the columns include the key; each view is sorted by key and is a rearrangement of the table's rows with a shared key, each cut to exactly the chosen columns |
| SharedRecords.ViewsAligned | src/datadelta/datadelta.py:200-220 | With unique keys in both tables, both views have the same key column, which holds every shared key exactly once |
| SharedRecords.SharedViewSizes | src/datadelta/datadelta.py:200-220 | With unique keys, both views have as many rows as there are shared keys, which is at most the length of either table |
| SharedRecords.SortKeys | src/datadelta/datadelta.py:207 | Sorting rows by key puts their keys in the order that sorting the keys gives |
| SharedRecords.SharedColumnsInBoth | src/datadelta/datadelta.py:202-216 | Every column the views keep is a column of both tables |
| ValueDiff.CheckChgInValues | src/datadelta/datadelta.py:281-343 | Fails when the extractor fails or the views differ in length; otherwise the changed records are the new view's keys at the positions where the aligned rows differ, at most as many as the shared rows; equal exactly when there are none; otherwise one summary line with the count over the shared rows, a summary table sorted by count descending then name with only positive counts, and the changed columns are its names |
| ValueDiff.ChangedRecordSource | src/datadelta/datadelta.py:304-308 | With unique keys, every reported record is a key of both tables whose old and new rows differ in a compared column |
| ValueDiff.ChangedRecordReported | src/datadelta/datadelta.py:304-308 | With unique keys, every key whose old and new rows differ in a compared column is reported |
| ValueDiff.ChangedRecordsOrdered | src/datadelta/datadelta.py:307-308 | With unique keys, the changed records are distinct and in ascending key order |
| ValueDiff.UniqueKeysCompare | src/datadelta/datadelta.py:304-308 | With unique keys the views always line up, so the check fails only where the extractor does |
| ValueDiff.DiffCount | src/datadelta/datadelta.py:318 | A column's count is the number of aligned rows where its old and new cells differ (missing equal to missing), at most the number of rows, and zero exactly when it agrees on every aligned row |
| ValueDiff.ChangedColumnsMeaning | src/datadelta/datadelta.py:318-341 | When some record changed, a column is listed as changed exactly when it is a compared column with a positive count of differing rows |
| ValueDiff.SomeColumnChanged | src/datadelta/datadelta.py:307-341 | When a record changed, some column is listed as changed |
| ValueDiff.ColumnChangeTable | src/datadelta/datadelta.py:318-330 | The summary table is sorted by count descending then name, holds only positive counts, and is a rearrangement of the per-column counts with a positive count |
| ValueDiff.ChangeLeIsTotalPreorder | src/datadelta/datadelta.py:324-325 | Count descending, then name ascending, is a total preorder |
| Comparison.RenamedMembers | src/datadelta/datadelta.py:367-370 | A name is a renamed column exactly when it is a non-key column name followed by the suffix |
| Comparison.Suffixed | src/datadelta/datadelta.py:367-370 | Each non-key cell of a row is found under its suffixed name, and only suffixed non-key names occur |
| Comparison.MergedRowCells | src/datadelta/datadelta.py:376-380 | A merged row has the key, the old cells under `_OLD` names and the new cells under `_NEW` names |
| Comparison.SortedRenamed | src/datadelta/datadelta.py:382-386 | The non-key output columns are all the `_OLD` and `_NEW` names, sorted as Python sorts strings |
| Comparison.AllCopiesListed | src/datadelta/datadelta.py:367-386 | Without a subset, a name follows the key exactly when it is a non-key old column with `_OLD` or a non-key new column with `_NEW` |
| Comparison.KeyAndKept | src/datadelta/datadelta.py:390-393 | With a subset, the key is followed by exactly the names of the key-plus-sorted list containing some subset name plus `_`; the key repeats when it passes the test; the other kept names stay sorted |
| Comparison.OutputColumns | src/datadelta/datadelta.py:382-393 | The key comes first; without a subset all sorted suffixed names follow; with one the filtered names follow |
| Comparison.RecordChangesComparison | src/datadelta/datadelta.py:346-395 | Fails exactly when the value check fails; gives no table exactly when the value check reports equal; otherwise the output columns and the merged rows of the changed records cut to them |
| Comparison.ComparisonRowCount | src/datadelta/datadelta.py:376-380 | With unique keys, the comparison table has one row per changed record |
| Comparison.ComparisonRowSource | src/datadelta/datadelta.py:376-386 | Every row merges an old row and a new row with the same changed key |
| Comparison.ComparisonRowFor | src/datadelta/datadelta.py:376-386 | Every old row and new row with the same changed key appear merged |
| Comparison.ComparisonKeys | src/datadelta/datadelta.py:376-386 | With unique keys, the key column of the table holds exactly the changed records |
| Comparison.SubsetKeepsUnrelatedColumn | src/datadelta/datadelta.py:392-393 | With subset `["B"]`, `AB_OLD` is kept although it is no copy of `B` |
| Comparison.SubsetRepeatsKey | src/datadelta/datadelta.py:390-393 | A key named `id_no` with subset `["id"]` is listed twice |
| Comparison.SubsetCopiesKept | src/datadelta/datadelta.py:390-393 | With a subset, the `_OLD` copy of each subset column of the old table and the `_NEW` copy of each of the new table are kept |
| Report.CreateConsolidatedReport | src/datadelta/datadelta.py:398-450 | The steps run in order and the first failure is returned: the old summary's, else the new summary's, else the value check's; succeeds exactly when both summaries and the value check succeed; the title is fixed, the subset is recorded, the all-equal flag is `DataFrame.equals`, every section is its check's result, and there is no comparison table exactly when the value section is equal |
| Report.IdenticalTablesReport | test_datadelta.py:86-92 | Comparing a table with distinct column names to itself gives all-equal, every section equal and no comparison table |
| Report.AllEqualMeansNoChange | src/datadelta/datadelta.py:426 | For well-formed tables, an all-equal report has every section equal and no comparison table |
| Report.EqualTablesAreSame | src/datadelta/datadelta.py:426 | For well-formed tables, `DataFrame.equals` holds exactly for the same table |
| Report.DroppedColumnsReport | test_datadelta.py:94-102 | Dropping columns is reported as exactly those removed columns, with no record, type or value change, no comparison table, and not all-equal |
| Report.ReportSucceeds | src/datadelta/datadelta.py:398-450 | Two non-empty tables with a unique shared key and no subset always give a report |

## Left out

- `export_html_report`, `save_pickle`, `load_pickle`, the `__main__` block and the global `pd.set_option`: templating, file and pickle I/O, and display settings.
- The report date in `meta`: it reads the clock.
- The `isinstance` check in `get_df_summary`: every input is a table here.
- Floating point: percentages are exact ratios, so `np.around`, the `* 100` and the one-decimal percentage formatting are not modelled. Summary sentences become datatypes carrying their numbers, not formatted strings.
- Pandas type inference: a column's type is a label the table carries.
- Cell values are integers or missing. A literal `"na"` value, which the source's fill would make equal to a missing cell, is not representable.
- Missing keys compare equal to one another everywhere (sets, `isin`, the merge). Python's `set` may keep several NaN keys apart.
- `sort_values` is not stable by default. The model sorts stably, so the order of rows that share a key, and hence how duplicate-key views line up, may differ from pandas.
- Column order of the shared columns: `list(set(...))` in `get_records_in_both_tables` leaves it open, and the model takes the old table's column order. The value section does not expose this order, because its changed columns are re-sorted by count and name.
- Name collisions: duplicate column names, a renamed column equal to the key, and the merge's `_x`/`_y` suffixes for overlapping names.
- `DataFrame.equals` compares the row index too. Model tables have no index of their own.
- ColumnDiff.CheckColumnNames, RecordDiff.CheckRecordCount: the removed and added columns and records are sets. The source reports them as `list(set(...))`, whose order Python leaves arbitrary, so the model states no order.
- Comparison.RecordChangesComparison: with repeated keys the joined rows keep the order of the old rows. pandas gives an inner merge that order only from version 2.2 on, and earlier versions group the rows by key. The setup script does not pin a pandas version.
- The `ColumnsNotShared` error carries the missing columns as a set. `np.setdiff1d` gives them sorted.
