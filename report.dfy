/** The consolidated report (`create_consolidated_report`): every check run
    on the same two tables, gathered under one record, and the comparison
    table beside it. */
module Report {
  import opened Wrappers
  import opened Sequences
  import opened Tables
  import opened TableSummary
  import opened ColumnDiff
  import opened RecordDiff
  import opened TypeDiff
  import opened SharedRecords
  import opened ValueDiff
  import opened Comparison

  const Title: string := "DataDelta: Dataset Comparison Report"

  /** The row limit the report passes to the table summariser. */
  const SummaryColumns: nat := 100

  /** The `meta` section, without the report date. */
  datatype Meta = Meta(titleText: string, columnSubset: Option<seq<Col>>, isAllEqual: bool)

  /** The merged dictionary: its sections have distinct keys, so the merge
      keeps every one of them. */
  datatype ConsolidatedReport = ConsolidatedReport(
    meta: Meta,
    oldTableSummary: Summary,
    newTableSummary: Summary,
    columnNameChanges: ColumnNameChanges,
    recordCountChanges: RecordCountChanges,
    datatypeChanges: DatatypeChanges,
    recordValueChanges: ValueChanges)

  datatype ReportOutput = ReportOutput(report: ConsolidatedReport, comparison: Option<ComparisonTable>)

  /** `DataFrame.equals`: the same columns with the same types in the same
      order, the same number of rows, and the same cell everywhere (two
      missing cells count as equal). */
  predicate TablesEqual(oldTable: Table, newTable: Table)
  {
    && oldTable.columns == newTable.columns
    && |oldTable.rows| == |newTable.rows|
    && forall i, j :: 0 <= i < |oldTable.rows| && 0 <= j < |oldTable.columns| ==>
         Get(oldTable.rows[i], oldTable.columns[j].name) == Get(newTable.rows[i], oldTable.columns[j].name)
  }

  /** `create_consolidated_report`. The steps run in the source's order and
      the first one that raises ends the run with its error. */
  function CreateConsolidatedReport(oldTable: Table, newTable: Table, pk: Col, subset: Option<seq<Col>>)
    : (r: Result<ReportOutput, Error>)
    ensures Summarize(oldTable, pk, subset, SummaryColumns).Failure? ==>
      r == Failure(Summarize(oldTable, pk, subset, SummaryColumns).error)
    ensures Summarize(oldTable, pk, subset, SummaryColumns).Success? && Summarize(newTable, pk, subset, SummaryColumns).Failure? ==>
      r == Failure(Summarize(newTable, pk, subset, SummaryColumns).error)
    ensures && Summarize(oldTable, pk, subset, SummaryColumns).Success?
            && Summarize(newTable, pk, subset, SummaryColumns).Success?
            && CheckChgInValues(oldTable, newTable, pk, subset).Failure? ==>
      r == Failure(CheckChgInValues(oldTable, newTable, pk, subset).error)
    ensures r.Success? <==>
      && Summarize(oldTable, pk, subset, SummaryColumns).Success?
      && Summarize(newTable, pk, subset, SummaryColumns).Success?
      && CheckChgInValues(oldTable, newTable, pk, subset).Success?
    ensures r.Success? ==>
      var rep := r.value.report;
      && rep.meta == Meta(Title, subset, TablesEqual(oldTable, newTable))
      && rep.oldTableSummary == Summarize(oldTable, pk, subset, SummaryColumns).value
      && rep.newTableSummary == Summarize(newTable, pk, subset, SummaryColumns).value
      && rep.columnNameChanges == CheckColumnNames(oldTable, newTable)
      && rep.recordCountChanges == CheckRecordCount(oldTable, newTable, pk).value
      && rep.datatypeChanges == CheckDatatypes(oldTable, newTable, pk, subset)
      && rep.recordValueChanges == CheckChgInValues(oldTable, newTable, pk, subset).value
      && r.value.comparison == RecordChangesComparison(oldTable, newTable, pk, subset).value
      && (r.value.comparison.None? <==> rep.recordValueChanges.isEqual)
  {
    var oldSummary :- Summarize(oldTable, pk, subset, SummaryColumns);
    var newSummary :- Summarize(newTable, pk, subset, SummaryColumns);
    var columns := CheckColumnNames(oldTable, newTable);
    // Both summaries succeeded, so both tables have the key.
    var records := CheckRecordCount(oldTable, newTable, pk).value;
    var types := CheckDatatypes(oldTable, newTable, pk, subset);
    var values :- CheckChgInValues(oldTable, newTable, pk, subset);
    // The comparison table repeats the value check, which succeeded.
    var comparison := RecordChangesComparison(oldTable, newTable, pk, subset).value;
    var meta := Meta(Title, subset, TablesEqual(oldTable, newTable));
    Success(ReportOutput(ConsolidatedReport(meta, oldSummary, newSummary, columns, records, types, values), comparison))
  }

  // ---------------------------------------------------------------------
  // Proofs

  /** Comparing a table with itself reports no change anywhere and no
      comparison table. */
  lemma IdenticalTablesReport(t: Table, pk: Col, subset: Option<seq<Col>>)
    requires Distinct(Names(t))
    requires CreateConsolidatedReport(t, t, pk, subset).Success?
    ensures var out := CreateConsolidatedReport(t, t, pk, subset).value;
            && out.report.meta.isAllEqual
            && out.report.columnNameChanges.isEqual
            && out.report.recordCountChanges.isEqual
            && out.report.datatypeChanges.isEqual
            && out.report.recordValueChanges.isEqual
            && out.comparison.None?
  {
    NoTypeChangeAgainstItself(t, pk, subset);
    var v := GetSharedRecords(t, t, pk, subset).value;
    NoChangeAgainstItself(v.oldView, v.columns, pk);
  }

  lemma {:induction false} NoChangeAgainstItself(view: seq<Row>, cols: seq<Col>, pk: Col)
    ensures ChangedKeys(view, view, cols, pk) == []
    decreases |view|
  {
    if view != [] {
      NoChangeAgainstItself(view[1..], cols, pk);
    }
  }

  /** A table with distinct column names shows no type change against itself. */
  lemma NoTypeChangeAgainstItself(t: Table, pk: Col, subset: Option<seq<Col>>)
    requires Distinct(Names(t))
    ensures TypeChanges(t, t, pk, subset) == []
  {
    var combined := Combined(t.columns, t.columns);
    forall i | 0 <= i < |combined| ensures combined[i].oldDtype == combined[i].newDtype {
      var j :| 0 <= j < |t.columns| && t.columns[j] == Column(combined[i].columnName, combined[i].oldDtype);
      FirstOfDistinct(t, j);
    }
    NoneSelected(combined, (row: TypeRow) => IsTypeChange(row, pk, subset));
  }

  lemma NoneSelected<T>(s: seq<T>, p: T -> bool)
    requires forall i :: 0 <= i < |s| ==> !p(s[i])
    ensures Filter(s, p) == []
  {
  }

  /** For well-formed tables `DataFrame.equals` means the very same table,
      so an all-equal report has every section equal. */
  lemma AllEqualMeansNoChange(oldTable: Table, newTable: Table, pk: Col, subset: Option<seq<Col>>)
    requires WellFormed(oldTable) && WellFormed(newTable)
    requires CreateConsolidatedReport(oldTable, newTable, pk, subset).Success?
    requires CreateConsolidatedReport(oldTable, newTable, pk, subset).value.report.meta.isAllEqual
    ensures var out := CreateConsolidatedReport(oldTable, newTable, pk, subset).value;
            && out.report.columnNameChanges.isEqual
            && out.report.recordCountChanges.isEqual
            && out.report.datatypeChanges.isEqual
            && out.report.recordValueChanges.isEqual
            && out.comparison.None?
  {
    EqualTablesAreSame(oldTable, newTable);
    IdenticalTablesReport(oldTable, pk, subset);
  }

  lemma EqualTablesAreSame(oldTable: Table, newTable: Table)
    requires WellFormed(oldTable) && WellFormed(newTable) && TablesEqual(oldTable, newTable)
    ensures oldTable == newTable
  {
    forall i | 0 <= i < |oldTable.rows| ensures oldTable.rows[i] == newTable.rows[i] {
      var a, b := oldTable.rows[i], newTable.rows[i];
      assert a.Keys == b.Keys;
      forall c | c in a ensures a[c] == b[c] {
        var j :| 0 <= j < |oldTable.columns| && Names(oldTable)[j] == c;
        assert Get(a, oldTable.columns[j].name) == Get(b, oldTable.columns[j].name);
      }
    }
  }

  /** Two non-empty tables keyed by a column both have, with unique keys
      and no column subset, always give a report. */
  lemma ReportSucceeds(oldTable: Table, newTable: Table, pk: Col)
    requires |oldTable.rows| > 0 && |oldTable.columns| > 0 && pk in Names(oldTable)
    requires |newTable.rows| > 0 && |newTable.columns| > 0 && pk in Names(newTable)
    requires UniqueKeys(oldTable, pk) && UniqueKeys(newTable, pk)
    ensures CreateConsolidatedReport(oldTable, newTable, pk, None).Success?
  {
    UniqueKeysCompare(oldTable, newTable, pk, None);
  }

  /** `newTable` is `oldTable` with some columns dropped: each of its
      columns is a column of the old table, and each row keeps exactly its
      own columns of the matching old row. */
  ghost predicate DroppedColumns(oldTable: Table, newTable: Table)
  {
    && WellFormed(oldTable)
    && Distinct(Names(newTable))
    && (forall j :: 0 <= j < |newTable.columns| ==> newTable.columns[j] in oldTable.columns)
    && |newTable.rows| == |oldTable.rows|
    && (forall i :: 0 <= i < |oldTable.rows| ==> newTable.rows[i] == Restrict(oldTable.rows[i], Names(newTable)))
  }

  /** Dropping columns is reported as removed columns and nothing else: no
      record, type or value change and no comparison table. */
  lemma DroppedColumnsReport(oldTable: Table, newTable: Table, pk: Col, subset: Option<seq<Col>>)
    requires DroppedColumns(oldTable, newTable)
    requires NameSet(newTable) != NameSet(oldTable)
    requires CreateConsolidatedReport(oldTable, newTable, pk, subset).Success?
    ensures var out := CreateConsolidatedReport(oldTable, newTable, pk, subset).value;
            && !out.report.meta.isAllEqual
            && !out.report.columnNameChanges.isEqual
            && out.report.columnNameChanges.removedColumns == Some(NameSet(oldTable) - NameSet(newTable))
            && out.report.recordCountChanges.isEqual
            && out.report.datatypeChanges.isEqual
            && out.report.recordValueChanges.isEqual
            && out.comparison.None?
  {
    assert oldTable.columns != newTable.columns;
    DroppedNames(oldTable, newTable);
    DroppedKeys(oldTable, newTable, pk);
    DroppedTypes(oldTable, newTable, pk, subset);
    DroppedValues(oldTable, newTable, pk, subset);
  }

  lemma DroppedNames(oldTable: Table, newTable: Table)
    requires DroppedColumns(oldTable, newTable)
    ensures NameSet(newTable) <= NameSet(oldTable)
  {
    forall c | c in NameSet(newTable) ensures c in NameSet(oldTable) {
      var j :| 0 <= j < |newTable.columns| && Names(newTable)[j] == c;
      var k :| 0 <= k < |oldTable.columns| && oldTable.columns[k] == newTable.columns[j];
      assert Names(oldTable)[k] == c;
    }
  }

  lemma DroppedValues(oldTable: Table, newTable: Table, pk: Col, subset: Option<seq<Col>>)
    requires DroppedColumns(oldTable, newTable)
    requires CheckChgInValues(oldTable, newTable, pk, subset).Success?
    ensures CheckChgInValues(oldTable, newTable, pk, subset).value.isEqual
  {
    var v := GetSharedRecords(oldTable, newTable, pk, subset).value;
    forall c | c in v.columns ensures c in NameSet(newTable) {
      SharedColumnsInBoth(oldTable, newTable, pk, subset, c);
    }
    DroppedViews(oldTable, newTable, pk, SharedKeys(oldTable, newTable, pk), v.columns);
    assert v.oldView == v.newView;
    NoChangeAgainstItself(v.oldView, v.columns, pk);
  }

  lemma DroppedKeys(oldTable: Table, newTable: Table, pk: Col)
    requires DroppedColumns(oldTable, newTable) && pk in Names(newTable)
    ensures KeySet(oldTable, pk) == KeySet(newTable, pk)
  {
    forall i | 0 <= i < |oldTable.rows| ensures Get(newTable.rows[i], pk) == Get(oldTable.rows[i], pk) {
    }
  }

  lemma DroppedTypes(oldTable: Table, newTable: Table, pk: Col, subset: Option<seq<Col>>)
    requires DroppedColumns(oldTable, newTable)
    ensures TypeChanges(oldTable, newTable, pk, subset) == []
  {
    var combined := Combined(oldTable.columns, newTable.columns);
    forall i | 0 <= i < |combined| ensures combined[i].oldDtype == combined[i].newDtype {
      KeptColumnKeepsType(oldTable, newTable, combined[i]);
    }
    NoneSelected(combined, (row: TypeRow) => IsTypeChange(row, pk, subset));
  }

  /** A column kept from a table with distinct names keeps its type. */
  lemma KeptColumnKeepsType(oldTable: Table, newTable: Table, row: TypeRow)
    requires Distinct(Names(oldTable))
    requires forall j :: 0 <= j < |newTable.columns| ==> newTable.columns[j] in oldTable.columns
    requires row in Combined(oldTable.columns, newTable.columns)
    ensures row.oldDtype == row.newDtype
  {
    var combined := Combined(oldTable.columns, newTable.columns);
    var i :| 0 <= i < |combined| && combined[i] == row;
    var j :| 0 <= j < |oldTable.columns| && oldTable.columns[j] == Column(row.columnName, row.oldDtype);
    assert DTypeOf(newTable.columns, row.columnName) == Some(row.newDtype);
    var m :| 0 <= m < |newTable.columns| && newTable.columns[m] == Column(row.columnName, row.newDtype);
    assert newTable.columns[m] in oldTable.columns;
    var k :| 0 <= k < |oldTable.columns| && oldTable.columns[k] == newTable.columns[m];
    assert Names(oldTable)[j] == row.columnName == Names(oldTable)[k];
    assert j == k;
  }

  /** Over columns the new table kept, both tables give the same view. */
  lemma DroppedViews(oldTable: Table, newTable: Table, pk: Col, keys: set<Cell>, cols: seq<Col>)
    requires DroppedColumns(oldTable, newTable)
    requires pk in cols && forall c :: c in cols ==> c in NameSet(newTable)
    ensures View(oldTable, pk, keys, cols) == View(newTable, pk, keys, cols)
  {
    forall i | 0 <= i < |oldTable.rows|
      ensures Restrict(oldTable.rows[i], cols) == Restrict(newTable.rows[i], cols)
    {
      var a, b := Restrict(oldTable.rows[i], cols), Restrict(newTable.rows[i], cols);
      assert a.Keys == b.Keys;
      forall c | c in a ensures a[c] == b[c] {
        assert c in Names(newTable);
      }
    }
    assert RestrictRows(oldTable.rows, cols) == RestrictRows(newTable.rows, cols);
    RestrictThenPick(oldTable.rows, pk, keys, cols);
    RestrictThenPick(newTable.rows, pk, keys, cols);
  }

  /** Picking rows by key and cutting columns commute while the key is kept. */
  lemma {:induction false} RestrictThenPick(rows: seq<Row>, pk: Col, keys: set<Cell>, cols: seq<Col>)
    requires pk in cols
    ensures RestrictRows(RowsWithKeys(rows, pk, keys), cols) == RowsWithKeys(RestrictRows(rows, cols), pk, keys)
  {
    if rows != [] {
      var cut := RestrictRows(rows, cols);
      RestrictThenPick(rows[1..], pk, keys, cols);
      RestrictRowsTail(rows, cols);
      var rest := RowsWithKeys(rows[1..], pk, keys);
      assert rows == [rows[0]] + rows[1..];
      assert cut == [cut[0]] + cut[1..];
      if Get(rows[0], pk) in keys {
        assert RowsWithKeys(rows, pk, keys) == [rows[0]] + rest;
        RestrictRowsCons(rows[0], rest, cols);
        assert RowsWithKeys(cut, pk, keys) == [cut[0]] + RowsWithKeys(cut[1..], pk, keys);
      } else {
        assert RowsWithKeys(rows, pk, keys) == rest;
        assert RowsWithKeys(cut, pk, keys) == RowsWithKeys(cut[1..], pk, keys);
      }
    }
  }

  lemma RestrictRowsTail(rows: seq<Row>, cols: seq<Col>)
    requires rows != []
    ensures RestrictRows(rows, cols)[1..] == RestrictRows(rows[1..], cols)
  {
  }

  lemma RestrictRowsCons(row: Row, rows: seq<Row>, cols: seq<Col>)
    ensures RestrictRows([row] + rows, cols) == [Restrict(row, cols)] + RestrictRows(rows, cols)
  {
  }
}
