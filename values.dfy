/** The value-change check (`check_chg_in_values`): compares the two
    aligned views row by row and reports the records and columns whose
    cells differ. */
module ValueDiff {
  import opened Wrappers
  import opened Strings
  import opened Sequences
  import opened Tables
  import opened SharedRecords

  /** One row of the per-column summary table: how many shared records
      changed in the column, and what share of the shared records that is. */
  datatype ColumnChange = ColumnChange(columnName: Col, changedRecords: nat, share: Ratio)

  /** The summary line `n records have changed (p of shared records)`. */
  datatype ValueNote = RecordsChanged(count: nat, share: Ratio)

  /** The `record_value_changes` section of the report. */
  datatype ValueChanges = ValueChanges(
    isEqual: bool,
    summary: seq<ValueNote>,
    summaryTable: seq<ColumnChange>,
    changedRecords: seq<Cell>,
    changedColumns: seq<Col>)

  /** Two rows differ when some listed column holds different cells. After
      `fillna("na")` two missing cells compare equal. */
  predicate RowDiffers(a: Row, b: Row, cols: seq<Col>)
  {
    exists i :: 0 <= i < |cols| && Get(a, cols[i]) != Get(b, cols[i])
  }

  /** The keys of the new view at the positions where the rows differ. */
  function ChangedKeys(oldView: seq<Row>, newView: seq<Row>, cols: seq<Col>, pk: Col): (r: seq<Cell>)
    requires |oldView| == |newView|
    ensures |r| <= |newView|
    decreases |newView|
  {
    if newView == [] then []
    else
      (if RowDiffers(oldView[0], newView[0], cols) then [Get(newView[0], pk)] else [])
      + ChangedKeys(oldView[1..], newView[1..], cols, pk)
  }

  /** Whether column `c` differs at each aligned position. */
  function DiffFlags(oldView: seq<Row>, newView: seq<Row>, c: Col): (r: seq<bool>)
    requires |oldView| == |newView|
    ensures |r| == |newView|
    ensures forall i :: 0 <= i < |r| ==> (r[i] <==> Get(oldView[i], c) != Get(newView[i], c))
  {
    seq(|newView|, i requires 0 <= i < |newView| => Get(oldView[i], c) != Get(newView[i], c))
  }

  /** The number of positions at which column `c` differs
      (`(old != new).sum()` for one column). */
  function DiffCount(oldView: seq<Row>, newView: seq<Row>, c: Col): (r: nat)
    requires |oldView| == |newView|
    ensures r == multiset(DiffFlags(oldView, newView, c))[true]
    ensures r <= |newView|
    ensures r == 0 <==> forall i :: 0 <= i < |newView| ==> Get(oldView[i], c) == Get(newView[i], c)
    decreases |newView|
  {
    if newView == [] then 0
    else
      DiffFlagsTail(oldView, newView, c);
      var r := (if Get(oldView[0], c) != Get(newView[0], c) then 1 else 0)
               + DiffCount(oldView[1..], newView[1..], c);
      NoFlagMeansAgree(oldView, newView, c);
      r
  }

  lemma DiffFlagsTail(oldView: seq<Row>, newView: seq<Row>, c: Col)
    requires |oldView| == |newView| && newView != []
    ensures DiffFlags(oldView, newView, c)
         == [Get(oldView[0], c) != Get(newView[0], c)] + DiffFlags(oldView[1..], newView[1..], c)
  {
  }

  /** No differing flag means the column agrees on every aligned row. */
  lemma NoFlagMeansAgree(oldView: seq<Row>, newView: seq<Row>, c: Col)
    requires |oldView| == |newView|
    ensures multiset(DiffFlags(oldView, newView, c))[true] == 0
        <==> forall i :: 0 <= i < |newView| ==> Get(oldView[i], c) == Get(newView[i], c)
  {
    var flags := DiffFlags(oldView, newView, c);
    if multiset(flags)[true] == 0 {
      forall i | 0 <= i < |newView| ensures Get(oldView[i], c) == Get(newView[i], c) {
        assert flags[i] in multiset(flags);
      }
    } else {
      assert true in multiset(flags);
      var i :| 0 <= i < |flags| && flags[i];
    }
  }

  /** The per-column counts, in view column order (before sorting). */
  function ColumnChanges(oldView: seq<Row>, newView: seq<Row>, cols: seq<Col>): (r: seq<ColumnChange>)
    requires |oldView| == |newView|
    ensures |r| == |cols|
    ensures forall i :: 0 <= i < |r| ==>
      r[i] == ColumnChange(cols[i], DiffCount(oldView, newView, cols[i]),
                           Ratio(DiffCount(oldView, newView, cols[i]), |newView|))
  {
    seq(|cols|, i requires 0 <= i < |cols| =>
      ColumnChange(cols[i], DiffCount(oldView, newView, cols[i]),
                   Ratio(DiffCount(oldView, newView, cols[i]), |newView|)))
  }

  /** Ranks by changed-record count descending, then by name ascending. The
      source sorts by the share, whose denominator is the same for all. */
  predicate ChangeLe(a: ColumnChange, b: ColumnChange)
  {
    a.changedRecords > b.changedRecords
    || (a.changedRecords == b.changedRecords && StrLe(a.columnName, b.columnName))
  }

  predicate HasChanges(c: ColumnChange)
  {
    c.changedRecords > 0
  }

  /** The summary table: the columns with a change, ranked by `ChangeLe`. */
  function ColumnChangeTable(oldView: seq<Row>, newView: seq<Row>, cols: seq<Col>): (r: seq<ColumnChange>)
    requires |oldView| == |newView|
    ensures SortedBy(r, ChangeLe)
    ensures multiset(r) == multiset(Filter(ColumnChanges(oldView, newView, cols), HasChanges))
    ensures forall i :: 0 <= i < |r| ==> r[i].changedRecords > 0
  {
    var all := ColumnChanges(oldView, newView, cols);
    RankedChanges(all);
    Filter(InsertionSort(all, ChangeLe), HasChanges)
  }

  function ChangeNames(rows: seq<ColumnChange>): (r: seq<Col>)
    ensures |r| == |rows|
    ensures forall i :: 0 <= i < |r| ==> r[i] == rows[i].columnName
  {
    seq(|rows|, i requires 0 <= i < |rows| => rows[i].columnName)
  }

  /** `check_chg_in_values`. Fails when the views cannot be built, and when
      they have different lengths (pandas refuses `!=` on frames with
      different row labels). */
  function CheckChgInValues(oldTable: Table, newTable: Table, pk: Col, subset: Option<seq<Col>>): (r: Result<ValueChanges, Error>)
    ensures GetSharedRecords(oldTable, newTable, pk, subset).Failure? ==>
      r == Failure(GetSharedRecords(oldTable, newTable, pk, subset).error)
    ensures r.Success? <==>
      && GetSharedRecords(oldTable, newTable, pk, subset).Success?
      && |GetSharedRecords(oldTable, newTable, pk, subset).value.oldView|
         == |GetSharedRecords(oldTable, newTable, pk, subset).value.newView|
    ensures r.Success? ==>
      var v := GetSharedRecords(oldTable, newTable, pk, subset).value;
      var c := r.value;
      && c.changedRecords == ChangedKeys(v.oldView, v.newView, v.columns, pk)
      && (c.isEqual <==> c.changedRecords == [])
      && |c.changedRecords| <= |v.newView|
      && (c.isEqual ==> c.summary == [] && c.summaryTable == [] && c.changedColumns == [])
      && (!c.isEqual ==>
            && c.summary == [RecordsChanged(|c.changedRecords|, Ratio(|c.changedRecords|, |v.newView|))]
            && c.summaryTable == ColumnChangeTable(v.oldView, v.newView, v.columns)
            && SortedBy(c.summaryTable, ChangeLe)
            && c.changedColumns == ChangeNames(c.summaryTable)
            && (forall i :: 0 <= i < |c.summaryTable| ==> c.summaryTable[i].changedRecords > 0))
  {
    var shared :- GetSharedRecords(oldTable, newTable, pk, subset);
    if |shared.oldView| != |shared.newView| then Failure(MisalignedViews)
    else
      var changed := ChangedKeys(shared.oldView, shared.newView, shared.columns, pk);
      if changed == [] then Success(ValueChanges(true, [], [], [], []))
      else
        var table := ColumnChangeTable(shared.oldView, shared.newView, shared.columns);
        Success(ValueChanges(false, [RecordsChanged(|changed|, Ratio(|changed|, |shared.newView|))],
                             table, changed, ChangeNames(table)))
  }

  // ---------------------------------------------------------------------
  // Proofs

  lemma ChangeLeIsTotalPreorder()
    ensures TotalPreorder(ChangeLe)
  {
    forall a, b ensures ChangeLe(a, b) || ChangeLe(b, a) {
      StrLeTotal(a.columnName, b.columnName);
    }
    forall a, b, c | ChangeLe(a, b) && ChangeLe(b, c) ensures ChangeLe(a, c) {
      if a.changedRecords == b.changedRecords == c.changedRecords {
        StrLeTransitive(a.columnName, b.columnName, c.columnName);
      }
    }
  }

  lemma RankedChanges(all: seq<ColumnChange>)
    ensures var r := Filter(InsertionSort(all, ChangeLe), HasChanges);
            && SortedBy(r, ChangeLe)
            && multiset(r) == multiset(Filter(all, HasChanges))
  {
    ChangeLeIsTotalPreorder();
    FilterSorted(InsertionSort(all, ChangeLe), HasChanges, ChangeLe);
    FilterSameMultiset(InsertionSort(all, ChangeLe), all, HasChanges);
  }

  /** A differing position puts its new key among the changed keys. */
  lemma {:induction false} ChangedKeyAt(oldView: seq<Row>, newView: seq<Row>, cols: seq<Col>, pk: Col, i: nat)
    requires |oldView| == |newView| && i < |newView|
    requires RowDiffers(oldView[i], newView[i], cols)
    ensures Get(newView[i], pk) in ChangedKeys(oldView, newView, cols, pk)
    decreases i
  {
    if i > 0 {
      ChangedKeyAt(oldView[1..], newView[1..], cols, pk, i - 1);
    }
  }

  /** Every changed key comes from a differing position. */
  lemma {:induction false} ChangedKeySource(oldView: seq<Row>, newView: seq<Row>, cols: seq<Col>, pk: Col, k: Cell)
    returns (i: nat)
    requires |oldView| == |newView|
    requires k in ChangedKeys(oldView, newView, cols, pk)
    ensures i < |newView| && RowDiffers(oldView[i], newView[i], cols) && Get(newView[i], pk) == k
    decreases |newView|
  {
    if RowDiffers(oldView[0], newView[0], cols) && Get(newView[0], pk) == k {
      i := 0;
    } else {
      var j := ChangedKeySource(oldView[1..], newView[1..], cols, pk, k);
      i := j + 1;
    }
  }

  /** The changed keys are in the new view's order, so sorted when it is. */
  lemma {:induction false} ChangedKeysSorted(oldView: seq<Row>, newView: seq<Row>, cols: seq<Col>, pk: Col)
    requires |oldView| == |newView|
    requires SortedBy(CellsOf(newView, pk), CellLe)
    ensures SortedBy(ChangedKeys(oldView, newView, cols, pk), CellLe)
    decreases |newView|
  {
    if newView != [] {
      var rest := ChangedKeys(oldView[1..], newView[1..], cols, pk);
      assert CellsOf(newView[1..], pk) == CellsOf(newView, pk)[1..];
      ChangedKeysSorted(oldView[1..], newView[1..], cols, pk);
      if RowDiffers(oldView[0], newView[0], cols) {
        forall j | 0 <= j < |rest| ensures CellLe(Get(newView[0], pk), rest[j]) {
          var m := ChangedKeySource(oldView[1..], newView[1..], cols, pk, rest[j]);
          assert CellsOf(newView, pk)[m + 1] == rest[j];
        }
      }
    }
  }

  /** A column with a differing cell has a positive count. */
  lemma DiffCountPositive(oldView: seq<Row>, newView: seq<Row>, c: Col, i: nat)
    requires |oldView| == |newView| && i < |newView|
    requires Get(oldView[i], c) != Get(newView[i], c)
    ensures DiffCount(oldView, newView, c) > 0
  {
  }

  /** A column is named in the summary table exactly when it is a view
      column with a differing cell. */
  lemma ChangeTableNames(oldView: seq<Row>, newView: seq<Row>, cols: seq<Col>, c: Col)
    requires |oldView| == |newView|
    ensures c in ChangeNames(ColumnChangeTable(oldView, newView, cols))
        <==> c in cols && DiffCount(oldView, newView, c) > 0
  {
    var all := ColumnChanges(oldView, newView, cols);
    var kept := Filter(all, HasChanges);
    var table := ColumnChangeTable(oldView, newView, cols);
    var names := ChangeNames(table);
    if c in names {
      var i :| 0 <= i < |names| && names[i] == c;
      assert table[i] in multiset(kept);
      var j :| 0 <= j < |all| && all[j] == table[i];
    }
    if c in cols && DiffCount(oldView, newView, c) > 0 {
      var j :| 0 <= j < |cols| && cols[j] == c;
      assert all[j] in kept;
      assert all[j] in multiset(table);
      var i :| 0 <= i < |table| && table[i] == all[j];
      assert names[i] == c;
    }
  }

  /** The changed columns are exactly the view columns with a differing
      cell. */
  lemma ChangedColumnsMeaning(oldTable: Table, newTable: Table, pk: Col, subset: Option<seq<Col>>, c: Col)
    requires CheckChgInValues(oldTable, newTable, pk, subset).Success?
    ensures var v := GetSharedRecords(oldTable, newTable, pk, subset).value;
            var r := CheckChgInValues(oldTable, newTable, pk, subset).value;
            !r.isEqual ==>
              (c in r.changedColumns <==> c in v.columns && DiffCount(v.oldView, v.newView, c) > 0)
  {
    var v := GetSharedRecords(oldTable, newTable, pk, subset).value;
    ChangeTableNames(v.oldView, v.newView, v.columns, c);
  }

  /** When a record changed, some column changed too. */
  lemma SomeColumnChanged(oldTable: Table, newTable: Table, pk: Col, subset: Option<seq<Col>>)
    requires CheckChgInValues(oldTable, newTable, pk, subset).Success?
    requires !CheckChgInValues(oldTable, newTable, pk, subset).value.isEqual
    ensures CheckChgInValues(oldTable, newTable, pk, subset).value.changedColumns != []
  {
    var v := GetSharedRecords(oldTable, newTable, pk, subset).value;
    var r := CheckChgInValues(oldTable, newTable, pk, subset).value;
    var k := r.changedRecords[0];
    var i := ChangedKeySource(v.oldView, v.newView, v.columns, pk, k);
    var j :| 0 <= j < |v.columns| && Get(v.oldView[i], v.columns[j]) != Get(v.newView[i], v.columns[j]);
    DiffCountPositive(v.oldView, v.newView, v.columns[j], i);
    ChangedColumnsMeaning(oldTable, newTable, pk, subset, v.columns[j]);
  }

  /** Cutting two rows to `cols` does not change whether they differ on `cols`. */
  lemma RestrictDiffers(x: Row, y: Row, cols: seq<Col>)
    ensures RowDiffers(Restrict(x, cols), Restrict(y, cols), cols) <==> RowDiffers(x, y, cols)
  {
    if RowDiffers(x, y, cols) {
      var i :| 0 <= i < |cols| && Get(x, cols[i]) != Get(y, cols[i]);
      assert Get(Restrict(x, cols), cols[i]) != Get(Restrict(y, cols), cols[i]);
    }
  }

  /** A view row is a table row with the same key, cut to the view columns. */
  lemma ViewRowSource(v: seq<Row>, t: Table, pk: Col, keys: set<Cell>, cols: seq<Col>, i: nat) returns (a: nat)
    requires IsView(v, t, pk, keys, cols) && pk in cols && i < |v|
    ensures a < |t.rows| && v[i] == Restrict(t.rows[a], cols) && Get(t.rows[a], pk) == Get(v[i], pk)
  {
    assert FromTable(v[i], t, pk, keys, cols);
    var j :| 0 <= j < |t.rows| && Get(t.rows[j], pk) in keys && v[i] == Restrict(t.rows[j], cols);
    a := j;
  }

  /** With unique keys, the view row with key `k` is the table row with key `k`. */
  lemma ViewRowIs(v: seq<Row>, t: Table, pk: Col, keys: set<Cell>, cols: seq<Col>, i: nat, a: nat)
    requires IsView(v, t, pk, keys, cols) && pk in cols && UniqueKeys(t, pk)
    requires i < |v| && a < |t.rows| && Get(t.rows[a], pk) == Get(v[i], pk)
    ensures v[i] == Restrict(t.rows[a], cols)
  {
    var j := ViewRowSource(v, t, pk, keys, cols, i);
    assert KeyColumn(t, pk)[j] == KeyColumn(t, pk)[a];
  }

  /** With unique keys in both tables the views always line up, so the
      value check fails only where the extractor does. */
  lemma UniqueKeysCompare(oldTable: Table, newTable: Table, pk: Col, subset: Option<seq<Col>>)
    requires UniqueKeys(oldTable, pk) && UniqueKeys(newTable, pk)
    ensures CheckChgInValues(oldTable, newTable, pk, subset).Success?
        <==> GetSharedRecords(oldTable, newTable, pk, subset).Success?
  {
    if GetSharedRecords(oldTable, newTable, pk, subset).Success? {
      SharedViewSizes(oldTable, newTable, pk, subset);
    }
  }

  /** Every reported record is a shared key whose old and new rows differ
      in a compared column. */
  lemma ChangedRecordSource(oldTable: Table, newTable: Table, pk: Col, subset: Option<seq<Col>>, k: Cell)
    returns (a: nat, b: nat)
    requires UniqueKeys(oldTable, pk) && UniqueKeys(newTable, pk)
    requires CheckChgInValues(oldTable, newTable, pk, subset).Success?
    requires k in CheckChgInValues(oldTable, newTable, pk, subset).value.changedRecords
    ensures var cols := GetSharedRecords(oldTable, newTable, pk, subset).value.columns;
            && a < |oldTable.rows| && b < |newTable.rows|
            && Get(oldTable.rows[a], pk) == k && Get(newTable.rows[b], pk) == k
            && RowDiffers(oldTable.rows[a], newTable.rows[b], cols)
  {
    var v := GetSharedRecords(oldTable, newTable, pk, subset).value;
    var keys := SharedKeys(oldTable, newTable, pk);
    var i := ChangedKeySource(v.oldView, v.newView, v.columns, pk, k);
    ViewsAligned(oldTable, newTable, pk, v.columns);
    assert CellsOf(v.oldView, pk)[i] == CellsOf(v.newView, pk)[i];
    a := ViewRowSource(v.oldView, oldTable, pk, keys, v.columns, i);
    b := ViewRowSource(v.newView, newTable, pk, keys, v.columns, i);
    RestrictDiffers(oldTable.rows[a], newTable.rows[b], v.columns);
  }

  /** Every shared key whose old and new rows differ in a compared column is
      reported. */
  lemma ChangedRecordReported(oldTable: Table, newTable: Table, pk: Col, subset: Option<seq<Col>>, a: nat, b: nat)
    requires UniqueKeys(oldTable, pk) && UniqueKeys(newTable, pk)
    requires GetSharedRecords(oldTable, newTable, pk, subset).Success?
    requires a < |oldTable.rows| && b < |newTable.rows|
    requires Get(oldTable.rows[a], pk) == Get(newTable.rows[b], pk)
    requires RowDiffers(oldTable.rows[a], newTable.rows[b], GetSharedRecords(oldTable, newTable, pk, subset).value.columns)
    ensures CheckChgInValues(oldTable, newTable, pk, subset).Success?
    ensures Get(oldTable.rows[a], pk) in CheckChgInValues(oldTable, newTable, pk, subset).value.changedRecords
  {
    UniqueKeysCompare(oldTable, newTable, pk, subset);
    var v := GetSharedRecords(oldTable, newTable, pk, subset).value;
    var keys := SharedKeys(oldTable, newTable, pk);
    var k := Get(oldTable.rows[a], pk);
    assert k in KeySet(oldTable, pk) && k in KeySet(newTable, pk);
    assert k in keys;
    ViewsAligned(oldTable, newTable, pk, v.columns);
    SharedViewsAre(oldTable, newTable, pk, subset);
    AlignedRowsReported(v.oldView, v.newView, oldTable, newTable, pk, keys, v.columns, a, b);
  }

  /** On aligned views, a pair of differing rows with a shared key is found
      at the position of that key. */
  lemma AlignedRowsReported(oldView: seq<Row>, newView: seq<Row>, oldTable: Table, newTable: Table,
                            pk: Col, keys: set<Cell>, cols: seq<Col>, a: nat, b: nat)
    requires IsView(oldView, oldTable, pk, keys, cols) && IsView(newView, newTable, pk, keys, cols)
    requires pk in cols && UniqueKeys(oldTable, pk) && UniqueKeys(newTable, pk)
    requires CellsOf(oldView, pk) == CellsOf(newView, pk) && |oldView| == |newView|
    requires a < |oldTable.rows| && b < |newTable.rows|
    requires Get(oldTable.rows[a], pk) == Get(newTable.rows[b], pk) && Get(oldTable.rows[a], pk) in CellsOf(oldView, pk)
    requires RowDiffers(oldTable.rows[a], newTable.rows[b], cols)
    ensures Get(oldTable.rows[a], pk) in ChangedKeys(oldView, newView, cols, pk)
  {
    var k := Get(oldTable.rows[a], pk);
    var i :| 0 <= i < |oldView| && CellsOf(oldView, pk)[i] == k;
    assert CellsOf(newView, pk)[i] == k;
    ViewRowIs(oldView, oldTable, pk, keys, cols, i, a);
    ViewRowIs(newView, newTable, pk, keys, cols, i, b);
    RestrictDiffers(oldTable.rows[a], newTable.rows[b], cols);
    ChangedKeyAt(oldView, newView, cols, pk, i);
  }

  /** With unique keys the changed records are distinct and ascending. */
  lemma ChangedRecordsOrdered(oldTable: Table, newTable: Table, pk: Col, subset: Option<seq<Col>>)
    requires UniqueKeys(oldTable, pk) && UniqueKeys(newTable, pk)
    requires CheckChgInValues(oldTable, newTable, pk, subset).Success?
    ensures var r := CheckChgInValues(oldTable, newTable, pk, subset).value.changedRecords;
            SortedBy(r, CellLe) && Distinct(r)
  {
    var v := GetSharedRecords(oldTable, newTable, pk, subset).value;
    AlignedNewKeys(oldTable, newTable, pk, subset);
    ChangedKeysOrdered(v.oldView, v.newView, v.columns, pk);
  }

  /** With unique keys the new view's keys are sorted and distinct. */
  lemma AlignedNewKeys(oldTable: Table, newTable: Table, pk: Col, subset: Option<seq<Col>>)
    requires UniqueKeys(oldTable, pk) && UniqueKeys(newTable, pk)
    requires GetSharedRecords(oldTable, newTable, pk, subset).Success?
    ensures var v := GetSharedRecords(oldTable, newTable, pk, subset).value;
            SortedBy(CellsOf(v.newView, pk), CellLe) && Distinct(CellsOf(v.newView, pk))
  {
    var v := GetSharedRecords(oldTable, newTable, pk, subset).value;
    SharedViewsAre(oldTable, newTable, pk, subset);
    NewViewKeysOrdered(oldTable, newTable, pk, v.columns, v.newView);
  }

  lemma NewViewKeysOrdered(oldTable: Table, newTable: Table, pk: Col, cols: seq<Col>, newView: seq<Row>)
    requires pk in cols && UniqueKeys(oldTable, pk) && UniqueKeys(newTable, pk)
    requires newView == View(newTable, pk, SharedKeys(oldTable, newTable, pk), cols)
    ensures SortedBy(CellsOf(newView, pk), CellLe) && Distinct(CellsOf(newView, pk))
  {
    ViewsAligned(oldTable, newTable, pk, cols);
    ViewIsView(newTable, pk, SharedKeys(oldTable, newTable, pk), cols);
  }

  lemma ChangedKeysOrdered(oldView: seq<Row>, newView: seq<Row>, cols: seq<Col>, pk: Col)
    requires |oldView| == |newView|
    requires SortedBy(CellsOf(newView, pk), CellLe) && Distinct(CellsOf(newView, pk))
    ensures SortedBy(ChangedKeys(oldView, newView, cols, pk), CellLe)
    ensures Distinct(ChangedKeys(oldView, newView, cols, pk))
  {
    ChangedKeysSorted(oldView, newView, cols, pk);
    ChangedKeysDistinct(oldView, newView, cols, pk);
  }

  lemma {:induction false} ChangedKeysDistinct(oldView: seq<Row>, newView: seq<Row>, cols: seq<Col>, pk: Col)
    requires |oldView| == |newView|
    requires Distinct(CellsOf(newView, pk))
    ensures Distinct(ChangedKeys(oldView, newView, cols, pk))
    decreases |newView|
  {
    if newView != [] {
      var rest := ChangedKeys(oldView[1..], newView[1..], cols, pk);
      assert CellsOf(newView[1..], pk) == CellsOf(newView, pk)[1..];
      ChangedKeysDistinct(oldView[1..], newView[1..], cols, pk);
      if RowDiffers(oldView[0], newView[0], cols) {
        if Get(newView[0], pk) in rest {
          var m := ChangedKeySource(oldView[1..], newView[1..], cols, pk, Get(newView[0], pk));
          assert false;
        }
        DistinctCons(Get(newView[0], pk), rest);
      }
    }
  }
}
