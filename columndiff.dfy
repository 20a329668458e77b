/** The column-set differ (`check_column_names`). */
module ColumnDiff {
  import opened Wrappers
  import opened Tables

  /** The one summary sentence the differ appends, as data. */
  datatype ColumnNote =
    | UniqueInOld(count: nat)   // "{n} Unique column(s) in the old table"
    | UniqueInNew(count: nat)   // "{n} Unique column(s) in the new table"

  /** The `column_name_changes` section. */
  datatype ColumnNameChanges = ColumnNameChanges(
    isEqual: bool,
    summary: seq<ColumnNote>,
    removedColumns: Option<set<Col>>,
    addedColumns: Option<set<Col>>)

  /** `check_column_names`: equal column-name sets report equal; otherwise
      the old-only columns are reported when there are any, and only when
      there are none the new-only columns are (first-checked-wins). */
  function CheckColumnNames(oldTable: Table, newTable: Table): (r: ColumnNameChanges)
    ensures r.isEqual <==> NameSet(oldTable) == NameSet(newTable)
    ensures r.isEqual ==> r.summary == [] && r.removedColumns == None && r.addedColumns == None
    ensures !r.isEqual ==> |r.summary| == 1 && (r.removedColumns.Some? != r.addedColumns.Some?)
    ensures r.removedColumns.Some? <==> NameSet(oldTable) - NameSet(newTable) != {}
    ensures r.removedColumns.Some? ==>
      var gone := NameSet(oldTable) - NameSet(newTable);
      r.removedColumns.value == gone && r.summary == [UniqueInOld(|gone|)]
    ensures r.addedColumns.Some? <==>
      NameSet(oldTable) - NameSet(newTable) == {} && NameSet(newTable) - NameSet(oldTable) != {}
    ensures r.addedColumns.Some? ==>
      var appeared := NameSet(newTable) - NameSet(oldTable);
      r.addedColumns.value == appeared && r.summary == [UniqueInNew(|appeared|)]
  {
    var oldNames, newNames := NameSet(oldTable), NameSet(newTable);
    if oldNames == newNames then
      ColumnNameChanges(true, [], None, None)
    else
      var onlyInOld := oldNames - newNames;
      var onlyInNew := newNames - oldNames;
      if |onlyInOld| > 0 then
        ColumnNameChanges(false, [UniqueInOld(|onlyInOld|)], Some(onlyInOld), None)
      else
        ColumnNameChanges(false, [UniqueInNew(|onlyInNew|)], None, Some(onlyInNew))
  }

  /** Inequality is detected symmetrically: swapping the tables does not
      change `is_equal`. */
  lemma DetectionIsSymmetric(oldTable: Table, newTable: Table)
    ensures CheckColumnNames(oldTable, newTable).isEqual == CheckColumnNames(newTable, oldTable).isEqual
  {
  }

  /** When only one side has columns of its own, swapping the tables moves
      them from `added_columns` to `removed_columns` and back. */
  lemma OneSidedChangeSwaps(oldTable: Table, newTable: Table)
    requires NameSet(oldTable) <= NameSet(newTable) || NameSet(newTable) <= NameSet(oldTable)
    ensures CheckColumnNames(oldTable, newTable).removedColumns == CheckColumnNames(newTable, oldTable).addedColumns
    ensures CheckColumnNames(oldTable, newTable).addedColumns == CheckColumnNames(newTable, oldTable).removedColumns
  {
    var a, b := NameSet(oldTable), NameSet(newTable);
    if a <= b {
      assert a - b == {};
    } else {
      assert b - a == {};
    }
  }

  /** The asymmetry made concrete: old columns {A, B}, new columns {A, C}.
      Both sides have a column of their own, yet only `removed_columns`
      ({B}) is reported; with the tables swapped only {C} is. */
  lemma BothSidesReportOnlyRemoved()
    ensures var oldTable := Table([Column("A", "int64"), Column("B", "int64")], []);
            var newTable := Table([Column("A", "int64"), Column("C", "int64")], []);
            && CheckColumnNames(oldTable, newTable) == ColumnNameChanges(false, [UniqueInOld(1)], Some({"B"}), None)
            && CheckColumnNames(newTable, oldTable) == ColumnNameChanges(false, [UniqueInOld(1)], Some({"C"}), None)
  {
    var oldTable := Table([Column("A", "int64"), Column("B", "int64")], []);
    var newTable := Table([Column("A", "int64"), Column("C", "int64")], []);
    assert NameSet(oldTable) == {"A", "B"} by {
      assert Names(oldTable) == ["A", "B"];
    }
    assert NameSet(newTable) == {"A", "C"} by {
      assert Names(newTable) == ["A", "C"];
    }
    assert "B" != "A" && "C" != "A" && "B" != "C";
    assert NameSet(oldTable) - NameSet(newTable) == {"B"};
    assert NameSet(newTable) - NameSet(oldTable) == {"C"};
  }

  /** Old columns {A, B, C} against new columns {A, B}: not equal, and
      `removed_columns` is {C}. */
  lemma RemovedColumnScenario()
    ensures var oldTable := Table([Column("A", "int64"), Column("B", "object"), Column("C", "object")], []);
            var newTable := Table([Column("A", "int64"), Column("B", "object")], []);
            var r := CheckColumnNames(oldTable, newTable);
            !r.isEqual && r.removedColumns == Some({"C"}) && r.addedColumns == None
  {
    var oldTable := Table([Column("A", "int64"), Column("B", "object"), Column("C", "object")], []);
    var newTable := Table([Column("A", "int64"), Column("B", "object")], []);
    NamesOfScenario(oldTable, newTable);
  }

  lemma NamesOfScenario(oldTable: Table, newTable: Table)
    requires oldTable == Table([Column("A", "int64"), Column("B", "object"), Column("C", "object")], [])
    requires newTable == Table([Column("A", "int64"), Column("B", "object")], [])
    ensures NameSet(oldTable) - NameSet(newTable) == {"C"}
  {
    assert Names(oldTable) == ["A", "B", "C"];
    assert Names(newTable) == ["A", "B"];
    assert "C" != "A" && "C" != "B";
  }
}
