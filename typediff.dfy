/** The type differ (`check_datatypes`). */
module TypeDiff {
  import opened Wrappers
  import opened Sequences
  import opened Tables

  /** One line of the old/new type table (`combined_df`). */
  datatype TypeRow = TypeRow(columnName: Col, oldDtype: DType, newDtype: DType)

  /** "{n} column(s) have different types ({p} of shared columns)", as data. */
  datatype TypeNote = ColumnsWithDifferentTypes(count: nat, share: Ratio)

  /** The `datatype_changes` section. */
  datatype DatatypeChanges = DatatypeChanges(
    isEqual: bool,
    summary: seq<TypeNote>,
    summaryTable: seq<TypeRow>,
    changedColumns: seq<Col>)

  /** The declared type of the first column named `name`. */
  function DTypeOf(cols: seq<Column>, name: Col): (r: Option<DType>)
    ensures r.Some? <==> exists i :: 0 <= i < |cols| && cols[i].name == name
    ensures r.Some? ==> exists i :: 0 <= i < |cols| && cols[i] == Column(name, r.value)
  {
    if cols == [] then None
    else if cols[0].name == name then Some(cols[0].dtype)
    else
      var r := DTypeOf(cols[1..], name);
      assert r.Some? ==> exists i :: 1 <= i < |cols| && cols[i] == Column(name, r.value) by {
        if r.Some? {
          var i :| 0 <= i < |cols[1..]| && cols[1..][i] == Column(name, r.value);
          assert cols[i + 1] == Column(name, r.value);
        }
      }
      assert (exists i :: 0 <= i < |cols| && cols[i].name == name) ==>
             (exists i :: 0 <= i < |cols[1..]| && cols[1..][i].name == name) by {
        if exists i :: 0 <= i < |cols| && cols[i].name == name {
          var i :| 0 <= i < |cols| && cols[i].name == name;
          assert cols[1..][i - 1].name == name;
        }
      }
      r
  }

  /** `pd.concat([old.dtypes, new.dtypes], axis=1).dropna()`: the columns of
      the old table that the new table also has, with both type labels, in
      the old table's column order. */
  function Combined(oldCols: seq<Column>, newCols: seq<Column>): (r: seq<TypeRow>)
    ensures |r| <= |oldCols|
    ensures forall i :: 0 <= i < |r| ==>
      (exists j :: 0 <= j < |oldCols| && oldCols[j] == Column(r[i].columnName, r[i].oldDtype))
      && DTypeOf(newCols, r[i].columnName) == Some(r[i].newDtype)
    ensures forall j :: 0 <= j < |oldCols| && DTypeOf(newCols, oldCols[j].name).Some? ==>
      TypeRow(oldCols[j].name, oldCols[j].dtype, DTypeOf(newCols, oldCols[j].name).value) in r
  {
    if oldCols == [] then []
    else
      var rest := Combined(oldCols[1..], newCols);
      var c := oldCols[0];
      var row := match DTypeOf(newCols, c.name)
        case Some(d) => [TypeRow(c.name, c.dtype, d)]
        case None => [];
      forall i | 0 <= i < |rest|
        ensures exists j :: 0 <= j < |oldCols| && oldCols[j] == Column(rest[i].columnName, rest[i].oldDtype)
      {
        var j :| 0 <= j < |oldCols[1..]| && oldCols[1..][j] == Column(rest[i].columnName, rest[i].oldDtype);
        assert oldCols[j + 1] == oldCols[1..][j];
      }
      forall j | 0 <= j < |oldCols| && DTypeOf(newCols, oldCols[j].name).Some?
        ensures TypeRow(oldCols[j].name, oldCols[j].dtype, DTypeOf(newCols, oldCols[j].name).value) in row + rest
      {
        if j > 0 { assert oldCols[j] == oldCols[1..][j - 1]; }
      }
      row + rest
  }

  /** A combined row whose labels differ and that passes the subset filter. */
  predicate IsTypeChange(row: TypeRow, pk: Col, subset: Option<seq<Col>>)
  {
    row.oldDtype != row.newDtype && Selected(row.columnName, pk, subset)
  }

  function RowNames(rows: seq<TypeRow>): (r: seq<Col>)
    ensures |r| == |rows| && forall i :: 0 <= i < |r| ==> r[i] == rows[i].columnName
  {
    seq(|rows|, i requires 0 <= i < |rows| => rows[i].columnName)
  }

  /** The rows of `combined_df` that `check_datatypes` selects. */
  function TypeChanges(oldTable: Table, newTable: Table, pk: Col, subset: Option<seq<Col>>): seq<TypeRow>
  {
    Filter(Combined(oldTable.columns, newTable.columns), (row: TypeRow) => IsTypeChange(row, pk, subset))
  }

  /** Every selected row is a row of the aligned type table whose labels differ. */
  lemma TypeChangesRows(combined: seq<TypeRow>, changes: seq<TypeRow>, pk: Col, subset: Option<seq<Col>>)
    requires changes == Filter(combined, (row: TypeRow) => IsTypeChange(row, pk, subset))
    ensures forall i :: 0 <= i < |changes| ==> changes[i] in combined && changes[i].oldDtype != changes[i].newDtype
  {
  }

  /** `check_datatypes`: the columns present in both tables whose type
      labels differ, narrowed to the key plus the subset when one is given.
      The share is taken over all shared columns, subset or not. */
  function CheckDatatypes(oldTable: Table, newTable: Table, pk: Col, subset: Option<seq<Col>>): (r: DatatypeChanges)
    ensures r.isEqual <==> r.changedColumns == []
    ensures r.isEqual ==> r.summary == [] && r.summaryTable == []
    ensures !r.isEqual ==>
      r.summary == [ColumnsWithDifferentTypes(|r.changedColumns|,
                      Ratio(|r.changedColumns|, |Combined(oldTable.columns, newTable.columns)|))]
    ensures r.changedColumns == RowNames(r.summaryTable)
    ensures forall i :: 0 <= i < |r.summaryTable| ==> r.summaryTable[i].oldDtype != r.summaryTable[i].newDtype
    ensures forall i :: 0 <= i < |r.summaryTable| ==> r.summaryTable[i] in Combined(oldTable.columns, newTable.columns)
  {
    var combined := Combined(oldTable.columns, newTable.columns);
    var changes := TypeChanges(oldTable, newTable, pk, subset);
    TypeChangesRows(combined, changes, pk, subset);
    if |changes| == 0 then DatatypeChanges(true, [], [], [])
    else
      DatatypeChanges(false, [ColumnsWithDifferentTypes(|changes|, Ratio(|changes|, |combined|))],
                      changes, RowNames(changes))
  }

  /** `changed_columns` is exactly the columns present in both tables whose
      type labels differ and that pass the subset filter. */
  lemma ChangedColumnsMeaning(oldTable: Table, newTable: Table, pk: Col, subset: Option<seq<Col>>, c: Col)
    requires Distinct(Names(oldTable))
    ensures c in CheckDatatypes(oldTable, newTable, pk, subset).changedColumns <==>
        && c in NameSet(oldTable) && c in NameSet(newTable)
        && DTypeOf(oldTable.columns, c) != DTypeOf(newTable.columns, c)
        && Selected(c, pk, subset)
  {
    var changes := TypeChanges(oldTable, newTable, pk, subset);
    assert CheckDatatypes(oldTable, newTable, pk, subset).changedColumns == RowNames(changes);
    if c in RowNames(changes) {
      ChangedColumnDiffers(oldTable, newTable, pk, subset, c);
    }
    if && c in NameSet(oldTable) && c in NameSet(newTable)
       && DTypeOf(oldTable.columns, c) != DTypeOf(newTable.columns, c)
       && Selected(c, pk, subset) {
      DifferingColumnChanged(oldTable, newTable, pk, subset, c);
    }
  }

  lemma ChangedColumnDiffers(oldTable: Table, newTable: Table, pk: Col, subset: Option<seq<Col>>, c: Col)
    requires Distinct(Names(oldTable))
    requires c in RowNames(TypeChanges(oldTable, newTable, pk, subset))
    ensures c in NameSet(oldTable) && c in NameSet(newTable)
    ensures DTypeOf(oldTable.columns, c) != DTypeOf(newTable.columns, c)
    ensures Selected(c, pk, subset)
  {
    var changes := TypeChanges(oldTable, newTable, pk, subset);
    var i :| 0 <= i < |changes| && RowNames(changes)[i] == c;
    var row := changes[i];
    assert row in Combined(oldTable.columns, newTable.columns) && IsTypeChange(row, pk, subset);
    CombinedRowLabels(oldTable, newTable, row);
  }

  /** A row of `combined_df` carries the column's own labels from both tables. */
  lemma CombinedRowLabels(oldTable: Table, newTable: Table, row: TypeRow)
    requires Distinct(Names(oldTable))
    requires row in Combined(oldTable.columns, newTable.columns)
    ensures row.columnName in NameSet(oldTable) && row.columnName in NameSet(newTable)
    ensures DTypeOf(oldTable.columns, row.columnName) == Some(row.oldDtype)
    ensures DTypeOf(newTable.columns, row.columnName) == Some(row.newDtype)
  {
    var c := row.columnName;
    var combined := Combined(oldTable.columns, newTable.columns);
    var k :| 0 <= k < |combined| && combined[k] == row;
    var j :| 0 <= j < |oldTable.columns| && oldTable.columns[j] == Column(c, row.oldDtype);
    assert Names(oldTable)[j] == c;
    FirstOfDistinct(oldTable, j);
    var jn :| 0 <= jn < |newTable.columns| && newTable.columns[jn] == Column(c, row.newDtype);
    assert Names(newTable)[jn] == c;
  }

  lemma DifferingColumnChanged(oldTable: Table, newTable: Table, pk: Col, subset: Option<seq<Col>>, c: Col)
    requires Distinct(Names(oldTable))
    requires c in NameSet(oldTable) && c in NameSet(newTable)
    requires DTypeOf(oldTable.columns, c) != DTypeOf(newTable.columns, c)
    requires Selected(c, pk, subset)
    ensures c in RowNames(TypeChanges(oldTable, newTable, pk, subset))
  {
    var changes := TypeChanges(oldTable, newTable, pk, subset);
    var combined := Combined(oldTable.columns, newTable.columns);
    var j :| 0 <= j < |Names(oldTable)| && Names(oldTable)[j] == c;
    FirstOfDistinct(oldTable, j);
    var jn :| 0 <= jn < |Names(newTable)| && Names(newTable)[jn] == c;
    assert newTable.columns[jn].name == c;
    var row := TypeRow(c, oldTable.columns[j].dtype, DTypeOf(newTable.columns, c).value);
    assert row in combined;
    assert IsTypeChange(row, pk, subset);
    var k :| 0 <= k < |combined| && combined[k] == row;
    assert row in changes;
    var i :| 0 <= i < |changes| && changes[i] == row;
    assert RowNames(changes)[i] == c;
  }

  /** A subset only narrows the selected rows: the rows reported with a
      subset are those reported without one that pass the subset filter. */
  lemma SubsetNarrowsTypeChanges(oldTable: Table, newTable: Table, pk: Col, subset: seq<Col>)
    ensures TypeChanges(oldTable, newTable, pk, Some(subset))
         == Filter(TypeChanges(oldTable, newTable, pk, None),
                   (row: TypeRow) => Selected(row.columnName, pk, Some(subset)))
  {
    FilterFilter(Combined(oldTable.columns, newTable.columns),
                 (row: TypeRow) => IsTypeChange(row, pk, None),
                 (row: TypeRow) => Selected(row.columnName, pk, Some(subset)),
                 (row: TypeRow) => IsTypeChange(row, pk, Some(subset)));
  }

  /** The share's denominator, `len(combined_df)`, is the number of column
      names the two tables share. */
  lemma SharedColumnCount(oldTable: Table, newTable: Table)
    requires Distinct(Names(oldTable))
    ensures |Combined(oldTable.columns, newTable.columns)| == |NameSet(oldTable) * NameSet(newTable)|
  {
    var names := RowNames(Combined(oldTable.columns, newTable.columns));
    CombinedDistinct(oldTable.columns, newTable.columns);
    DistinctCardinality(names);
    forall n ensures n in names <==> n in NameSet(oldTable) * NameSet(newTable) {
      SharedNameIsCombined(oldTable, newTable, n);
    }
    assert (set x | x in names) == NameSet(oldTable) * NameSet(newTable);
  }

  lemma SharedNameIsCombined(oldTable: Table, newTable: Table, n: Col)
    ensures n in RowNames(Combined(oldTable.columns, newTable.columns))
        <==> n in NameSet(oldTable) && n in NameSet(newTable)
  {
    var combined := Combined(oldTable.columns, newTable.columns);
    var names := RowNames(combined);
    if n in NameSet(oldTable) && n in NameSet(newTable) {
      var j :| 0 <= j < |Names(oldTable)| && Names(oldTable)[j] == n;
      var jn :| 0 <= jn < |Names(newTable)| && Names(newTable)[jn] == n;
      assert newTable.columns[jn].name == n;
      var row := TypeRow(n, oldTable.columns[j].dtype, DTypeOf(newTable.columns, n).value);
      assert row in combined;
      var i :| 0 <= i < |combined| && combined[i] == row;
      assert names[i] == n;
    }
    if n in names {
      var i :| 0 <= i < |names| && names[i] == n;
      var j :| 0 <= j < |oldTable.columns| && oldTable.columns[j] == Column(n, combined[i].oldDtype);
      assert Names(oldTable)[j] == n;
      var jn :| 0 <= jn < |newTable.columns| && newTable.columns[jn].name == n;
      assert Names(newTable)[jn] == n;
    }
  }

  /** Distinct old column names give distinct combined rows. */
  lemma {:induction false} CombinedDistinct(cols: seq<Column>, newCols: seq<Column>)
    requires forall i, j :: 0 <= i < j < |cols| ==> cols[i].name != cols[j].name
    ensures Distinct(RowNames(Combined(cols, newCols)))
  {
    if cols != [] {
      var rest := cols[1..];
      forall i, j | 0 <= i < j < |rest| ensures rest[i].name != rest[j].name {
        assert rest[i] == cols[i + 1] && rest[j] == cols[j + 1];
      }
      CombinedDistinct(rest, newCols);
      CombinedDistinctStep(cols, newCols);
    }
  }

  /** Putting a column in front of distinct combined rows keeps them distinct
      when its name is new. */
  lemma CombinedDistinctStep(cols: seq<Column>, newCols: seq<Column>)
    requires cols != []
    requires forall i, j :: 0 <= i < j < |cols| ==> cols[i].name != cols[j].name
    requires Distinct(RowNames(Combined(cols[1..], newCols)))
    ensures Distinct(RowNames(Combined(cols, newCols)))
  {
    var tail := Combined(cols[1..], newCols);
    var d := DTypeOf(newCols, cols[0].name);
    CombinedCons(cols, newCols);
    if d.Some? {
      var row := TypeRow(cols[0].name, cols[0].dtype, d.value);
      RowNamesCons(row, tail);
      CombinedOmitsHead(cols, newCols);
      DistinctCons(cols[0].name, RowNames(tail));
    }
  }

  lemma RowNamesCons(row: TypeRow, rows: seq<TypeRow>)
    ensures RowNames([row] + rows) == [row.columnName] + RowNames(rows)
  {
  }

  /** One step of `Combined`: the first old column, when the new table has
      it, then the rest. */
  lemma CombinedCons(cols: seq<Column>, newCols: seq<Column>)
    requires cols != []
    ensures var d := DTypeOf(newCols, cols[0].name);
            Combined(cols, newCols)
              == (if d.Some? then [TypeRow(cols[0].name, cols[0].dtype, d.value)] else [])
                 + Combined(cols[1..], newCols)
  {
  }

  /** With distinct names, the first column's name is not among the combined
      rows of the later columns. */
  lemma CombinedOmitsHead(cols: seq<Column>, newCols: seq<Column>)
    requires cols != []
    requires forall i, j :: 0 <= i < j < |cols| ==> cols[i].name != cols[j].name
    ensures cols[0].name !in RowNames(Combined(cols[1..], newCols))
  {
  }

  /** With distinct names, the type found for a column's name is its own. */
  lemma FirstOfDistinct(t: Table, j: nat)
    requires Distinct(Names(t)) && j < |t.columns|
    ensures DTypeOf(t.columns, t.columns[j].name) == Some(t.columns[j].dtype)
  {
    var name := t.columns[j].name;
    var r := DTypeOf(t.columns, name);
    var i :| 0 <= i < |t.columns| && t.columns[i] == Column(name, r.value);
    assert Names(t)[i] == Names(t)[j];
  }
}
