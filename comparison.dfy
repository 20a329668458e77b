/** The record-changes comparison table (`get_record_changes_comparison_df`):
    the old and new rows of every changed record side by side, old columns
    suffixed `_OLD` and new columns suffixed `_NEW`. */
module Comparison {
  import opened Wrappers
  import opened Strings
  import opened Sequences
  import opened Tables
  import opened SharedRecords
  import opened ValueDiff

  /** A frame with the key first and the suffixed columns after it. */
  datatype ComparisonTable = ComparisonTable(columns: seq<Col>, rows: seq<Row>)

  const OldSuffix: string := "_OLD"
  const NewSuffix: string := "_NEW"

  function NotKey(pk: Col): Col -> bool
  {
    (c: Col) => c != pk
  }

  /** The non-key column names with `suffix` appended, in order. */
  function Renamed(names: seq<Col>, pk: Col, suffix: string): (r: seq<Col>)
    ensures |r| == |Filter(names, NotKey(pk))|
    ensures forall i :: 0 <= i < |r| ==> r[i] == Filter(names, NotKey(pk))[i] + suffix
  {
    var kept := Filter(names, NotKey(pk));
    seq(|kept|, i requires 0 <= i < |kept| => kept[i] + suffix)
  }

  /** Each non-key name appears renamed, and only renamed non-key names do. */
  lemma RenamedMembers(names: seq<Col>, pk: Col, suffix: string, x: Col)
    ensures x in Renamed(names, pk, suffix)
        <==> exists i :: 0 <= i < |names| && names[i] != pk && x == names[i] + suffix
  {
    var kept := Filter(names, NotKey(pk));
    var r := Renamed(names, pk, suffix);
    if x in r {
      var i :| 0 <= i < |r| && r[i] == x;
      assert kept[i] in names;
      var j :| 0 <= j < |names| && names[j] == kept[i];
    }
    if exists i :: 0 <= i < |names| && names[i] != pk && x == names[i] + suffix {
      var i :| 0 <= i < |names| && names[i] != pk && x == names[i] + suffix;
      assert NotKey(pk)(names[i]);
      assert names[i] in kept;
      var j :| 0 <= j < |kept| && kept[j] == names[i];
      assert r[j] == x;
    }
  }

  /** The non-key cells of `row`, each under its suffixed name. */
  function Suffixed(row: Row, names: seq<Col>, pk: Col, suffix: string): (r: Row)
    ensures forall c :: c in names && c != pk ==> c + suffix in r && r[c + suffix] == Get(row, c)
    ensures forall x :: x in r ==> exists i :: 0 <= i < |names| && names[i] != pk && x == names[i] + suffix
  {
    if names == [] then map[]
    else
      var rest := Suffixed(row, names[1..], pk, suffix);
      assert forall i :: 1 <= i < |names| ==> names[1..][i - 1] == names[i];
      assert forall c :: c in names ==> c == names[0] || c in names[1..];
      if names[0] == pk then rest
      else
        forall c | c in names && c != pk && c + suffix == names[0] + suffix
          ensures c == names[0]
        {
          SuffixCancels(c, names[0], suffix);
        }
        rest[names[0] + suffix := Get(row, names[0])]
  }

  lemma SuffixCancels(a: string, b: string, suffix: string)
    requires a + suffix == b + suffix
    ensures a == b
  {
    assert |a| == |b|;
    assert a == (a + suffix)[..|a|];
    assert b == (b + suffix)[..|b|];
  }

  /** No `_OLD` name is a `_NEW` name. */
  lemma SuffixesDiffer(c: string, d: string)
    ensures c + OldSuffix != d + NewSuffix
  {
    if |c| == |d| {
      assert (c + OldSuffix)[|c| + 3] == 'D' && (d + NewSuffix)[|d| + 3] == 'W';
    } else {
      assert |c + OldSuffix| != |d + NewSuffix|;
    }
  }

  /** One merged row: the non-key cells of the old row under `_OLD` names
      and of the new row under `_NEW` names, and the key. */
  function MergedRow(oldRow: Row, newRow: Row, pk: Col, oldNames: seq<Col>, newNames: seq<Col>): Row
  {
    Suffixed(oldRow, oldNames, pk, OldSuffix) + Suffixed(newRow, newNames, pk, NewSuffix)
      + map[pk := Get(oldRow, pk)]
  }

  /** A merged row has the key, the old cells under their `_OLD` names and
      the new cells under their `_NEW` names. */
  lemma MergedRowCells(oldRow: Row, newRow: Row, pk: Col, oldNames: seq<Col>, newNames: seq<Col>)
    ensures var r := MergedRow(oldRow, newRow, pk, oldNames, newNames);
            && Get(r, pk) == Get(oldRow, pk)
            && (forall c :: c in oldNames && c != pk && c + OldSuffix != pk ==> Get(r, c + OldSuffix) == Get(oldRow, c))
            && (forall c :: c in newNames && c != pk && c + NewSuffix != pk ==> Get(r, c + NewSuffix) == Get(newRow, c))
  {
    var o := Suffixed(oldRow, oldNames, pk, OldSuffix);
    var n := Suffixed(newRow, newNames, pk, NewSuffix);
    forall c | c in oldNames && c != pk ensures c + OldSuffix !in n {
      if c + OldSuffix in n {
        var i :| 0 <= i < |newNames| && newNames[i] != pk && c + OldSuffix == newNames[i] + NewSuffix;
        SuffixesDiffer(c, newNames[i]);
      }
    }
  }

  /** `row` merged with each of `matches`, in order. */
  function MergeWith(row: Row, matches: seq<Row>, pk: Col, oldNames: seq<Col>, newNames: seq<Col>): (r: seq<Row>)
    ensures |r| == |matches|
    ensures forall i :: 0 <= i < |r| ==> r[i] == MergedRow(row, matches[i], pk, oldNames, newNames)
  {
    seq(|matches|, i requires 0 <= i < |matches| => MergedRow(row, matches[i], pk, oldNames, newNames))
  }

  function SameKey(pk: Col, k: Cell): Row -> bool
  {
    (row: Row) => Get(row, pk) == k
  }

  /** `pd.merge(left, right, how='inner', on=pk)`: every pair of rows with
      equal keys, in the order of the left rows and then the right rows. */
  function JoinRows(lefts: seq<Row>, rights: seq<Row>, pk: Col, oldNames: seq<Col>, newNames: seq<Col>): seq<Row>
  {
    FlatMap(lefts, MatchesOf(rights, pk, oldNames, newNames))
  }

  /** A left row merged with each right row that has its key, in right order. */
  function MatchesOf(rights: seq<Row>, pk: Col, oldNames: seq<Col>, newNames: seq<Col>): Row -> seq<Row>
  {
    (row: Row) => MergeWith(row, Filter(rights, SameKey(pk, Get(row, pk))), pk, oldNames, newNames)
  }

  /** All output columns: the key, then the suffixed names sorted as Python
      sorts strings. */
  function SortedRenamed(oldTable: Table, newTable: Table, pk: Col): (r: seq<Col>)
    ensures SortedBy(r, StrLe)
    ensures multiset(r) == multiset(Renamed(Names(oldTable), pk, OldSuffix) + Renamed(Names(newTable), pk, NewSuffix))
  {
    StrLeIsTotalPreorder();
    InsertionSort(Renamed(Names(oldTable), pk, OldSuffix) + Renamed(Names(newTable), pk, NewSuffix), StrLe)
  }

  /** The subset filter: a column is kept when some subset name followed by
      `_` occurs anywhere in its name. */
  predicate KeptBySubset(subset: seq<Col>, c: Col)
  {
    exists i :: 0 <= i < |subset| && IsSubstring(subset[i] + "_", c)
  }

  /** The key followed by the kept names of `[pk] + sorted`. */
  function KeyAndKept(pk: Col, sorted: seq<Col>, subset: seq<Col>): (r: seq<Col>)
    requires SortedBy(sorted, StrLe)
    ensures |r| >= 1 && r[0] == pk
    ensures forall c :: c in r[1..] <==> (c == pk || c in sorted) && KeptBySubset(subset, c)
    ensures KeptBySubset(subset, pk) ==> |r| >= 2 && r[1] == pk && SortedBy(r[2..], StrLe)
    ensures !KeptBySubset(subset, pk) ==> SortedBy(r[1..], StrLe)
  {
    var keep := (c: Col) => KeptBySubset(subset, c);
    var all := [pk] + sorted;
    assert all[1..] == sorted;
    FilterSorted(sorted, keep, StrLe);
    if keep(pk) then
      assert Filter(all, keep) == [pk] + Filter(sorted, keep);
      [pk] + Filter(all, keep)
    else
      assert Filter(all, keep) == Filter(sorted, keep);
      [pk] + Filter(all, keep)
  }

  /** The output columns: the key, then the sorted suffixed names. With a
      subset the key is followed by the kept names of that whole list, the
      key itself included, so the key comes out twice when it passes the
      filter; the other kept names stay in sorted order. */
  function OutputColumns(oldTable: Table, newTable: Table, pk: Col, subset: Option<seq<Col>>): (r: seq<Col>)
    ensures |r| >= 1 && r[0] == pk
    ensures subset.None? ==> r[1..] == SortedRenamed(oldTable, newTable, pk)
    ensures subset.Some? ==> r == KeyAndKept(pk, SortedRenamed(oldTable, newTable, pk), subset.value)
  {
    var sorted := SortedRenamed(oldTable, newTable, pk);
    match subset
    case None => [pk] + sorted
    case Some(s) => KeyAndKept(pk, sorted, s)
  }

  /** `get_record_changes_comparison_df`. No table when the value check finds
      no change; otherwise the join of the old and new rows of the changed
      records, cut to the output columns. */
  function RecordChangesComparison(oldTable: Table, newTable: Table, pk: Col, subset: Option<seq<Col>>)
    : (r: Result<Option<ComparisonTable>, Error>)
    ensures CheckChgInValues(oldTable, newTable, pk, subset).Failure? ==>
      r == Failure(CheckChgInValues(oldTable, newTable, pk, subset).error)
    ensures r.Success? <==> CheckChgInValues(oldTable, newTable, pk, subset).Success?
    ensures r.Success? ==> (r.value.None? <==> CheckChgInValues(oldTable, newTable, pk, subset).value.isEqual)
    ensures r.Success? && r.value.Some? ==>
      && r.value.value.columns == OutputColumns(oldTable, newTable, pk, subset)
      && r.value.value.rows == RestrictRows(ChangedJoin(oldTable, newTable, pk,
                                 CheckChgInValues(oldTable, newTable, pk, subset).value.changedRecords),
                               r.value.value.columns)
  {
    var changes :- CheckChgInValues(oldTable, newTable, pk, subset);
    if changes.isEqual then Success(None)
    else
      var cols := OutputColumns(oldTable, newTable, pk, subset);
      Success(Some(ComparisonTable(cols, RestrictRows(ChangedJoin(oldTable, newTable, pk, changes.changedRecords), cols))))
  }

  /** The merge of the old and new rows whose key is among `changed`. */
  function ChangedJoin(oldTable: Table, newTable: Table, pk: Col, changed: seq<Cell>): seq<Row>
  {
    var keys := set k | k in changed;
    JoinRows(RowsWithKeys(oldTable.rows, pk, keys), RowsWithKeys(newTable.rows, pk, keys), pk,
             Names(oldTable), Names(newTable))
  }

  // ---------------------------------------------------------------------
  // Proofs

  lemma StrLeIsTotalPreorder()
    ensures TotalPreorder(StrLe)
  {
    forall a, b ensures StrLe(a, b) || StrLe(b, a) {
      StrLeTotal(a, b);
    }
    forall a, b, c | StrLe(a, b) && StrLe(b, c) ensures StrLe(a, c) {
      StrLeTransitive(a, b, c);
    }
  }

  /** Every joined row merges a left row and a right row with equal keys. */
  lemma JoinSource(lefts: seq<Row>, rights: seq<Row>, pk: Col, oldNames: seq<Col>, newNames: seq<Col>, i: nat)
    returns (a: nat, b: nat)
    requires i < |JoinRows(lefts, rights, pk, oldNames, newNames)|
    ensures a < |lefts| && b < |rights| && Get(lefts[a], pk) == Get(rights[b], pk)
    ensures JoinRows(lefts, rights, pk, oldNames, newNames)[i] == MergedRow(lefts[a], rights[b], pk, oldNames, newNames)
  {
    var k;
    a, k := FlatMapSource(lefts, MatchesOf(rights, pk, oldNames, newNames), i);
    b := MergeSource(lefts[a], rights, pk, oldNames, newNames, k);
  }

  /** Every row merged with the matches of `row` merges it with a right row
      with its key. */
  lemma MergeSource(row: Row, rights: seq<Row>, pk: Col, oldNames: seq<Col>, newNames: seq<Col>, i: nat)
    returns (b: nat)
    requires i < |Filter(rights, SameKey(pk, Get(row, pk)))|
    ensures b < |rights| && Get(rights[b], pk) == Get(row, pk)
    ensures MergeWith(row, Filter(rights, SameKey(pk, Get(row, pk))), pk, oldNames, newNames)[i]
            == MergedRow(row, rights[b], pk, oldNames, newNames)
  {
    b := MatchSource(rights, pk, Get(row, pk), i);
  }

  lemma MatchSource(rights: seq<Row>, pk: Col, k: Cell, i: nat) returns (b: nat)
    requires i < |Filter(rights, SameKey(pk, k))|
    ensures b < |rights| && rights[b] == Filter(rights, SameKey(pk, k))[i] && Get(rights[b], pk) == k
  {
    var matches := Filter(rights, SameKey(pk, k));
    assert matches[i] in rights && SameKey(pk, k)(matches[i]);
    var j :| 0 <= j < |rights| && rights[j] == matches[i];
    b := j;
  }

  /** Every left row and right row with equal keys are joined. */
  lemma JoinHas(lefts: seq<Row>, rights: seq<Row>, pk: Col, oldNames: seq<Col>, newNames: seq<Col>, a: nat, b: nat)
    requires a < |lefts| && b < |rights| && Get(lefts[a], pk) == Get(rights[b], pk)
    ensures MergedRow(lefts[a], rights[b], pk, oldNames, newNames) in JoinRows(lefts, rights, pk, oldNames, newNames)
  {
    var merged := MergedRow(lefts[a], rights[b], pk, oldNames, newNames);
    MergeHas(lefts[a], rights, pk, oldNames, newNames, b);
    FlatMapHas(lefts, MatchesOf(rights, pk, oldNames, newNames), a, merged);
  }

  /** A right row with the key of `row` is among the matches of `row`. */
  lemma MergeHas(row: Row, rights: seq<Row>, pk: Col, oldNames: seq<Col>, newNames: seq<Col>, b: nat)
    requires b < |rights| && Get(rights[b], pk) == Get(row, pk)
    ensures MergedRow(row, rights[b], pk, oldNames, newNames)
            in MergeWith(row, Filter(rights, SameKey(pk, Get(row, pk))), pk, oldNames, newNames)
  {
    var matches := Filter(rights, SameKey(pk, Get(row, pk)));
    assert SameKey(pk, Get(row, pk))(rights[b]);
    assert rights[b] in matches;
    var j :| 0 <= j < |matches| && matches[j] == rights[b];
    assert MergeWith(row, matches, pk, oldNames, newNames)[j] == MergedRow(row, rights[b], pk, oldNames, newNames);
  }

  /** When each left key occurs exactly once on the right, the join has one
      row per left row. */
  lemma {:induction false} JoinLength(lefts: seq<Row>, rights: seq<Row>, pk: Col, oldNames: seq<Col>, newNames: seq<Col>)
    requires Distinct(CellsOf(rights, pk))
    requires forall a :: 0 <= a < |lefts| ==> Get(lefts[a], pk) in CellsOf(rights, pk)
    ensures |JoinRows(lefts, rights, pk, oldNames, newNames)| == |lefts|
    decreases |lefts|
  {
    if lefts != [] {
      assert forall a :: 1 <= a < |lefts| ==> lefts[1..][a - 1] == lefts[a];
      JoinLength(lefts[1..], rights, pk, oldNames, newNames);
      SingleMatch(rights, pk, Get(lefts[0], pk));
    }
  }

  /** A key that occurs once among the rows matches exactly one row. */
  lemma {:induction false} SingleMatch(rows: seq<Row>, pk: Col, k: Cell)
    requires Distinct(CellsOf(rows, pk)) && k in CellsOf(rows, pk)
    ensures |Filter(rows, SameKey(pk, k))| == 1
  {
    CellsOfTail(rows, pk);
    DistinctCons(Get(rows[0], pk), CellsOf(rows[1..], pk));
    FilterCons(rows, SameKey(pk, k));
    if Get(rows[0], pk) == k {
      NoMatch(rows[1..], pk, k);
    } else {
      SingleMatch(rows[1..], pk, k);
    }
  }

  lemma NoMatch(rows: seq<Row>, pk: Col, k: Cell)
    requires k !in CellsOf(rows, pk)
    ensures Filter(rows, SameKey(pk, k)) == []
  {
  }

  /** The changed records are keys of both tables. */
  lemma ChangedKeysShared(oldTable: Table, newTable: Table, pk: Col, subset: Option<seq<Col>>)
    requires UniqueKeys(oldTable, pk) && UniqueKeys(newTable, pk)
    requires CheckChgInValues(oldTable, newTable, pk, subset).Success?
    ensures var keys := set k | k in CheckChgInValues(oldTable, newTable, pk, subset).value.changedRecords;
            keys <= KeySet(oldTable, pk) && keys <= KeySet(newTable, pk)
  {
    var changed := CheckChgInValues(oldTable, newTable, pk, subset).value.changedRecords;
    forall k | k in changed ensures k in KeySet(oldTable, pk) && k in KeySet(newTable, pk) {
      var a, b := ChangedRecordSource(oldTable, newTable, pk, subset, k);
    }
  }

  /** With unique keys the comparison table has one row per changed record. */
  lemma ComparisonRowCount(oldTable: Table, newTable: Table, pk: Col, subset: Option<seq<Col>>)
    requires UniqueKeys(oldTable, pk) && UniqueKeys(newTable, pk)
    requires RecordChangesComparison(oldTable, newTable, pk, subset).Success?
    requires RecordChangesComparison(oldTable, newTable, pk, subset).value.Some?
    ensures |RecordChangesComparison(oldTable, newTable, pk, subset).value.value.rows|
         == |CheckChgInValues(oldTable, newTable, pk, subset).value.changedRecords|
  {
    var changed := CheckChgInValues(oldTable, newTable, pk, subset).value.changedRecords;
    var keys := set k | k in changed;
    ChangedRecordsOrdered(oldTable, newTable, pk, subset);
    DistinctCardinality(changed);
    ChangedKeysShared(oldTable, newTable, pk, subset);
    var lefts := RowsWithKeys(oldTable.rows, pk, keys);
    var rights := RowsWithKeys(newTable.rows, pk, keys);
    RowsPicked(oldTable, pk, keys);
    RowsPicked(newTable, pk, keys);
    forall a | 0 <= a < |lefts| ensures Get(lefts[a], pk) in CellsOf(rights, pk) {
      assert Get(lefts[a], pk) == CellsOf(lefts, pk)[a];
    }
    JoinLength(lefts, rights, pk, Names(oldTable), Names(newTable));
  }

  /** Every joined row merges an old row and a new row with the same key
      among `changed`. */
  lemma ChangedJoinSource(oldTable: Table, newTable: Table, pk: Col, changed: seq<Cell>, i: nat)
    returns (a: nat, b: nat)
    requires i < |ChangedJoin(oldTable, newTable, pk, changed)|
    ensures && a < |oldTable.rows| && b < |newTable.rows|
            && Get(oldTable.rows[a], pk) == Get(newTable.rows[b], pk)
            && Get(oldTable.rows[a], pk) in changed
            && ChangedJoin(oldTable, newTable, pk, changed)[i]
               == MergedRow(oldTable.rows[a], newTable.rows[b], pk, Names(oldTable), Names(newTable))
  {
    var keys := set k | k in changed;
    var lefts := RowsWithKeys(oldTable.rows, pk, keys);
    var rights := RowsWithKeys(newTable.rows, pk, keys);
    var x, y := JoinSource(lefts, rights, pk, Names(oldTable), Names(newTable), i);
    a := PickedSource(oldTable.rows, pk, keys, x);
    b := PickedSource(newTable.rows, pk, keys, y);
  }

  /** A row picked by key is a row of the table with one of the keys. */
  lemma PickedSource(rows: seq<Row>, pk: Col, keys: set<Cell>, x: nat) returns (a: nat)
    requires x < |RowsWithKeys(rows, pk, keys)|
    ensures a < |rows| && rows[a] == RowsWithKeys(rows, pk, keys)[x] && Get(rows[a], pk) in keys
  {
    var picked := RowsWithKeys(rows, pk, keys);
    assert picked[x] in rows && Get(picked[x], pk) in keys;
    a :| 0 <= a < |rows| && rows[a] == picked[x];
  }

  /** Every old row and new row with the same key among `changed` are joined. */
  lemma ChangedJoinFor(oldTable: Table, newTable: Table, pk: Col, changed: seq<Cell>, a: nat, b: nat)
    requires a < |oldTable.rows| && b < |newTable.rows|
    requires Get(oldTable.rows[a], pk) == Get(newTable.rows[b], pk)
    requires Get(oldTable.rows[a], pk) in changed
    ensures MergedRow(oldTable.rows[a], newTable.rows[b], pk, Names(oldTable), Names(newTable))
            in ChangedJoin(oldTable, newTable, pk, changed)
  {
    var keys := set k | k in changed;
    var lefts := RowsWithKeys(oldTable.rows, pk, keys);
    var rights := RowsWithKeys(newTable.rows, pk, keys);
    assert oldTable.rows[a] in lefts;
    assert newTable.rows[b] in rights;
    var x :| 0 <= x < |lefts| && lefts[x] == oldTable.rows[a];
    var y :| 0 <= y < |rights| && rights[y] == newTable.rows[b];
    JoinHas(lefts, rights, pk, Names(oldTable), Names(newTable), x, y);
  }

  /** Every row of the comparison table is the merge of an old row and a new
      row with the same changed key, cut to the output columns. */
  lemma ComparisonRowSource(oldTable: Table, newTable: Table, pk: Col, subset: Option<seq<Col>>, i: nat)
    returns (a: nat, b: nat)
    requires RecordChangesComparison(oldTable, newTable, pk, subset).Success?
    requires RecordChangesComparison(oldTable, newTable, pk, subset).value.Some?
    requires i < |RecordChangesComparison(oldTable, newTable, pk, subset).value.value.rows|
    ensures var t := RecordChangesComparison(oldTable, newTable, pk, subset).value.value;
            && a < |oldTable.rows| && b < |newTable.rows|
            && Get(oldTable.rows[a], pk) == Get(newTable.rows[b], pk)
            && Get(oldTable.rows[a], pk) in CheckChgInValues(oldTable, newTable, pk, subset).value.changedRecords
            && t.rows[i] == Restrict(MergedRow(oldTable.rows[a], newTable.rows[b], pk, Names(oldTable), Names(newTable)), t.columns)
  {
    var changed := CheckChgInValues(oldTable, newTable, pk, subset).value.changedRecords;
    a, b := ChangedJoinSource(oldTable, newTable, pk, changed, i);
  }

  /** Every pair of an old row and a new row with the same changed key is in
      the comparison table. */
  lemma ComparisonRowFor(oldTable: Table, newTable: Table, pk: Col, subset: Option<seq<Col>>, a: nat, b: nat)
    returns (i: nat)
    requires RecordChangesComparison(oldTable, newTable, pk, subset).Success?
    requires RecordChangesComparison(oldTable, newTable, pk, subset).value.Some?
    requires a < |oldTable.rows| && b < |newTable.rows|
    requires Get(oldTable.rows[a], pk) == Get(newTable.rows[b], pk)
    requires Get(oldTable.rows[a], pk) in CheckChgInValues(oldTable, newTable, pk, subset).value.changedRecords
    ensures var t := RecordChangesComparison(oldTable, newTable, pk, subset).value.value;
            && i < |t.rows|
            && t.rows[i] == Restrict(MergedRow(oldTable.rows[a], newTable.rows[b], pk, Names(oldTable), Names(newTable)), t.columns)
  {
    var changed := CheckChgInValues(oldTable, newTable, pk, subset).value.changedRecords;
    ChangedJoinFor(oldTable, newTable, pk, changed, a, b);
    var joined := ChangedJoin(oldTable, newTable, pk, changed);
    i :| 0 <= i < |joined| && joined[i] == MergedRow(oldTable.rows[a], newTable.rows[b], pk, Names(oldTable), Names(newTable));
  }

  /** With unique keys the key column of the comparison table holds exactly
      the changed records. */
  lemma ComparisonKeys(oldTable: Table, newTable: Table, pk: Col, subset: Option<seq<Col>>, k: Cell)
    requires UniqueKeys(oldTable, pk) && UniqueKeys(newTable, pk)
    requires RecordChangesComparison(oldTable, newTable, pk, subset).Success?
    requires RecordChangesComparison(oldTable, newTable, pk, subset).value.Some?
    ensures var t := RecordChangesComparison(oldTable, newTable, pk, subset).value.value;
            k in CellsOf(t.rows, pk) <==> k in CheckChgInValues(oldTable, newTable, pk, subset).value.changedRecords
  {
    var t := RecordChangesComparison(oldTable, newTable, pk, subset).value.value;
    var changed := CheckChgInValues(oldTable, newTable, pk, subset).value.changedRecords;
    if k in CellsOf(t.rows, pk) {
      ComparedKeyChanged(oldTable, newTable, pk, subset, k);
    }
    if k in changed {
      ChangedKeyCompared(oldTable, newTable, pk, subset, k);
    }
  }

  lemma ComparedKeyChanged(oldTable: Table, newTable: Table, pk: Col, subset: Option<seq<Col>>, k: Cell)
    requires RecordChangesComparison(oldTable, newTable, pk, subset).Success?
    requires RecordChangesComparison(oldTable, newTable, pk, subset).value.Some?
    requires k in CellsOf(RecordChangesComparison(oldTable, newTable, pk, subset).value.value.rows, pk)
    ensures k in CheckChgInValues(oldTable, newTable, pk, subset).value.changedRecords
  {
    var t := RecordChangesComparison(oldTable, newTable, pk, subset).value.value;
    var i :| 0 <= i < |t.rows| && CellsOf(t.rows, pk)[i] == k;
    var a, b := ComparisonRowSource(oldTable, newTable, pk, subset, i);
    MergedKeyKept(oldTable.rows[a], newTable.rows[b], pk, Names(oldTable), Names(newTable), t.columns);
  }

  lemma ChangedKeyCompared(oldTable: Table, newTable: Table, pk: Col, subset: Option<seq<Col>>, k: Cell)
    requires UniqueKeys(oldTable, pk) && UniqueKeys(newTable, pk)
    requires RecordChangesComparison(oldTable, newTable, pk, subset).Success?
    requires RecordChangesComparison(oldTable, newTable, pk, subset).value.Some?
    requires k in CheckChgInValues(oldTable, newTable, pk, subset).value.changedRecords
    ensures k in CellsOf(RecordChangesComparison(oldTable, newTable, pk, subset).value.value.rows, pk)
  {
    var t := RecordChangesComparison(oldTable, newTable, pk, subset).value.value;
    var a, b := ChangedRecordSource(oldTable, newTable, pk, subset, k);
    var i := ComparisonRowFor(oldTable, newTable, pk, subset, a, b);
    MergedKeyKept(oldTable.rows[a], newTable.rows[b], pk, Names(oldTable), Names(newTable), t.columns);
    assert CellsOf(t.rows, pk)[i] == k;
  }

  /** Cutting a merged row to columns that include the key keeps its key. */
  lemma MergedKeyKept(oldRow: Row, newRow: Row, pk: Col, oldNames: seq<Col>, newNames: seq<Col>, cols: seq<Col>)
    requires |cols| >= 1 && cols[0] == pk
    ensures Get(Restrict(MergedRow(oldRow, newRow, pk, oldNames, newNames), cols), pk) == Get(oldRow, pk)
  {
    MergedRowCells(oldRow, newRow, pk, oldNames, newNames);
    assert pk in cols;
  }

  // ---------------------------------------------------------------------
  // The subset filter

  /** The filter tests containment, not a prefix: with the subset `["B"]`
      it keeps `AB_OLD`, the old copy of a column `AB` outside the subset. */
  lemma SubsetKeepsUnrelatedColumn()
    ensures KeptBySubset(["B"], "AB_OLD")
    ensures "AB_OLD" != "B" + OldSuffix && "AB_OLD" != "B" + NewSuffix
  {
    assert ["B"][0] + "_" == "B_";
    assert OccursAt("B_", "AB_OLD", 1);
  }

  /** A key named `id_no` passes the filter of the subset `["id"]`, so it
      is listed twice. */
  lemma SubsetRepeatsKey(oldTable: Table, newTable: Table)
    ensures var r := OutputColumns(oldTable, newTable, "id_no", Some(["id"]));
            |r| >= 2 && r[0] == "id_no" && r[1] == "id_no"
  {
    assert ["id"][0] + "_" == "id_";
    assert OccursAt("id_", "id_no", 0);
  }

  /** The filter keeps the `_OLD` copy of each subset column of the old
      table and the `_NEW` copy of each subset column of the new table. */
  lemma SubsetCopiesKept(oldTable: Table, newTable: Table, pk: Col, s: seq<Col>, c: Col)
    requires c in s && c != pk
    ensures c in Names(oldTable) ==> c + OldSuffix in OutputColumns(oldTable, newTable, pk, Some(s))[1..]
    ensures c in Names(newTable) ==> c + NewSuffix in OutputColumns(oldTable, newTable, pk, Some(s))[1..]
  {
    var sorted := SortedRenamed(oldTable, newTable, pk);
    if c in Names(oldTable) {
      CopyListed(oldTable, newTable, pk, c, true);
      CopyKept(s, c, OldSuffix);
    }
    if c in Names(newTable) {
      CopyListed(oldTable, newTable, pk, c, false);
      CopyKept(s, c, NewSuffix);
    }
  }

  lemma CopyKept(s: seq<Col>, c: Col, suffix: string)
    requires c in s && |suffix| >= 1 && suffix[0] == '_'
    ensures KeptBySubset(s, c + suffix)
  {
    var i :| 0 <= i < |s| && s[i] == c;
    assert (c + suffix)[..|c| + 1] == s[i] + "_";
    assert OccursAt(s[i] + "_", c + suffix, 0);
  }

  /** A non-key column of the old (new) table is listed as its `_OLD`
      (`_NEW`) copy. */
  lemma CopyListed(oldTable: Table, newTable: Table, pk: Col, c: Col, fromOld: bool)
    requires c != pk && (if fromOld then c in Names(oldTable) else c in Names(newTable))
    ensures (if fromOld then c + OldSuffix else c + NewSuffix) in SortedRenamed(oldTable, newTable, pk)
  {
    var ro := Renamed(Names(oldTable), pk, OldSuffix);
    var rn := Renamed(Names(newTable), pk, NewSuffix);
    if fromOld {
      var j :| 0 <= j < |Names(oldTable)| && Names(oldTable)[j] == c;
      RenamedMembers(Names(oldTable), pk, OldSuffix, c + OldSuffix);
      assert c + OldSuffix in multiset(ro + rn);
    } else {
      var j :| 0 <= j < |Names(newTable)| && Names(newTable)[j] == c;
      RenamedMembers(Names(newTable), pk, NewSuffix, c + NewSuffix);
      assert c + NewSuffix in multiset(ro + rn);
    }
  }

  /** Every non-key column of either table appears, suffixed, among the
      output columns when there is no subset, and nothing else does. */
  lemma AllCopiesListed(oldTable: Table, newTable: Table, pk: Col, x: Col)
    ensures x in OutputColumns(oldTable, newTable, pk, None)[1..] <==>
      || (exists i :: 0 <= i < |Names(oldTable)| && Names(oldTable)[i] != pk && x == Names(oldTable)[i] + OldSuffix)
      || (exists i :: 0 <= i < |Names(newTable)| && Names(newTable)[i] != pk && x == Names(newTable)[i] + NewSuffix)
  {
    var ro := Renamed(Names(oldTable), pk, OldSuffix);
    var rn := Renamed(Names(newTable), pk, NewSuffix);
    RenamedMembers(Names(oldTable), pk, OldSuffix, x);
    RenamedMembers(Names(newTable), pk, NewSuffix, x);
    assert x in SortedRenamed(oldTable, newTable, pk) <==> x in multiset(ro + rn);
  }
}
