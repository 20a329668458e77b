/** The shared-record extractor (`get_records_in_both_tables`): both tables
    cut down to the keys and columns they share, sorted by key, so that
    row `i` of one view lines up with row `i` of the other. */
module SharedRecords {
  import opened Wrappers
  import opened Sequences
  import opened Tables

  /** The two aligned views and the columns they keep. */
  datatype SharedViews = SharedViews(columns: seq<Col>, oldView: seq<Row>, newView: seq<Row>)

  /** `set(old[pk]).intersection(set(new[pk]))`. */
  function SharedKeys(oldTable: Table, newTable: Table, pk: Col): set<Cell>
  {
    KeySet(oldTable, pk) * KeySet(newTable, pk)
  }

  /** The columns of both tables, in the old table's order (the source's
      `list(set(...))` has no fixed order). */
  function SharedColumns(oldTable: Table, newTable: Table): (r: seq<Col>)
    ensures forall c :: c in r <==> c in NameSet(oldTable) && c in NameSet(newTable)
  {
    Filter(Names(oldTable), (c: Col) => c in NameSet(newTable))
  }

  /** The subset columns missing from the shared columns (`np.setdiff1d`). */
  function MissingFromShared(oldTable: Table, newTable: Table, subset: seq<Col>): set<Col>
  {
    set c | c in subset && !(c in NameSet(oldTable) && c in NameSet(newTable))
  }

  /** The columns the views keep: the shared columns, or the validated
      subset with the key appended when it is absent. */
  function EffectiveColumns(oldTable: Table, newTable: Table, pk: Col, subset: Option<seq<Col>>): (r: Result<seq<Col>, Error>)
    ensures subset.None? ==> r == Success(SharedColumns(oldTable, newTable))
    ensures subset.Some? ==>
      if MissingFromShared(oldTable, newTable, subset.value) == {} then
        r.Success? && (forall c :: c in r.value <==> c in subset.value || c == pk)
      else r == Failure(ColumnsNotShared(MissingFromShared(oldTable, newTable, subset.value)))
  {
    match subset
    case None => Success(SharedColumns(oldTable, newTable))
    case Some(s) =>
      var missing := MissingFromShared(oldTable, newTable, s);
      if missing != {} then Failure(ColumnsNotShared(missing))
      else if pk in s then Success(s)
      else Success(s + [pk])
  }

  /** Orders rows by their primary key (`sort_values(primary_key)`). */
  function KeyLe(pk: Col): (Row, Row) -> bool
  {
    (a: Row, b: Row) => CellLe(Get(a, pk), Get(b, pk))
  }

  lemma KeyLeIsTotalPreorder(pk: Col)
    ensures TotalPreorder(KeyLe(pk))
  {
  }

  /** `df.loc[df[pk].isin(keys)]`. */
  function RowsWithKeys(rows: seq<Row>, pk: Col, keys: set<Cell>): seq<Row>
  {
    Filter(rows, (row: Row) => Get(row, pk) in keys)
  }

  /** `df.loc[:, cols]`, with every listed column present in every row. */
  function RestrictRows(rows: seq<Row>, cols: seq<Col>): (r: seq<Row>)
    ensures |r| == |rows|
    ensures forall i :: 0 <= i < |r| ==> r[i] == Restrict(rows[i], cols)
  {
    seq(|rows|, i requires 0 <= i < |rows| => Restrict(rows[i], cols))
  }

  /** One view: the rows with a shared key, cut to `cols`, sorted by key. */
  function View(t: Table, pk: Col, keys: set<Cell>, cols: seq<Col>): seq<Row>
  {
    InsertionSort(RestrictRows(RowsWithKeys(t.rows, pk, keys), cols), KeyLe(pk))
  }

  /** `get_records_in_both_tables`. Fails when a table lacks the key or
      when the subset names a column the two tables do not share. */
  function GetSharedRecords(oldTable: Table, newTable: Table, pk: Col, subset: Option<seq<Col>>): (r: Result<SharedViews, Error>)
    ensures r.Success? <==>
      && pk in Names(oldTable) && pk in Names(newTable)
      && (subset.Some? ==> MissingFromShared(oldTable, newTable, subset.value) == {})
    ensures pk in Names(oldTable) && pk in Names(newTable) && subset.Some?
            && MissingFromShared(oldTable, newTable, subset.value) != {} ==>
      r == Failure(ColumnsNotShared(MissingFromShared(oldTable, newTable, subset.value)))
    ensures r.Success? ==>
      && pk in r.value.columns
      && (subset.None? ==> forall c :: c in r.value.columns <==> c in NameSet(oldTable) && c in NameSet(newTable))
      && (subset.Some? ==> forall c :: c in r.value.columns <==> c in subset.value || c == pk)
      && IsView(r.value.oldView, oldTable, pk, SharedKeys(oldTable, newTable, pk), r.value.columns)
      && IsView(r.value.newView, newTable, pk, SharedKeys(oldTable, newTable, pk), r.value.columns)
  {
    if pk !in Names(oldTable) || pk !in Names(newTable) then Failure(MissingColumn(pk))
    else
      match EffectiveColumns(oldTable, newTable, pk, subset)
      case Failure(e) => Failure(e)
      case Success(cols) =>
        var keys := SharedKeys(oldTable, newTable, pk);
        assert pk in cols by {
          if subset.None? { assert pk in NameSet(oldTable) && pk in NameSet(newTable); }
        }
        ViewIsView(oldTable, pk, keys, cols);
        ViewIsView(newTable, pk, keys, cols);
        Success(SharedViews(cols, View(oldTable, pk, keys, cols), View(newTable, pk, keys, cols)))
  }

  /** The views are those of the shared keys and the chosen columns. */
  lemma SharedViewsAre(oldTable: Table, newTable: Table, pk: Col, subset: Option<seq<Col>>)
    requires GetSharedRecords(oldTable, newTable, pk, subset).Success?
    ensures var v := GetSharedRecords(oldTable, newTable, pk, subset).value;
            var keys := SharedKeys(oldTable, newTable, pk);
            && v.oldView == View(oldTable, pk, keys, v.columns)
            && v.newView == View(newTable, pk, keys, v.columns)
  {
  }

  /** What a view is, independently of how it is computed: sorted by key,
      a rearrangement of the table's rows whose key is in `keys`, each cut
      to exactly the columns `cols`. */
  ghost predicate IsView(v: seq<Row>, t: Table, pk: Col, keys: set<Cell>, cols: seq<Col>)
  {
    && SortedBy(CellsOf(v, pk), CellLe)
    && multiset(v) == multiset(RestrictRows(RowsWithKeys(t.rows, pk, keys), cols))
    && (forall i :: 0 <= i < |v| ==> v[i].Keys == set c | c in cols)
    && (forall i :: 0 <= i < |v| ==> Get(v[i], pk) in keys)
    && (forall i :: 0 <= i < |v| ==> FromTable(v[i], t, pk, keys, cols))
  }

  /** `row` is a row of `t` with a key in `keys`, cut to `cols`. */
  ghost predicate FromTable(row: Row, t: Table, pk: Col, keys: set<Cell>, cols: seq<Col>)
  {
    exists j :: 0 <= j < |t.rows| && Get(t.rows[j], pk) in keys && row == Restrict(t.rows[j], cols)
  }

  /** The views keep only columns that both tables have. */
  lemma SharedColumnsInBoth(oldTable: Table, newTable: Table, pk: Col, subset: Option<seq<Col>>, c: Col)
    requires GetSharedRecords(oldTable, newTable, pk, subset).Success?
    requires c in GetSharedRecords(oldTable, newTable, pk, subset).value.columns
    ensures c in NameSet(oldTable) && c in NameSet(newTable)
  {
    if subset.Some? && c in subset.value {
      assert c !in MissingFromShared(oldTable, newTable, subset.value);
    }
  }

  // ---------------------------------------------------------------------
  // Proofs

  lemma ViewIsView(t: Table, pk: Col, keys: set<Cell>, cols: seq<Col>)
    requires pk in cols
    ensures IsView(View(t, pk, keys, cols), t, pk, keys, cols)
  {
    var selected := RowsWithKeys(t.rows, pk, keys);
    var cut := RestrictRows(selected, cols);
    var v := View(t, pk, keys, cols);
    KeyLeIsTotalPreorder(pk);
    SortedByKeyLe(v, pk);
    forall i | 0 <= i < |v|
      ensures v[i].Keys == (set c | c in cols)
      ensures Get(v[i], pk) in keys
      ensures FromTable(v[i], t, pk, keys, cols)
    {
      assert v[i] in multiset(cut);
      var k :| 0 <= k < |cut| && cut[k] == v[i];
      assert selected[k] in t.rows && Get(selected[k], pk) in keys;
      var j :| 0 <= j < |t.rows| && t.rows[j] == selected[k];
    }
  }

  /** Rows sorted by `KeyLe` have sorted keys. */
  lemma SortedByKeyLe(v: seq<Row>, pk: Col)
    requires SortedBy(v, KeyLe(pk))
    ensures SortedBy(CellsOf(v, pk), CellLe)
  {
    forall i, j | 0 <= i < j < |v| ensures CellLe(CellsOf(v, pk)[i], CellsOf(v, pk)[j]) {
      assert KeyLe(pk)(v[i], v[j]);
    }
  }

  lemma CellsOfCons(x: Row, s: seq<Row>, pk: Col)
    ensures CellsOf([x] + s, pk) == [Get(x, pk)] + CellsOf(s, pk)
  {
  }

  lemma CellsOfTail(s: seq<Row>, pk: Col)
    requires s != []
    ensures CellsOf(s, pk) == [Get(s[0], pk)] + CellsOf(s[1..], pk)
  {
  }

  /** Sorting rows by key sorts their keys the same way. */
  lemma {:induction false} InsertKeys(x: Row, s: seq<Row>, pk: Col)
    ensures CellsOf(Insert(x, s, KeyLe(pk)), pk) == Insert(Get(x, pk), CellsOf(s, pk), CellLe)
  {
    if s == [] {
      assert Insert(x, s, KeyLe(pk)) == [x];
    } else {
      CellsOfTail(s, pk);
      if KeyLe(pk)(x, s[0]) {
        assert Insert(x, s, KeyLe(pk)) == [x] + s;
        CellsOfCons(x, s, pk);
      } else {
        var rest := Insert(x, s[1..], KeyLe(pk));
        assert Insert(x, s, KeyLe(pk)) == [s[0]] + rest;
        InsertKeys(x, s[1..], pk);
        CellsOfCons(s[0], rest, pk);
      }
    }
  }

  lemma {:induction false} SortKeys(s: seq<Row>, pk: Col)
    ensures CellsOf(InsertionSort(s, KeyLe(pk)), pk) == InsertionSort(CellsOf(s, pk), CellLe)
  {
    if s != [] {
      SortKeys(s[1..], pk);
      InsertKeys(s[0], InsertionSort(s[1..], KeyLe(pk)), pk);
      CellsOfTail(s, pk);
    }
  }

  /** Selecting rows by key selects their keys the same way. */
  lemma {:induction false} FilterKeys(rows: seq<Row>, pk: Col, keys: set<Cell>)
    ensures CellsOf(RowsWithKeys(rows, pk, keys), pk) == Filter(CellsOf(rows, pk), (k: Cell) => k in keys)
  {
    var inRows := (row: Row) => Get(row, pk) in keys;
    var inKeys := (k: Cell) => k in keys;
    if rows != [] {
      FilterKeys(rows[1..], pk, keys);
      CellsOfTail(rows, pk);
      var rest := Filter(rows[1..], inRows);
      if Get(rows[0], pk) in keys {
        assert Filter(rows, inRows) == [rows[0]] + rest;
        CellsOfCons(rows[0], rest, pk);
      } else {
        assert Filter(rows, inRows) == rest;
      }
    }
  }

  lemma RestrictKeys(rows: seq<Row>, cols: seq<Col>, pk: Col)
    requires pk in cols
    ensures CellsOf(RestrictRows(rows, cols), pk) == CellsOf(rows, pk)
  {
  }

  /** The key column of a view: the table's keys that are in `keys`, sorted. */
  lemma ViewKeys(t: Table, pk: Col, keys: set<Cell>, cols: seq<Col>)
    requires pk in cols
    ensures CellsOf(View(t, pk, keys, cols), pk)
         == InsertionSort(Filter(KeyColumn(t, pk), (k: Cell) => k in keys), CellLe)
  {
    var selected := RowsWithKeys(t.rows, pk, keys);
    SortKeys(RestrictRows(selected, cols), pk);
    RestrictKeys(selected, cols, pk);
    FilterKeys(t.rows, pk, keys);
  }

  /** The shared keys picked out of a table with unique keys: each shared
      key once. */
  lemma PickedKeys(t: Table, pk: Col, keys: set<Cell>)
    requires UniqueKeys(t, pk) && keys <= KeySet(t, pk)
    ensures var f := Filter(KeyColumn(t, pk), (k: Cell) => k in keys);
            && Distinct(f)
            && (forall k :: multiset(f)[k] == if k in keys then 1 else 0)
  {
    var inKeys := (k: Cell) => k in keys;
    var f := Filter(KeyColumn(t, pk), inKeys);
    FilterDistinct(KeyColumn(t, pk), inKeys);
    forall k ensures multiset(f)[k] == if k in keys then 1 else 0 {
      if k in keys {
        var i :| 0 <= i < |t.rows| && Get(t.rows[i], pk) == k;
        assert KeyColumn(t, pk)[i] == k;
      }
      DistinctCountsOne(f, k);
    }
  }

  /** Two key lists holding each key of `keys` once sort to the same list,
      which holds each key once. */
  lemma SortedPicks(fo: seq<Cell>, fn: seq<Cell>, keys: set<Cell>)
    requires Distinct(fo) && forall k :: multiset(fo)[k] == if k in keys then 1 else 0
    requires forall k :: multiset(fn)[k] == if k in keys then 1 else 0
    ensures var so := InsertionSort(fo, CellLe);
            && so == InsertionSort(fn, CellLe)
            && Distinct(so)
            && (forall k :: k in so <==> k in keys)
            && |so| == |keys|
  {
    assert multiset(fo) == multiset(fn);
    var so, sn := InsertionSort(fo, CellLe), InsertionSort(fn, CellLe);
    CellLeIsTotalPreorder();
    SortedCellsUnique(so, sn);
    DistinctPermutation(fo, so);
    DistinctCardinality(so);
    forall k ensures k in so <==> k in keys {
      assert multiset(so)[k] == multiset(fo)[k];
    }
    assert (set k | k in so) == keys;
  }

  /** With unique keys in both tables the two views have the same key
      column, which holds every shared key exactly once, in ascending order. */
  lemma ViewsAligned(oldTable: Table, newTable: Table, pk: Col, cols: seq<Col>)
    requires pk in cols
    requires UniqueKeys(oldTable, pk) && UniqueKeys(newTable, pk)
    ensures var keys := SharedKeys(oldTable, newTable, pk);
            var ko := CellsOf(View(oldTable, pk, keys, cols), pk);
            && ko == CellsOf(View(newTable, pk, keys, cols), pk)
            && Distinct(ko)
            && (forall k :: k in ko <==> k in keys)
            && |ko| == |keys|
  {
    var keys := SharedKeys(oldTable, newTable, pk);
    ViewKeys(oldTable, pk, keys, cols);
    ViewKeys(newTable, pk, keys, cols);
    PickedKeys(oldTable, pk, keys);
    PickedKeys(newTable, pk, keys);
    var inKeys := (k: Cell) => k in keys;
    SortedPicks(Filter(KeyColumn(oldTable, pk), inKeys), Filter(KeyColumn(newTable, pk), inKeys), keys);
  }

  /** Picking the rows with a key in `keys` out of a table with unique keys
      gives one row per key. */
  lemma RowsPicked(t: Table, pk: Col, keys: set<Cell>)
    requires UniqueKeys(t, pk) && keys <= KeySet(t, pk)
    ensures var rows := RowsWithKeys(t.rows, pk, keys);
            && |rows| == |keys|
            && Distinct(CellsOf(rows, pk))
            && forall k :: k in CellsOf(rows, pk) <==> k in keys
  {
    FilterKeys(t.rows, pk, keys);
    PickedKeys(t, pk, keys);
    PickedKeyCount(Filter(KeyColumn(t, pk), (k: Cell) => k in keys), keys);
  }

  lemma PickedKeyCount(f: seq<Cell>, keys: set<Cell>)
    requires Distinct(f) && forall k :: multiset(f)[k] == if k in keys then 1 else 0
    ensures |f| == |keys| && forall k :: k in f <==> k in keys
  {
    forall k ensures k in f <==> k in keys {
      assert multiset(f)[k] > 0 <==> k in keys;
    }
    DistinctCardinality(f);
    assert (set k | k in f) == keys;
  }

  /** A rearrangement of a sequence without repetitions has none either. */
  lemma DistinctPermutation(a: seq<Cell>, b: seq<Cell>)
    requires Distinct(a) && multiset(a) == multiset(b)
    ensures Distinct(b)
  {
    forall i, j | 0 <= i < j < |b| ensures b[i] != b[j] {
      if b[i] == b[j] {
        assert b == b[..j] + b[j..];
        assert b[i] in b[..j];
        assert b[j..][0] == b[j];
        assert multiset(b)[b[i]] >= 2;
        DistinctCountsOne(a, b[i]);
        assert false;
      }
    }
  }

  /** With unique keys both views hold one row per shared key, so no more
      rows than the smaller table. */
  lemma SharedViewSizes(oldTable: Table, newTable: Table, pk: Col, subset: Option<seq<Col>>)
    requires UniqueKeys(oldTable, pk) && UniqueKeys(newTable, pk)
    requires GetSharedRecords(oldTable, newTable, pk, subset).Success?
    ensures var v := GetSharedRecords(oldTable, newTable, pk, subset).value;
            var keys := SharedKeys(oldTable, newTable, pk);
            && |v.oldView| == |keys| && |v.newView| == |keys|
            && |keys| <= |oldTable.rows| && |keys| <= |newTable.rows|
  {
    var v := GetSharedRecords(oldTable, newTable, pk, subset).value;
    ViewsAligned(oldTable, newTable, pk, v.columns);
    var keys := SharedKeys(oldTable, newTable, pk);
    KeyCountBound(oldTable, pk, keys);
    KeyCountBound(newTable, pk, keys);
  }

  /** A set of a table's keys has no more elements than the table has rows. */
  lemma KeyCountBound(t: Table, pk: Col, keys: set<Cell>)
    requires keys <= KeySet(t, pk)
    ensures |keys| <= |t.rows|
  {
    var all := KeyColumn(t, pk);
    var present := set k | k in all;
    forall k | k in keys ensures k in present {
      var i :| 0 <= i < |t.rows| && Get(t.rows[i], pk) == k;
      assert all[i] == k;
    }
    SubsetCardinality(keys, present);
    SetOfSeqBound(all);
  }

  lemma {:induction false} SubsetCardinality(a: set<Cell>, b: set<Cell>)
    requires a <= b
    ensures |a| <= |b|
    decreases |a|
  {
    if a != {} {
      var x :| x in a;
      SubsetCardinality(a - {x}, b - {x});
    }
  }

  lemma {:induction false} SetOfSeqBound(s: seq<Cell>)
    ensures |set k | k in s| <= |s|
  {
    if s != [] {
      SetOfSeqBound(s[1..]);
      assert (set k | k in s) == {s[0]} + (set k | k in s[1..]) by {
        assert s == [s[0]] + s[1..];
      }
    }
  }
}
