/** The table summariser (`get_df_summary`): counts, primary-key uniqueness
    and a ranked per-column table of non-missing counts. */
module TableSummary {
  import opened Wrappers
  import opened Sequences
  import opened Strings
  import opened Tables

  /** One line of `summary_table`. */
  datatype SummaryRow = SummaryRow(
    columnName: Col,
    nValidRecords: nat,
    propValidRecords: Ratio,   // n_valid_records out of the table's records
    dtype: DType)

  datatype Summary = Summary(
    numberOfRecords: nat,
    numberOfColumns: nat,
    primaryKey: Col,
    isPrimaryKeyUnique: bool,
    summaryTable: seq<SummaryRow>)

  /** Number of rows whose cell in column `c` is present (`notnull().sum()`):
      the rows less the missing cells of the column; zero exactly when the
      column is all missing, and all the rows exactly when none is missing. */
  function NonNullCount(rows: seq<Row>, c: Col): (n: nat)
    ensures n + multiset(CellsOf(rows, c))[None] == |rows|
    ensures n == 0 <==> forall i :: 0 <= i < |rows| ==> Get(rows[i], c).None?
    ensures n == |rows| <==> forall i :: 0 <= i < |rows| ==> Get(rows[i], c).Some?
  {
    if rows == [] then 0
    else
      assert CellsOf(rows, c) == [Get(rows[0], c)] + CellsOf(rows[1..], c);
      assert forall i :: 1 <= i < |rows| ==> rows[1..][i - 1] == rows[i];
      (if Get(rows[0], c).Some? then 1 else 0) + NonNullCount(rows[1..], c)
  }

  /** The present values among `keys`, in order (`value_counts` drops NaN). */
  function NonNull(keys: seq<Cell>): (r: seq<Val>)
    ensures forall v :: v in r <==> Some(v) in keys
  {
    if keys == [] then []
    else
      assert keys == [keys[0]] + keys[1..];
      (if keys[0].Some? then [keys[0].value] else []) + NonNull(keys[1..])
  }

  /** The largest `multiset(vs)[c]` over the candidates `cands`, 0 when there are none. */
  function MaxCountOver(vs: seq<Val>, cands: seq<Val>): nat
  {
    if cands == [] then 0
    else
      var rest := MaxCountOver(vs, cands[1..]);
      if multiset(vs)[cands[0]] > rest then multiset(vs)[cands[0]] else rest
  }

  /** `input_df[primary_key].value_counts().max() == 1`; the maximum of no
      counts is NaN in the source, which is not 1, and 0 here. */
  function IsPrimaryKeyUnique(keys: seq<Cell>): bool
  {
    var vs := NonNull(keys);
    MaxCountOver(vs, vs) == 1
  }

  /** The row-wise meaning of uniqueness: at least one present key and no
      present key value repeated. */
  ghost predicate SomePresentKey(keys: seq<Cell>)
  {
    exists i :: 0 <= i < |keys| && keys[i].Some?
  }

  ghost predicate NoPresentKeyRepeats(keys: seq<Cell>)
  {
    forall i, j :: 0 <= i < j < |keys| && keys[i].Some? ==> keys[i] != keys[j]
  }

  /** Ranks by non-missing count descending, then by name ascending. */
  predicate SummaryLe(a: SummaryRow, b: SummaryRow)
  {
    a.nValidRecords > b.nValidRecords
    || (a.nValidRecords == b.nValidRecords && StrLe(a.columnName, b.columnName))
  }

  /** The first summary row of each column, in column order (before sorting):
      its name, its count of present cells, that count over the records, and
      its type label. */
  function ColumnRows(t: Table): (r: seq<SummaryRow>)
    ensures |r| == |t.columns|
    ensures forall i :: 0 <= i < |r| ==>
      && r[i].columnName == t.columns[i].name && r[i].dtype == t.columns[i].dtype
      && r[i].nValidRecords + multiset(CellsOf(t.rows, t.columns[i].name))[None] == |t.rows|
      && r[i].propValidRecords == Ratio(r[i].nValidRecords, |t.rows|)
    ensures forall i :: 0 <= i < |r| ==> r[i] == SummaryRow(t.columns[i].name,
      NonNullCount(t.rows, t.columns[i].name),
      Ratio(NonNullCount(t.rows, t.columns[i].name), |t.rows|), t.columns[i].dtype)
  {
    seq(|t.columns|, i requires 0 <= i < |t.columns| =>
      var n := NonNullCount(t.rows, t.columns[i].name);
      SummaryRow(t.columns[i].name, n, Ratio(n, |t.rows|), t.columns[i].dtype))
  }

  /** The per-column rows the subset filter lets through, in column order. */
  function Eligible(t: Table, pk: Col, subset: Option<seq<Col>>): seq<SummaryRow>
  {
    Filter(ColumnRows(t), (row: SummaryRow) => Selected(row.columnName, pk, subset))
  }

  /** `summary_table`: sorted by `SummaryLe`, filtered to the key plus the
      subset, and cut to `maxCols` rows. The result keeps `min(maxCols, n)`
      of the `n` eligible rows, in ranked order, and every row it drops
      ranks no higher than every row it keeps. */
  function SummaryTable(t: Table, pk: Col, subset: Option<seq<Col>>, maxCols: nat): (r: seq<SummaryRow>)
    ensures |r| == if |Eligible(t, pk, subset)| <= maxCols then |Eligible(t, pk, subset)| else maxCols
    ensures multiset(r) <= multiset(Eligible(t, pk, subset))
    ensures SortedBy(r, SummaryLe)
    ensures forall i, d :: 0 <= i < |r| && d in multiset(Eligible(t, pk, subset)) - multiset(r)
              ==> SummaryLe(r[i], d)
  {
    var p := (row: SummaryRow) => Selected(row.columnName, pk, subset);
    RankedPrefix(ColumnRows(t), p, maxCols);
    Take(Filter(InsertionSort(ColumnRows(t), SummaryLe), p), maxCols)
  }

  /** `get_df_summary`: fails on an empty table (no rows or no columns) and
      on a key the table does not have; otherwise reports the counts, whether
      the key is unique, and the summary table above. */
  function Summarize(t: Table, pk: Col, subset: Option<seq<Col>>, maxCols: nat): (r: Result<Summary, Error>)
    ensures r.Success? <==> |t.rows| > 0 && |t.columns| > 0 && pk in Names(t)
    ensures (|t.rows| == 0 || |t.columns| == 0) ==> r == Failure(EmptyTable)
    ensures r.Success? ==>
      && r.value.numberOfRecords == |t.rows|
      && r.value.numberOfColumns == |t.columns|
      && r.value.primaryKey == pk
      && (r.value.isPrimaryKeyUnique <==>
            SomePresentKey(KeyColumn(t, pk)) && NoPresentKeyRepeats(KeyColumn(t, pk)))
      && r.value.summaryTable == SummaryTable(t, pk, subset, maxCols)
      && |r.value.summaryTable| <= maxCols
      && SortedBy(r.value.summaryTable, SummaryLe)
  {
    if |t.rows| == 0 || |t.columns| == 0 then Failure(EmptyTable)
    else if pk !in Names(t) then Failure(MissingColumn(pk))
    else
      var keys := KeyColumn(t, pk);
      UniqueKeyMeaning(keys);
      Success(Summary(|t.rows|, |t.columns|, pk, IsPrimaryKeyUnique(keys),
                      SummaryTable(t, pk, subset, maxCols)))
  }

  // ---------------------------------------------------------------------
  // Proofs

  /** Sorting, then filtering, then cutting to `maxCols` keeps the
      best-ranked `maxCols` of the filtered rows. */
  lemma RankedPrefix(all: seq<SummaryRow>, p: SummaryRow -> bool, maxCols: nat)
    ensures var e := Filter(all, p);
            var r := Take(Filter(InsertionSort(all, SummaryLe), p), maxCols);
            && |r| == (if |e| <= maxCols then |e| else maxCols)
            && multiset(r) <= multiset(e)
            && SortedBy(r, SummaryLe)
            && forall i, d :: 0 <= i < |r| && d in multiset(e) - multiset(r) ==> SummaryLe(r[i], d)
  {
    SortedFiltered(all, p);
    FilterSameMultiset(InsertionSort(all, SummaryLe), all, p);
    TakeOfRanked(Filter(InsertionSort(all, SummaryLe), p), Filter(all, p), maxCols);
  }

  /** Cutting a sorted arrangement of `e` to `n` rows keeps its best-ranked rows. */
  lemma TakeOfRanked(kept: seq<SummaryRow>, e: seq<SummaryRow>, n: nat)
    requires SortedBy(kept, SummaryLe) && multiset(kept) == multiset(e)
    ensures var r := Take(kept, n);
            && |r| == (if |e| <= n then |e| else n)
            && multiset(r) <= multiset(e)
            && SortedBy(r, SummaryLe)
            && forall i, d :: 0 <= i < |r| && d in multiset(e) - multiset(r) ==> SummaryLe(r[i], d)
  {
    var r := Take(kept, n);
    assert r == kept[..|r|];
    assert kept == r + kept[|r|..];
    TakeRanksFirst(kept, |r|);
    assert |kept| == |e| by {
      assert |multiset(kept)| == |multiset(e)|;
    }
  }

  lemma SortedFiltered(all: seq<SummaryRow>, p: SummaryRow -> bool)
    ensures SortedBy(Filter(InsertionSort(all, SummaryLe), p), SummaryLe)
  {
    SummaryLeIsTotalPreorder();
    FilterSorted(InsertionSort(all, SummaryLe), p, SummaryLe);
  }

  lemma SummaryLeIsTotalPreorder()
    ensures TotalPreorder(SummaryLe)
  {
    forall a, b ensures SummaryLe(a, b) || SummaryLe(b, a) {
      StrLeTotal(a.columnName, b.columnName);
    }
    forall a, b, c | SummaryLe(a, b) && SummaryLe(b, c) ensures SummaryLe(a, c) {
      if a.nValidRecords == b.nValidRecords == c.nValidRecords {
        StrLeTransitive(a.columnName, b.columnName, c.columnName);
      }
    }
  }

  /** In a sorted sequence, every element before `n` ranks no lower than
      every element from `n` on. */
  lemma TakeRanksFirst(s: seq<SummaryRow>, n: nat)
    requires n <= |s| && SortedBy(s, SummaryLe)
    ensures multiset(s) - multiset(s[..n]) == multiset(s[n..])
    ensures forall i, d :: 0 <= i < n && d in multiset(s[n..]) ==> SummaryLe(s[i], d)
  {
    assert s == s[..n] + s[n..];
    forall i, d | 0 <= i < n && d in multiset(s[n..]) ensures SummaryLe(s[i], d) {
      assert d in s[n..];
      var j :| 0 <= j < |s[n..]| && s[n..][j] == d;
      assert s[n + j] == d;
    }
  }

  /** Present keys are distinct exactly when no present key repeats. */
  lemma {:induction false} NonNullDistinct(keys: seq<Cell>)
    ensures Distinct(NonNull(keys)) <==> NoPresentKeyRepeats(keys)
  {
    if keys != [] {
      var rest := keys[1..];
      assert keys == [keys[0]] + rest;
      NonNullDistinct(rest);
      assert NoPresentKeyRepeats(keys) ==> NoPresentKeyRepeats(rest) by {
        if NoPresentKeyRepeats(keys) {
          forall i, j | 0 <= i < j < |rest| && rest[i].Some? ensures rest[i] != rest[j] {
            assert keys[i + 1] == rest[i] && keys[j + 1] == rest[j];
          }
        }
      }
      if keys[0].None? {
        assert NonNull(keys) == NonNull(rest);
        assert NoPresentKeyRepeats(rest) ==> NoPresentKeyRepeats(keys) by {
          if NoPresentKeyRepeats(rest) {
            forall i, j | 0 <= i < j < |keys| && keys[i].Some? ensures keys[i] != keys[j] {
              assert keys[i] == rest[i - 1] && keys[j] == rest[j - 1];
            }
          }
        }
      } else {
        var v := keys[0].value;
        assert NonNull(keys) == [v] + NonNull(rest);
        DistinctCons(v, NonNull(rest));
        if Some(v) in rest {
          var j :| 0 <= j < |rest| && rest[j] == Some(v);
          assert keys[0] == keys[j + 1];
        }
        assert Some(v) !in rest && NoPresentKeyRepeats(rest) ==> NoPresentKeyRepeats(keys) by {
          if Some(v) !in rest && NoPresentKeyRepeats(rest) {
            forall i, j | 0 <= i < j < |keys| && keys[i].Some? ensures keys[i] != keys[j] {
              assert keys[j] == rest[j - 1];
              if i > 0 { assert keys[i] == rest[i - 1]; }
            }
          }
        }
      }
    }
  }

  lemma RepeatCountsTwo(vs: seq<Val>, i: nat, j: nat)
    requires i < j < |vs| && vs[i] == vs[j]
    ensures multiset(vs)[vs[i]] >= 2
  {
    assert vs == vs[..j] + vs[j..];
    assert vs[i] in vs[..j];
    assert vs[j..][0] == vs[j];
  }

  lemma {:induction false} MaxCountOverBounds(vs: seq<Val>, cands: seq<Val>) returns (k: nat)
    ensures forall c :: c in cands ==> multiset(vs)[c] <= MaxCountOver(vs, cands)
    ensures cands != [] ==> k < |cands| && multiset(vs)[cands[k]] == MaxCountOver(vs, cands)
  {
    k := 0;
    if cands != [] {
      var k' := MaxCountOverBounds(vs, cands[1..]);
      if multiset(vs)[cands[0]] < MaxCountOver(vs, cands[1..]) {
        k := k' + 1;
      }
    }
  }

  /** `value_counts().max() == 1` holds exactly when the present keys are
      non-empty and pairwise distinct. */
  lemma UniqueKeyMeaning(keys: seq<Cell>)
    ensures IsPrimaryKeyUnique(keys) <==> SomePresentKey(keys) && NoPresentKeyRepeats(keys)
  {
    var vs := NonNull(keys);
    NonNullDistinct(keys);
    PresentKeyMeaning(keys);
    MaxCountOneMeaning(vs);
  }

  /** Some key is present exactly when there are present values. */
  lemma PresentKeyMeaning(keys: seq<Cell>)
    ensures SomePresentKey(keys) <==> NonNull(keys) != []
  {
    var vs := NonNull(keys);
    if SomePresentKey(keys) {
      var i :| 0 <= i < |keys| && keys[i].Some?;
      assert keys[i].value in vs;
    }
    if vs != [] {
      assert Some(vs[0]) in keys;
    }
  }

  /** The largest count of a value is 1 exactly when there are values and
      none repeats. */
  lemma MaxCountOneMeaning(vs: seq<Val>)
    ensures MaxCountOver(vs, vs) == 1 <==> vs != [] && Distinct(vs)
  {
    var top := MaxCountOverBounds(vs, vs);
    if vs != [] && Distinct(vs) {
      forall c | c in vs ensures multiset(vs)[c] == 1 {
        DistinctCountsOne(vs, c);
      }
    }
    if vs != [] && !Distinct(vs) {
      var i, j :| 0 <= i < j < |vs| && vs[i] == vs[j];
      RepeatCountsTwo(vs, i, j);
    }
  }
}
