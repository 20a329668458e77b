/** The tabular data the comparison works on: a DataFrame as an ordered list
    of typed columns and a sequence of rows, each row a map from column name
    to a cell that may be missing. */
module Tables {
  import opened Wrappers
  import opened Sequences

  /** A column label. */
  type Col = string

  /** A declared column type (`object`, `int64`, ...), compared only as a label. */
  type DType = string

  /** A cell value; the model needs only equality and, for keys, an order. */
  type Val = int

  /** A cell: `None` is a missing value (NaN / None in pandas). */
  type Cell = Option<Val>

  type Row = map<Col, Cell>

  datatype Column = Column(name: Col, dtype: DType)

  datatype Table = Table(columns: seq<Column>, rows: seq<Row>)

  /** The ways a step of the comparison aborts. */
  datatype Error =
    | EmptyTable                         // `assert input_df.empty == False`
    | MissingColumn(name: Col)           // `df[primary_key]` raises KeyError
    | ColumnsNotShared(missing: set<Col>) // the column subset is not in both tables
    | MisalignedViews                    // `!=` on two differently-labelled DataFrames

  /** A proportion `num / den`, kept exact instead of the source's float. */
  datatype Ratio = Ratio(num: nat, den: nat)

  /** The cell of `row` in column `c`; a column the row lacks reads as missing. */
  function Get(row: Row, c: Col): Cell
  {
    if c in row then row[c] else None
  }

  /** `df.columns`, in order. */
  function Names(t: Table): (r: seq<Col>)
    ensures |r| == |t.columns|
    ensures forall i :: 0 <= i < |r| ==> r[i] == t.columns[i].name
  {
    seq(|t.columns|, i requires 0 <= i < |t.columns| => t.columns[i].name)
  }

  /** `set(df.columns)`. */
  function NameSet(t: Table): (r: set<Col>)
    ensures forall c :: c in r <==> c in Names(t)
  {
    set i | 0 <= i < |t.columns| :: t.columns[i].name
  }

  /** The cells of column `c` in `rows`, in order (`df[c]`). */
  function CellsOf(rows: seq<Row>, c: Col): (r: seq<Cell>)
    ensures |r| == |rows|
    ensures forall i :: 0 <= i < |r| ==> r[i] == Get(rows[i], c)
  {
    seq(|rows|, i requires 0 <= i < |rows| => Get(rows[i], c))
  }

  /** `df[primary_key]` as a sequence of cells, in row order. */
  function KeyColumn(t: Table, pk: Col): (r: seq<Cell>)
    ensures |r| == |t.rows|
    ensures forall i :: 0 <= i < |r| ==> r[i] == Get(t.rows[i], pk)
  {
    CellsOf(t.rows, pk)
  }

  /** `set(df[primary_key])`. */
  function KeySet(t: Table, pk: Col): (r: set<Cell>)
    ensures forall k :: k in r <==> exists i :: 0 <= i < |t.rows| && Get(t.rows[i], pk) == k
  {
    set i | 0 <= i < |t.rows| :: Get(t.rows[i], pk)
  }

  /** The shape every DataFrame has: distinct column labels, and every row
      holding a cell for exactly those columns. */
  ghost predicate WellFormed(t: Table)
  {
    && Distinct(Names(t))
    && forall i :: 0 <= i < |t.rows| ==> t.rows[i].Keys == NameSet(t)
  }

  /** No primary-key value occurs twice. */
  predicate UniqueKeys(t: Table, pk: Col)
  {
    Distinct(KeyColumn(t, pk))
  }

  /** The order `sort_values` puts keys in: by value, missing values last. */
  predicate CellLe(a: Cell, b: Cell)
  {
    match (a, b)
    case (Some(x), Some(y)) => x <= y
    case (_, None) => true
    case (None, Some(_)) => false
  }

  lemma CellLeIsTotalPreorder()
    ensures TotalPreorder(CellLe)
  {
  }

  lemma CellLeAntisymmetric(a: Cell, b: Cell)
    requires CellLe(a, b) && CellLe(b, a)
    ensures a == b
  {
  }

  /** Under `CellLe` a sorted arrangement of a multiset of keys is unique. */
  lemma {:induction false} SortedCellsUnique(a: seq<Cell>, b: seq<Cell>)
    requires SortedBy(a, CellLe) && SortedBy(b, CellLe) && multiset(a) == multiset(b)
    ensures a == b
  {
    if a != [] {
      assert |b| == |a| by {
        assert |multiset(a)| == |multiset(b)|;
      }
      SortedHeadsEqual(a, b);
      SameTails(a, b);
      SortedTail(a, CellLe);
      SortedTail(b, CellLe);
      SortedCellsUnique(a[1..], b[1..]);
      assert a == [a[0]] + a[1..] && b == [b[0]] + b[1..];
    }
  }

  /** Two sorted arrangements of one multiset of keys start alike. */
  lemma SortedHeadsEqual(a: seq<Cell>, b: seq<Cell>)
    requires a != [] && b != []
    requires SortedBy(a, CellLe) && SortedBy(b, CellLe) && multiset(a) == multiset(b)
    ensures a[0] == b[0]
  {
    assert a[0] in multiset(b) && b[0] in multiset(a);
    var j :| 0 <= j < |b| && b[j] == a[0];
    var i :| 0 <= i < |a| && a[i] == b[0];
    assert CellLe(b[0], a[0]) by {
      if j > 0 { assert CellLe(b[0], b[j]); }
    }
    assert CellLe(a[0], b[0]) by {
      if i > 0 { assert CellLe(a[0], a[i]); }
    }
    CellLeAntisymmetric(a[0], b[0]);
  }

  /** A column survives a column-subset filter: there is no subset, or the
      column is the primary key or one of the subset (`isin([primary_key] + column_subset)`). */
  predicate Selected(name: Col, pk: Col, subset: Option<seq<Col>>)
  {
    subset.None? || name in [pk] + subset.value
  }

  /** The row restricted to the columns `cols`, every one of them present. */
  function Restrict(row: Row, cols: seq<Col>): (r: Row)
    ensures r.Keys == set c | c in cols
    ensures forall c :: c in cols ==> r[c] == Get(row, c)
  {
    map c | c in cols :: Get(row, c)
  }
}
