/**
 * Data frames as the pipeline sees them: an ordered list of column names and
 * a list of rows, each row mapping every column name to a nullable text cell.
 */
module Tables {
  import opened Wrappers
  import opened Collections

  /** A cell: null, or the text of the value. */
  type Cell = Option<string>

  /** A row: column name to cell. */
  type Row = map<string, Cell>

  datatype Table = Table(columns: seq<string>, rows: seq<Row>)

  /** The row has exactly the given columns. */
  ghost predicate Fits(r: Row, columns: seq<string>) {
    forall c :: c in r <==> c in columns
  }

  /** Column names are distinct and every row has exactly those columns. */
  ghost predicate WellFormed(t: Table) {
    NoDup(t.columns) && forall i :: 0 <= i < |t.rows| ==> Fits(t.rows[i], t.columns)
  }

  /** Every row of a well-formed table has exactly its columns. */
  lemma RowFits(t: Table, r: Row)
    requires WellFormed(t) && r in t.rows
    ensures Fits(r, t.columns)
  {
    var i :| 0 <= i < |t.rows| && t.rows[i] == r;
  }

  /** The row restricted to the given columns (those it has). */
  function Project(r: Row, cols: seq<string>): (p: Row)
    ensures forall c :: c in p <==> c in cols && c in r
    ensures forall c :: c in p ==> p[c] == r[c]
  {
    map c | c in cols && c in r :: r[c]
  }

  /** Projecting a row on exactly its own columns gives the row back. */
  lemma ProjectAll(r: Row, cols: seq<string>)
    requires Fits(r, cols)
    ensures Project(r, cols) == r
  {
    assert Project(r, cols).Keys == r.Keys;
  }

  /** `df.select(cols)`. */
  function Select(t: Table, cols: seq<string>): (s: Table)
    requires WellFormed(t) && NoDup(cols)
    requires forall c :: c in cols ==> c in t.columns
    ensures WellFormed(s) && s.columns == cols && |s.rows| == |t.rows|
    ensures forall i :: 0 <= i < |t.rows| ==> s.rows[i] == Project(t.rows[i], cols)
  {
    Table(cols, seq(|t.rows|, i requires 0 <= i < |t.rows| => Project(t.rows[i], cols)))
  }

  /** Selecting a well-formed table's own columns in their own order gives the table back. */
  lemma SelectAll(t: Table)
    requires WellFormed(t)
    ensures Select(t, t.columns) == t
  {
    var s := Select(t, t.columns);
    forall i | 0 <= i < |t.rows| ensures s.rows[i] == t.rows[i] {
      ProjectAll(t.rows[i], t.columns);
    }
  }

  /** `df.filter(p)`: the rows satisfying `p`, in order. */
  function Filter(t: Table, p: Row -> bool): (s: Table)
    ensures s.columns == t.columns
    ensures forall r :: r in s.rows <==> r in t.rows && p(r)
    ensures SubSeq(s.rows, t.rows)
    ensures WellFormed(t) ==> WellFormed(s)
  {
    var s := Table(t.columns, Keep(t.rows, p));
    assert WellFormed(t) ==> WellFormed(s) by {
      if WellFormed(t) {
        forall i | 0 <= i < |s.rows| ensures Fits(s.rows[i], s.columns) {
          RowFits(t, s.rows[i]);
        }
      }
    }
    s
  }

  /** `df.drop(c)`. */
  function Drop(t: Table, c: string): (s: Table)
    requires WellFormed(t)
    ensures WellFormed(s)
    ensures s.columns == Keep(t.columns, x => x != c)
    ensures |s.rows| == |t.rows|
    ensures forall i :: 0 <= i < |t.rows| ==> s.rows[i] == t.rows[i] - {c}
  {
    Table(Keep(t.columns, x => x != c), seq(|t.rows|, i requires 0 <= i < |t.rows| => t.rows[i] - {c}))
  }

  /** `df.unique()`: the distinct rows; no row order is promised. */
  function Unique(t: Table): (s: Table)
    ensures s.columns == t.columns && NoDup(s.rows)
    ensures forall r :: r in s.rows <==> r in t.rows
    ensures |s.rows| <= |t.rows|
    ensures WellFormed(t) ==> WellFormed(s)
  {
    DistinctSpec(t.rows);
    var s := Table(t.columns, Distinct(t.rows));
    assert WellFormed(t) ==> WellFormed(s) by {
      if WellFormed(t) {
        forall i | 0 <= i < |s.rows| ensures Fits(s.rows[i], s.columns) {
          RowFits(t, s.rows[i]);
        }
      }
    }
    s
  }

  /** `df[c]` as a list of cells, one per row in order. */
  function Column(rows: seq<Row>, c: string): (col: seq<Cell>)
    requires forall r :: r in rows ==> c in r
    ensures |col| == |rows|
  {
    if rows == [] then [] else [rows[0][c]] + Column(rows[1..], c)
  }

  /** The `i`-th cell of a column is the `i`-th row's cell. */
  lemma {:induction false} ColumnAt(rows: seq<Row>, c: string, i: nat)
    requires forall r :: r in rows ==> c in r
    requires i < |rows|
    ensures Column(rows, c)[i] == rows[i][c]
  {
    if i > 0 {
      ColumnAt(rows[1..], c, i - 1);
    }
  }
}
