/**
 * `merge_department_data`: the cleaned per-department tables are joined into
 * one wide table keyed by `ben_id`. Columns every department has (except
 * `ben_id`) are shared and filled from the first department that has a
 * value; every other column is renamed `<abbr>_<column>` and kept apart.
 */
module Merge {
  import opened Wrappers
  import opened Collections
  import opened Strings
  import opened Dicts
  import opened Tables
  import opened BenIds

  /** The cell of `r` in column `c`, null when the row has no such column. */
  function At(r: Row, c: string): Cell {
    if c in r then r[c] else None
  }

  /** The `ben_id` cell of a row. */
  function Key(r: Row): Cell {
    At(r, BenId)
  }

  /** No two rows carry the same non-null `ben_id`. */
  predicate UniqueKeys(rows: seq<Row>) {
    forall i, j :: 0 <= i < j < |rows| && Key(rows[i]).Some? ==> Key(rows[i]) != Key(rows[j])
  }

  /** The first row whose `ben_id` is `b`. */
  function RowOf(rows: seq<Row>, b: Cell): (m: Option<Row>)
    ensures m.Some? ==> m.value in rows && Key(m.value) == b
    ensures m.None? ==> forall r :: r in rows ==> Key(r) != b
  {
    if rows == [] then None
    else if Key(rows[0]) == b then Some(rows[0])
    else RowOf(rows[1..], b)
  }

  /** With unique keys, the row carrying a non-null `ben_id` is the one `RowOf` finds. */
  lemma {:induction false} RowOfUnique(rows: seq<Row>, r: Row)
    requires UniqueKeys(rows) && r in rows && Key(r).Some?
    ensures RowOf(rows, Key(r)) == Some(r)
  {
    if rows[0] != r {
      assert r in rows[1..];
      var j :| 0 <= j < |rows| && rows[j] == r;
      assert j > 0;
      assert Key(rows[0]) != Key(rows[j]);
      assert UniqueKeys(rows[1..]) by {
        forall i, k | 0 <= i < k < |rows| - 1 && Key(rows[1..][i]).Some?
          ensures Key(rows[1..][i]) != Key(rows[1..][k])
        {
          assert rows[1..][i] == rows[i + 1] && rows[1..][k] == rows[k + 1];
        }
      }
      RowOfUnique(rows[1..], r);
    }
  }

  /** The value a table holds for the beneficiary `b` in column `c`, or null. */
  function ValueIn(t: Table, b: Cell, c: string): Cell {
    match RowOf(t.rows, b)
    case Some(r) => At(r, c)
    case None => None
  }

  // ---------------------------------------------------------------------------
  // Step 1: the columns every department has.

  /** `c` is a column of every table. */
  ghost predicate InAll(files: Dict<string, Table>, c: string) {
    forall j :: 0 <= j < |files| ==> c in files[j].1.columns
  }

  /**
   * `sorted(set.intersection(*column sets) - {"ben_id"})`: the only sorted
   * listing of the names, other than `ben_id`, that every table has.
   */
  ghost function SharedColumns(files: Dict<string, Table>): (shared: seq<string>)
    requires |files| > 0 && NoDup(files[0].1.columns)
    ensures StrictlySorted(shared)
    ensures forall c :: c in shared <==> c != BenId && InAll(files, c)
  {
    Sort(Keep(files[0].1.columns, c => c != BenId && InAll(files, c)))
  }

  /** A sorted listing of distinct names has no repeats. */
  lemma SortedNoDup(s: seq<string>)
    requires StrictlySorted(s)
    ensures NoDup(s)
  {
    forall i, j | 0 <= i < j < |s| ensures s[i] != s[j] {
      if s[i] == s[j] {
        assert Below(s[i], s[j]);
        BelowIrreflexive(s[i]);
      }
    }
  }

  // ---------------------------------------------------------------------------
  // Step 3: renaming a department's own columns.

  /** `f"{abbr}_{col}"`. */
  function Prefixed(abbr: string, c: string): string {
    abbr + "_" + c
  }

  /** The column name a prefixed name was made from. */
  lemma PrefixedOrigin(abbr: string, c: string)
    ensures |Prefixed(abbr, c)| == |abbr| + 1 + |c|
    ensures Prefixed(abbr, c)[|abbr| + 1..] == c
  {
  }

  /**
   * `dept_specific`: the department's columns that are neither shared nor
   * `ben_id`, prefixed with its abbreviation, in the table's column order.
   */
  function Specific(abbr: string, cols: seq<string>, shared: seq<string>): (spec: seq<string>)
    ensures |spec| <= |cols|
  {
    if cols == [] then []
    else
      var init := Specific(abbr, cols[..|cols| - 1], shared);
      var c := cols[|cols| - 1];
      if c !in shared && c != BenId then init + [Prefixed(abbr, c)] else init
  }

  /**
   * The department-specific names are exactly the prefixed names of the
   * table's columns that are neither shared nor `ben_id`, without repeats
   * when the columns have none.
   */
  lemma {:induction false} SpecificSpec(abbr: string, cols: seq<string>, shared: seq<string>)
    ensures forall x :: x in Specific(abbr, cols, shared) <==>
      exists c :: c in cols && c !in shared && c != BenId && x == Prefixed(abbr, c)
    ensures NoDup(cols) ==> NoDup(Specific(abbr, cols, shared))
  {
    if cols != [] {
      var pre := cols[..|cols| - 1];
      var c := cols[|cols| - 1];
      var init := Specific(abbr, pre, shared);
      SpecificSpec(abbr, pre, shared);
      assert forall y :: y in cols <==> y in pre || y == c;
      if c !in shared && c != BenId {
        if NoDup(cols) {
          assert NoDup(pre);
          forall c' | c' in pre ensures Prefixed(abbr, c) != Prefixed(abbr, c') {
            PrefixedOrigin(abbr, c);
            PrefixedOrigin(abbr, c');
          }
          NoDupConcat(init, [Prefixed(abbr, c)]);
        }
      }
    }
  }

  /** Every department-specific name comes from one of the table's own columns. */
  lemma SpecificOrigin(abbr: string, cols: seq<string>, shared: seq<string>, x: string)
    requires x in Specific(abbr, cols, shared)
    ensures |abbr| + 1 <= |x| && x == Prefixed(abbr, x[|abbr| + 1..])
    ensures x[|abbr| + 1..] in cols && x[|abbr| + 1..] !in shared && x[|abbr| + 1..] != BenId
  {
    SpecificSpec(abbr, cols, shared);
    var c :| c in cols && c !in shared && c != BenId && x == Prefixed(abbr, c);
    PrefixedOrigin(abbr, c);
  }

  /** `current_cols`: `ben_id`, the shared columns, then the department's own. */
  function RenamedColumns(abbr: string, cols: seq<string>, shared: seq<string>): seq<string> {
    [BenId] + shared + Specific(abbr, cols, shared)
  }

  /** One row after `rename(...)` and `select(current_cols)`. */
  function RenameRow(abbr: string, r: Row, cols: seq<string>, shared: seq<string>): (s: Row)
    ensures forall x :: x in s <==> x in RenamedColumns(abbr, cols, shared)
  {
    map x | x in RenamedColumns(abbr, cols, shared) ::
      if x == BenId || x in shared then At(r, x)
      else if |abbr| + 1 <= |x| then At(r, x[|abbr| + 1..])
      else None
  }

  /** One department's table after renaming and selecting `current_cols`. */
  function Renamed(abbr: string, t: Table, shared: seq<string>): (s: Table)
    ensures s.columns == RenamedColumns(abbr, t.columns, shared)
    ensures |s.rows| == |t.rows|
    ensures forall i :: 0 <= i < |t.rows| ==> s.rows[i] == RenameRow(abbr, t.rows[i], t.columns, shared)
  {
    Table(RenamedColumns(abbr, t.columns, shared),
          seq(|t.rows|, i requires 0 <= i < |t.rows| => RenameRow(abbr, t.rows[i], t.columns, shared)))
  }

  /** Renaming keeps `ben_id`, the shared values and every own value under its new name. */
  lemma RenameRowValues(abbr: string, r: Row, cols: seq<string>, shared: seq<string>)
    requires BenId !in shared
    requires forall x :: x in Specific(abbr, cols, shared) ==> x != BenId && x !in shared
    ensures Key(RenameRow(abbr, r, cols, shared)) == Key(r)
    ensures forall c :: c in shared ==> At(RenameRow(abbr, r, cols, shared), c) == At(r, c)
    ensures forall c :: c in cols && c !in shared && c != BenId ==>
      At(RenameRow(abbr, r, cols, shared), Prefixed(abbr, c)) == At(r, c)
  {
    var s := RenameRow(abbr, r, cols, shared);
    forall c | c in cols && c !in shared && c != BenId
      ensures At(s, Prefixed(abbr, c)) == At(r, c)
    {
      var x := Prefixed(abbr, c);
      SpecificHas(abbr, cols, shared, c);
      PrefixedOrigin(abbr, c);
    }
  }

  /**
   * The renamed names of one department are apart from `ben_id` and the
   * shared columns, so the renamed table is well formed.
   */
  ghost predicate Apart(spec: seq<string>, shared: seq<string>) {
    forall x :: x in spec ==> x != BenId && x !in shared
  }

  /** Dropping a suffix keeps the unique keys. */
  lemma UniqueKeysTail(rows: seq<Row>)
    requires UniqueKeys(rows) && rows != []
    ensures UniqueKeys(rows[1..])
    ensures Key(rows[0]).Some? ==> forall r :: r in rows[1..] ==> Key(r) != Key(rows[0])
  {
    forall i, k | 0 <= i < k < |rows| - 1 && Key(rows[1..][i]).Some?
      ensures Key(rows[1..][i]) != Key(rows[1..][k])
    {
      assert rows[1..][i] == rows[i + 1] && rows[1..][k] == rows[k + 1];
    }
  }

  /** Two lists with unique keys and no key in common have unique keys together. */
  lemma UniqueKeysConcat(a: seq<Row>, b: seq<Row>)
    requires UniqueKeys(a) && UniqueKeys(b)
    requires forall x, y :: x in a && y in b && Key(x).Some? ==> Key(x) != Key(y)
    ensures UniqueKeys(a + b)
  {
    forall i, j | 0 <= i < j < |a + b| && Key((a + b)[i]).Some?
      ensures Key((a + b)[i]) != Key((a + b)[j])
    {
      if j < |a| {
        assert (a + b)[i] == a[i] && (a + b)[j] == a[j];
      } else if i >= |a| {
        assert (a + b)[i] == b[i - |a|] && (a + b)[j] == b[j - |a|];
      } else {
        assert (a + b)[i] in a && (a + b)[j] in b;
      }
    }
  }

  /** Keeping some of the rows keeps the keys unique. */
  lemma {:induction false} UniqueKeysKeep(rows: seq<Row>, p: Row -> bool)
    requires UniqueKeys(rows)
    ensures UniqueKeys(Keep(rows, p))
  {
    if rows != [] {
      UniqueKeysTail(rows);
      UniqueKeysKeep(rows[1..], p);
      if p(rows[0]) {
        UniqueKeysConcat([rows[0]], Keep(rows[1..], p));
      }
    }
  }

  /** Lists whose keys agree position by position are alike in key uniqueness. */
  lemma UniqueKeysAlike(a: seq<Row>, b: seq<Row>)
    requires |a| == |b| && forall i :: 0 <= i < |a| ==> Key(a[i]) == Key(b[i])
    requires UniqueKeys(a)
    ensures UniqueKeys(b)
  {
  }

  // ---------------------------------------------------------------------------
  // The outer join on `ben_id` with `coalesce=True`, followed by the coalescing
  // of every shared column (left value first) and the drop of the right copy.

  /** A left row joined with a right row carrying the same `ben_id`. */
  function JoinRow(l: Row, r: Row, shared: seq<string>, added: seq<string>): (m: Row)
    ensures forall c :: c in m <==> c in l || c in added
  {
    map c | c in l.Keys + (set x | x in added) ::
      if c in added then At(r, c)
      else if c in shared && At(l, c).None? then At(r, c)
      else At(l, c)
  }

  /** A left row no right row matches: the added columns are null. */
  function LeftOnly(l: Row, added: seq<string>): (m: Row)
    ensures forall c :: c in m <==> c in l || c in added
  {
    map c | c in l.Keys + (set x | x in added) :: if c in added then None else At(l, c)
  }

  /**
   * A right row no left row matches: the key, the shared columns and the
   * added columns come from it, every other left column is null.
   */
  function RightOnly(r: Row, lcols: seq<string>, shared: seq<string>, added: seq<string>): (m: Row)
    ensures forall c :: c in m <==> c in lcols || c in added
  {
    map c | c in (set x | x in lcols) + (set x | x in added) ::
      if c == BenId || c in shared || c in added then At(r, c) else None
  }

  /** The right rows a left row with key `b` matches; a null key matches nothing. */
  function Matches(rs: seq<Row>, b: Cell): seq<Row> {
    Keep(rs, r => b.Some? && Key(r) == b)
  }

  /** The output rows one left row produces: one per match, or itself padded with nulls. */
  function LeftRows(l: Row, rs: seq<Row>, shared: seq<string>, added: seq<string>): seq<Row> {
    var ms := Matches(rs, Key(l));
    if ms == [] then [LeftOnly(l, added)]
    else seq(|ms|, i requires 0 <= i < |ms| => JoinRow(l, ms[i], shared, added))
  }

  /** The output rows of all left rows, in left order. */
  function JoinLeft(ls: seq<Row>, rs: seq<Row>, shared: seq<string>, added: seq<string>): seq<Row> {
    if ls == [] then [] else LeftRows(ls[0], rs, shared, added) + JoinLeft(ls[1..], rs, shared, added)
  }

  /** A right row whose key is null or found in no left row. */
  predicate Unmatched(r: Row, ls: seq<Row>) {
    Key(r).None? || RowOf(ls, Key(r)).None?
  }

  /** The right rows no left row matched, padded with nulls, in right order. */
  function RightRest(rs: seq<Row>, ls: seq<Row>, lcols: seq<string>, shared: seq<string>, added: seq<string>): seq<Row> {
    var k := Keep(rs, r => Unmatched(r, ls));
    seq(|k|, i requires 0 <= i < |k| => RightOnly(k[i], lcols, shared, added))
  }

  /** The columns the right table brings that the left one lacks. */
  function Added(lcols: seq<string>, rcols: seq<string>): seq<string> {
    Keep(rcols, c => c !in lcols)
  }

  /**
   * `left.join(right, on="ben_id", how="outer", coalesce=True)` followed by
   * `coalesce(col, col_temp)` and the drop of `col_temp` for every shared column.
   * Polars promises no row order; left rows first is this model's choice.
   */
  function Joined(left: Table, right: Table, shared: seq<string>): Table {
    var added := Added(left.columns, right.columns);
    Table(left.columns + added,
          JoinLeft(left.rows, right.rows, shared, added) + RightRest(right.rows, left.rows, left.columns, shared, added))
  }

  /** The single output row of a left row when right keys are unique. */
  function LeftOut(l: Row, rs: seq<Row>, shared: seq<string>, added: seq<string>): Row {
    match (if Key(l).Some? then RowOf(rs, Key(l)) else None)
    case Some(r) => JoinRow(l, r, shared, added)
    case None => LeftOnly(l, added)
  }

  /** With unique right keys a key matches at most the row `RowOf` finds. */
  lemma {:induction false} MatchesUnique(rs: seq<Row>, b: Cell)
    requires UniqueKeys(rs)
    ensures Matches(rs, b) == if b.Some? && RowOf(rs, b).Some? then [RowOf(rs, b).value] else []
  {
    if rs == [] {
    } else {
      UniqueKeysTail(rs);
      MatchesUnique(rs[1..], b);
    }
  }

  /** The single output row of each left row, in left order. */
  function LeftOuts(ls: seq<Row>, rs: seq<Row>, shared: seq<string>, added: seq<string>): (out: seq<Row>)
    ensures |out| == |ls|
    ensures forall i :: 0 <= i < |ls| ==> out[i] == LeftOut(ls[i], rs, shared, added)
  {
    if ls == [] then [] else [LeftOut(ls[0], rs, shared, added)] + LeftOuts(ls[1..], rs, shared, added)
  }

  /** With unique right keys, every left row produces exactly one output row. */
  lemma {:induction false} JoinLeftUnique(ls: seq<Row>, rs: seq<Row>, shared: seq<string>, added: seq<string>)
    requires UniqueKeys(rs)
    ensures JoinLeft(ls, rs, shared, added) == LeftOuts(ls, rs, shared, added)
  {
    if ls != [] {
      JoinLeftUnique(ls[1..], rs, shared, added);
      LeftRowsUnique(ls[0], rs, shared, added);
    }
  }

  /** With unique right keys a left row produces the single row `LeftOut` describes. */
  lemma LeftRowsUnique(l: Row, rs: seq<Row>, shared: seq<string>, added: seq<string>)
    requires UniqueKeys(rs)
    ensures LeftRows(l, rs, shared, added) == [LeftOut(l, rs, shared, added)]
  {
    MatchesUnique(rs, Key(l));
    var ms := Matches(rs, Key(l));
    if ms != [] {
      assert |ms| == 1;
    }
  }

  /** The output rows of a join when right keys are unique. */
  lemma JoinedRows(left: Table, right: Table, shared: seq<string>)
    requires UniqueKeys(right.rows)
    ensures Joined(left, right, shared).rows ==
      LeftOuts(left.rows, right.rows, shared, Added(left.columns, right.columns))
      + RightRest(right.rows, left.rows, left.columns, shared, Added(left.columns, right.columns))
  {
    JoinLeftUnique(left.rows, right.rows, shared, Added(left.columns, right.columns));
  }

  /** Every output row comes from a left row, or from a right row no left row matched. */
  lemma JoinedOrigin(left: Table, right: Table, shared: seq<string>, m: Row) returns (fromLeft: bool, o: Row)
    requires UniqueKeys(right.rows) && m in Joined(left, right, shared).rows
    ensures fromLeft ==> o in left.rows && m == LeftOut(o, right.rows, shared, Added(left.columns, right.columns))
    ensures !fromLeft ==> o in right.rows && Unmatched(o, left.rows)
    ensures !fromLeft ==> m == RightOnly(o, left.columns, shared, Added(left.columns, right.columns))
  {
    JoinedRows(left, right, shared);
    var added := Added(left.columns, right.columns);
    var a := LeftOuts(left.rows, right.rows, shared, added);
    if m in a {
      var i :| 0 <= i < |a| && a[i] == m;
      fromLeft, o := true, left.rows[i];
    } else {
      var k := Keep(right.rows, r => Unmatched(r, left.rows));
      var i :| 0 <= i < |k| && RightRest(right.rows, left.rows, left.columns, shared, added)[i] == m;
      assert k[i] in k;
      fromLeft, o := false, k[i];
    }
  }

  /** Every left row is in the output, joined or padded. */
  lemma JoinedHasLeft(left: Table, right: Table, shared: seq<string>, l: Row)
    requires UniqueKeys(right.rows) && l in left.rows
    ensures LeftOut(l, right.rows, shared, Added(left.columns, right.columns)) in Joined(left, right, shared).rows
  {
    JoinedRows(left, right, shared);
    var added := Added(left.columns, right.columns);
    var a := LeftOuts(left.rows, right.rows, shared, added);
    var i :| 0 <= i < |left.rows| && left.rows[i] == l;
    assert a[i] in a;
  }

  /** Every right row no left row matched is in the output, padded. */
  lemma JoinedHasRight(left: Table, right: Table, shared: seq<string>, r: Row)
    requires UniqueKeys(right.rows) && r in right.rows && Unmatched(r, left.rows)
    ensures RightOnly(r, left.columns, shared, Added(left.columns, right.columns)) in Joined(left, right, shared).rows
  {
    JoinedRows(left, right, shared);
    var added := Added(left.columns, right.columns);
    var k := Keep(right.rows, r => Unmatched(r, left.rows));
    var i :| 0 <= i < |k| && k[i] == r;
    var b := RightRest(right.rows, left.rows, left.columns, shared, added);
    assert b[i] in b;
  }

  // ---------------------------------------------------------------------------
  // Step 3, department by department.

  /** The renamed columns of the first `k` departments, in department order. */
  function SpecificUpTo(files: Dict<string, Table>, shared: seq<string>, k: nat): seq<string>
    requires k <= |files|
  {
    if k == 0 then []
    else SpecificUpTo(files, shared, k - 1) + Specific(files[k - 1].0, files[k - 1].1.columns, shared)
  }

  /** `merged_df` after the first `k` departments have been processed. */
  function MergeUpTo(files: Dict<string, Table>, shared: seq<string>, k: nat): Table
    requires 1 <= k <= |files|
  {
    var part := Renamed(files[k - 1].0, files[k - 1].1, shared);
    if k == 1 then part else Joined(MergeUpTo(files, shared, k - 1), part, shared)
  }

  /**
   * The value of column `c` for beneficiary `b` in the first of the first `k`
   * departments that has a non-null one; null when none has.
   */
  function FirstNonNull(files: Dict<string, Table>, k: nat, b: Cell, c: string): (v: Cell)
    requires k <= |files|
    ensures v.Some? ==> exists j :: 0 <= j < k && v == ValueIn(files[j].1, b, c) &&
                                 forall i :: 0 <= i < j ==> ValueIn(files[i].1, b, c).None?
    ensures v.None? ==> forall j :: 0 <= j < k ==> ValueIn(files[j].1, b, c).None?
  {
    if k == 0 then None
    else
      var v := FirstNonNull(files, k - 1, b, c);
      if v.Some? then v else ValueIn(files[k - 1].1, b, c)
  }

  /** What the source relies on in every department table. */
  ghost predicate Inputs(files: Dict<string, Table>) {
    forall j :: 0 <= j < |files| ==>
      WellFormed(files[j].1) && BenId in files[j].1.columns && UniqueKeys(files[j].1.rows)
  }

  /** `ben_id`, the shared names and the renamed names of the first `k` departments are all distinct. */
  ghost predicate Layout(files: Dict<string, Table>, shared: seq<string>, k: nat)
    requires k <= |files|
  {
    NoDup(shared) && BenId !in shared &&
    NoDup(SpecificUpTo(files, shared, k)) && Apart(SpecificUpTo(files, shared, k), shared)
  }

  /** The two parts of a sequence without repeats have none and share nothing. */
  lemma NoDupSplit<T>(a: seq<T>, b: seq<T>)
    requires NoDup(a + b)
    ensures NoDup(a) && NoDup(b)
    ensures forall x :: x in a ==> x !in b
  {
    forall i, j | 0 <= i < j < |a| ensures a[i] != a[j] {
      assert (a + b)[i] == a[i] && (a + b)[j] == a[j];
    }
    forall i, j | 0 <= i < j < |b| ensures b[i] != b[j] {
      assert (a + b)[|a| + i] == b[i] && (a + b)[|a| + j] == b[j];
    }
    forall i, j | 0 <= i < |a| && 0 <= j < |b| ensures a[i] != b[j] {
      assert (a + b)[i] == a[i] && (a + b)[|a| + j] == b[j];
    }
  }

  /** The layout of the first `k` departments holds for fewer of them too. */
  lemma LayoutPrefix(files: Dict<string, Table>, shared: seq<string>, k: nat)
    requires 0 < k <= |files| && Layout(files, shared, k)
    ensures Layout(files, shared, k - 1)
    ensures NoDup(Specific(files[k - 1].0, files[k - 1].1.columns, shared))
    ensures Apart(Specific(files[k - 1].0, files[k - 1].1.columns, shared), shared)
  {
    NoDupSplit(SpecificUpTo(files, shared, k - 1), Specific(files[k - 1].0, files[k - 1].1.columns, shared));
  }

  /** `ben_id`, the shared names and renamed names apart from both have no repeats together. */
  lemma LayoutNoDup(shared: seq<string>, spec: seq<string>)
    requires NoDup(shared) && BenId !in shared && NoDup(spec) && Apart(spec, shared)
    ensures NoDup([BenId] + shared + spec)
  {
    NoDupConcat([BenId], shared);
    NoDupConcat([BenId] + shared, spec);
  }

  /** The renamed table of one department is well formed and keeps unique keys. */
  lemma RenamedShape(abbr: string, t: Table, shared: seq<string>)
    requires WellFormed(t) && UniqueKeys(t.rows)
    requires NoDup(shared) && BenId !in shared && Apart(Specific(abbr, t.columns, shared), shared)
    ensures WellFormed(Renamed(abbr, t, shared))
    ensures UniqueKeys(Renamed(abbr, t, shared).rows)
  {
    var s := Renamed(abbr, t, shared);
    SpecificSpec(abbr, t.columns, shared);
    LayoutNoDup(shared, Specific(abbr, t.columns, shared));
    forall i | 0 <= i < |t.rows| ensures Key(s.rows[i]) == Key(t.rows[i]) {
      RenameRowValues(abbr, t.rows[i], t.columns, shared);
    }
    UniqueKeysAlike(t.rows, s.rows);
  }

  /** The renamed table holds a beneficiary exactly when the department's table does. */
  lemma RenamedKeys(abbr: string, t: Table, shared: seq<string>, b: Cell)
    requires BenId !in shared && Apart(Specific(abbr, t.columns, shared), shared)
    ensures RowOf(Renamed(abbr, t, shared).rows, b).Some? <==> RowOf(t.rows, b).Some?
  {
    var s := Renamed(abbr, t, shared);
    if RowOf(s.rows, b).Some? {
      var i :| 0 <= i < |s.rows| && s.rows[i] == RowOf(s.rows, b).value;
      RenameRowValues(abbr, t.rows[i], t.columns, shared);
      assert t.rows[i] in t.rows;
    }
    if RowOf(t.rows, b).Some? {
      var i :| 0 <= i < |t.rows| && t.rows[i] == RowOf(t.rows, b).value;
      RenameRowValues(abbr, t.rows[i], t.columns, shared);
      assert s.rows[i] in s.rows;
    }
  }

  /** A renamed row holds the department's values under the shared and the renamed names. */
  lemma RenamedValues(abbr: string, t: Table, shared: seq<string>, m: Row)
    requires UniqueKeys(t.rows) && BenId !in shared && Apart(Specific(abbr, t.columns, shared), shared)
    requires m in Renamed(abbr, t, shared).rows && Key(m).Some?
    ensures forall c :: c in shared ==> At(m, c) == ValueIn(t, Key(m), c)
    ensures forall c :: c in t.columns && c !in shared && c != BenId ==>
      At(m, Prefixed(abbr, c)) == ValueIn(t, Key(m), c)
  {
    var s := Renamed(abbr, t, shared);
    var i :| 0 <= i < |s.rows| && s.rows[i] == m;
    RenameRowValues(abbr, t.rows[i], t.columns, shared);
    RowOfUnique(t.rows, t.rows[i]);
  }

  // ---------------------------------------------------------------------------
  // What `merged_df` satisfies after each department.

  /** Its columns: `ben_id`, the shared ones, then the renamed ones of the first `k` departments. */
  ghost predicate ColumnsUpTo(m: Table, files: Dict<string, Table>, shared: seq<string>, k: nat)
    requires k <= |files|
  {
    m.columns == [BenId] + shared + SpecificUpTo(files, shared, k)
  }

  /** Its columns, well-formedness and unique keys. */
  ghost predicate MergedShape(m: Table, files: Dict<string, Table>, shared: seq<string>, k: nat)
    requires k <= |files|
  {
    ColumnsUpTo(m, files, shared, k) && WellFormed(m) && UniqueKeys(m.rows)
  }

  /** It holds a beneficiary exactly when one of the first `k` departments does. */
  ghost predicate MergedKeys(m: Table, files: Dict<string, Table>, k: nat)
    requires k <= |files|
  {
    forall b: Cell :: b.Some? ==>
      (RowOf(m.rows, b).Some? <==> exists j :: 0 <= j < k && RowOf(files[j].1.rows, b).Some?)
  }

  /** Its shared cells hold the first non-null value among the first `k` departments. */
  ghost predicate MergedShared(m: Table, files: Dict<string, Table>, shared: seq<string>, k: nat)
    requires k <= |files|
  {
    forall r, c :: r in m.rows && Key(r).Some? && c in shared ==> At(r, c) == FirstNonNull(files, k, Key(r), c)
  }

  /** Its renamed cells hold that department's value, or null when the department lacks the beneficiary. */
  ghost predicate MergedOwn(m: Table, files: Dict<string, Table>, shared: seq<string>, k: nat)
    requires k <= |files|
  {
    forall r, j, c :: r in m.rows && Key(r).Some? && 0 <= j < k && c in files[j].1.columns && c !in shared && c != BenId ==>
      At(r, Prefixed(files[j].0, c)) == ValueIn(files[j].1, Key(r), c)
  }

  /** The situation of the `k`-th department's join. */
  ghost predicate StepContext(files: Dict<string, Table>, shared: seq<string>, k: nat) {
    2 <= k <= |files| && Inputs(files) && Layout(files, shared, k)
  }

  /** A left row's output row keeps its key. */
  lemma KeyLeftOut(l: Row, rs: seq<Row>, shared: seq<string>, added: seq<string>)
    requires BenId !in added && BenId !in shared
    ensures Key(LeftOut(l, rs, shared, added)) == Key(l)
  {
  }

  /** A right row's padded row keeps its key. */
  lemma KeyRightOnly(r: Row, lcols: seq<string>, shared: seq<string>, added: seq<string>)
    requires BenId in lcols
    ensures Key(RightOnly(r, lcols, shared, added)) == Key(r)
  {
  }

  /** A department's renamed columns are among those of every later point of the fold. */
  lemma {:induction false} SpecificUpToHas(files: Dict<string, Table>, shared: seq<string>, k: nat, j: nat, x: string)
    requires j < k <= |files| && x in Specific(files[j].0, files[j].1.columns, shared)
    ensures x in SpecificUpTo(files, shared, k)
  {
    if j < k - 1 {
      SpecificUpToHas(files, shared, k - 1, j, x);
    }
  }

  /** Nothing satisfies the condition: nothing is kept. */
  lemma KeepNone<T(!new)>(s: seq<T>, p: T -> bool)
    requires forall x :: x in s ==> !p(x)
    ensures Keep(s, p) == []
  {
  }

  /** Joining a table laid out as `ben_id`, shared, own onto one laid out the same way adds the own columns. */
  lemma AddedOwn(shared: seq<string>, a: seq<string>, s: seq<string>)
    requires BenId !in shared && Apart(s, shared) && NoDup(a + s)
    ensures Added([BenId] + shared + a, [BenId] + shared + s) == s
  {
    var lcols := [BenId] + shared + a;
    NoDupSplit(a, s);
    var p := c => c !in lcols;
    KeepConcat([BenId] + shared, s, p);
    KeepNone([BenId] + shared, p);
    KeepAll(s, p);
  }

  /** The join of the `k`-th department adds exactly its renamed columns. */
  lemma StepAdded(files: Dict<string, Table>, shared: seq<string>, k: nat)
    requires 2 <= k <= |files| && Layout(files, shared, k)
    requires ColumnsUpTo(MergeUpTo(files, shared, k - 1), files, shared, k - 1)
    ensures Added(MergeUpTo(files, shared, k - 1).columns, Renamed(files[k - 1].0, files[k - 1].1, shared).columns)
      == Specific(files[k - 1].0, files[k - 1].1.columns, shared)
  {
    LayoutPrefix(files, shared, k);
    AddedOwn(shared, SpecificUpTo(files, shared, k - 1), Specific(files[k - 1].0, files[k - 1].1.columns, shared));
  }

  /** Every output row of a join has exactly the joined columns. */
  lemma JoinedFits(left: Table, right: Table, shared: seq<string>)
    requires WellFormed(left) && UniqueKeys(right.rows)
    ensures forall i :: 0 <= i < |Joined(left, right, shared).rows| ==>
      Fits(Joined(left, right, shared).rows[i], Joined(left, right, shared).columns)
  {
    var j := Joined(left, right, shared);
    forall i | 0 <= i < |j.rows| ensures Fits(j.rows[i], j.columns) {
      var fromLeft, o := JoinedOrigin(left, right, shared, j.rows[i]);
      if fromLeft {
        RowFits(left, o);
      }
    }
  }

  /** An unmatched right row shares its key with no left row. */
  lemma UnmatchedApart(ls: seq<Row>, r: Row, l: Row)
    requires Unmatched(r, ls) && l in ls && Key(l).Some?
    ensures Key(l) != Key(r)
  {
  }

  /** The left part of a join keeps the left keys, in order, and so their uniqueness. */
  lemma LeftOutsKeys(ls: seq<Row>, rs: seq<Row>, shared: seq<string>, added: seq<string>)
    requires UniqueKeys(ls) && BenId !in added && BenId !in shared
    ensures forall i :: 0 <= i < |ls| ==> Key(LeftOuts(ls, rs, shared, added)[i]) == Key(ls[i])
    ensures UniqueKeys(LeftOuts(ls, rs, shared, added))
  {
    var a := LeftOuts(ls, rs, shared, added);
    forall i | 0 <= i < |ls| ensures Key(a[i]) == Key(ls[i]) {
      KeyLeftOut(ls[i], rs, shared, added);
    }
    UniqueKeysAlike(ls, a);
  }

  /** The right part of a join keeps the keys of the unmatched right rows, and so their uniqueness. */
  lemma RightRestKeys(rs: seq<Row>, ls: seq<Row>, lcols: seq<string>, shared: seq<string>, added: seq<string>)
    requires UniqueKeys(rs) && BenId in lcols
    ensures forall y :: y in RightRest(rs, ls, lcols, shared, added) ==> Unmatched(y, ls)
    ensures UniqueKeys(RightRest(rs, ls, lcols, shared, added))
  {
    var k := Keep(rs, r => Unmatched(r, ls));
    var b := RightRest(rs, ls, lcols, shared, added);
    UniqueKeysKeep(rs, r => Unmatched(r, ls));
    forall i | 0 <= i < |k| ensures Key(k[i]) == Key(b[i]) {
      KeyRightOnly(k[i], lcols, shared, added);
    }
    UniqueKeysAlike(k, b);
    forall y | y in b ensures Unmatched(y, ls) {
      var j :| 0 <= j < |b| && b[j] == y;
      assert k[j] in k;
    }
  }

  /** A join keeps `ben_id` unique when both sides have unique keys. */
  lemma JoinedUniqueKeys(left: Table, right: Table, shared: seq<string>)
    requires UniqueKeys(left.rows) && UniqueKeys(right.rows)
    requires BenId in left.columns && BenId !in shared && BenId !in Added(left.columns, right.columns)
    ensures UniqueKeys(Joined(left, right, shared).rows)
  {
    var added := Added(left.columns, right.columns);
    JoinedRows(left, right, shared);
    var a := LeftOuts(left.rows, right.rows, shared, added);
    var b := RightRest(right.rows, left.rows, left.columns, shared, added);
    LeftOutsKeys(left.rows, right.rows, shared, added);
    RightRestKeys(right.rows, left.rows, left.columns, shared, added);
    forall x, y | x in a && y in b && Key(x).Some? ensures Key(x) != Key(y) {
      var i :| 0 <= i < |a| && a[i] == x;
      assert left.rows[i] in left.rows;
      UnmatchedApart(left.rows, y, left.rows[i]);
    }
    UniqueKeysConcat(a, b);
  }

  /** After the `k`-th department the columns, well-formedness and unique keys still hold. */
  lemma StepShape(files: Dict<string, Table>, shared: seq<string>, k: nat)
    requires StepContext(files, shared, k) && MergedShape(MergeUpTo(files, shared, k - 1), files, shared, k - 1)
    ensures MergedShape(MergeUpTo(files, shared, k), files, shared, k)
  {
    var left := MergeUpTo(files, shared, k - 1);
    var (abbr, t) := files[k - 1];
    var right := Renamed(abbr, t, shared);
    var a := SpecificUpTo(files, shared, k - 1);
    var s := Specific(abbr, t.columns, shared);
    LayoutPrefix(files, shared, k);
    StepAdded(files, shared, k);
    RenamedShape(abbr, t, shared);
    assert left.columns + s == [BenId] + shared + (a + s);
    LayoutNoDup(shared, a + s);
    JoinedFits(left, right, shared);
    JoinedUniqueKeys(left, right, shared);
  }

  /** A join holds a non-null key exactly when one of its sides does. */
  lemma JoinedKeys(left: Table, right: Table, shared: seq<string>, b: Cell)
    requires UniqueKeys(right.rows) && b.Some?
    requires BenId in left.columns && BenId !in shared && BenId !in Added(left.columns, right.columns)
    ensures RowOf(Joined(left, right, shared).rows, b).Some? <==>
      RowOf(left.rows, b).Some? || RowOf(right.rows, b).Some?
  {
    var j := Joined(left, right, shared);
    var added := Added(left.columns, right.columns);
    if RowOf(j.rows, b).Some? {
      var fromLeft, o := JoinedOrigin(left, right, shared, RowOf(j.rows, b).value);
      if fromLeft {
        KeyLeftOut(o, right.rows, shared, added);
      } else {
        KeyRightOnly(o, left.columns, shared, added);
      }
    }
    if RowOf(left.rows, b).Some? {
      var l := RowOf(left.rows, b).value;
      JoinedHasLeft(left, right, shared, l);
      KeyLeftOut(l, right.rows, shared, added);
    } else if RowOf(right.rows, b).Some? {
      var r := RowOf(right.rows, b).value;
      JoinedHasRight(left, right, shared, r);
      KeyRightOnly(r, left.columns, shared, added);
    }
  }

  /** `StepKeys` for one beneficiary. */
  lemma StepKeysAt(files: Dict<string, Table>, shared: seq<string>, k: nat, b: Cell)
    requires 2 <= k <= |files| && Layout(files, shared, k) && b.Some?
    requires WellFormed(files[k - 1].1) && UniqueKeys(files[k - 1].1.rows)
    requires ColumnsUpTo(MergeUpTo(files, shared, k - 1), files, shared, k - 1)
    requires RowOf(MergeUpTo(files, shared, k - 1).rows, b).Some? <==>
      exists j :: 0 <= j < k - 1 && RowOf(files[j].1.rows, b).Some?
    ensures RowOf(MergeUpTo(files, shared, k).rows, b).Some? <==>
      exists j :: 0 <= j < k && RowOf(files[j].1.rows, b).Some?
  {
    var left := MergeUpTo(files, shared, k - 1);
    var (abbr, t) := files[k - 1];
    var right := Renamed(abbr, t, shared);
    LayoutPrefix(files, shared, k);
    StepAdded(files, shared, k);
    RenamedShape(abbr, t, shared);
    JoinedKeys(left, right, shared, b);
    RenamedKeys(abbr, t, shared, b);
    if exists j :: 0 <= j < k && RowOf(files[j].1.rows, b).Some? {
      var j :| 0 <= j < k && RowOf(files[j].1.rows, b).Some?;
      assert j < k - 1 || j == k - 1;
    }
  }

  /** After the `k`-th department the merged table holds exactly the beneficiaries of the first `k`. */
  lemma StepKeys(files: Dict<string, Table>, shared: seq<string>, k: nat)
    requires 2 <= k <= |files| && Layout(files, shared, k)
    requires WellFormed(files[k - 1].1) && UniqueKeys(files[k - 1].1.rows)
    requires ColumnsUpTo(MergeUpTo(files, shared, k - 1), files, shared, k - 1)
    requires MergedKeys(MergeUpTo(files, shared, k - 1), files, k - 1)
    ensures MergedKeys(MergeUpTo(files, shared, k), files, k)
  {
    forall b: Cell | b.Some?
      ensures RowOf(MergeUpTo(files, shared, k).rows, b).Some? <==>
        exists j :: 0 <= j < k && RowOf(files[j].1.rows, b).Some?
    {
      StepKeysAt(files, shared, k, b);
    }
  }

  /** A beneficiary none of the first `k` departments holds has no value among them. */
  lemma FirstNonNullAbsent(files: Dict<string, Table>, k: nat, b: Cell, c: string)
    requires k <= |files|
    requires forall j :: 0 <= j < k ==> RowOf(files[j].1.rows, b).None?
    ensures FirstNonNull(files, k, b, c).None?
  {
  }

  /** Looking a beneficiary up in the renamed table finds the department's values. */
  lemma RenamedValueIn(abbr: string, t: Table, shared: seq<string>, b: Cell)
    requires UniqueKeys(t.rows) && BenId !in shared && Apart(Specific(abbr, t.columns, shared), shared)
    requires b.Some?
    ensures forall c :: c in shared ==> ValueIn(Renamed(abbr, t, shared), b, c) == ValueIn(t, b, c)
    ensures forall c :: c in t.columns && c !in shared && c != BenId ==>
      ValueIn(Renamed(abbr, t, shared), b, Prefixed(abbr, c)) == ValueIn(t, b, c)
  {
    var right := Renamed(abbr, t, shared);
    RenamedKeys(abbr, t, shared, b);
    if RowOf(right.rows, b).Some? {
      RenamedValues(abbr, t, shared, RowOf(right.rows, b).value);
    }
  }

  /** A joined left row's shared cell: its own value, else the right side's. */
  lemma JoinedSharedLeft(left: Table, right: Table, shared: seq<string>, l: Row, c: string)
    requires WellFormed(left) && l in left.rows && Key(l).Some?
    requires c in shared && c in left.columns && c !in Added(left.columns, right.columns)
    ensures At(LeftOut(l, right.rows, shared, Added(left.columns, right.columns)), c) ==
      if At(l, c).Some? then At(l, c) else ValueIn(right, Key(l), c)
  {
    RowFits(left, l);
  }

  /** An unmatched right row's cell in a shared or added column is its own value. */
  lemma JoinedRightValue(left: Table, right: Table, shared: seq<string>, r: Row, c: string)
    requires UniqueKeys(right.rows) && r in right.rows && Key(r).Some?
    requires (c in shared && c in left.columns) || c in Added(left.columns, right.columns)
    ensures At(RightOnly(r, left.columns, shared, Added(left.columns, right.columns)), c) == ValueIn(right, Key(r), c)
  {
    RowOfUnique(right.rows, r);
  }

  /** A shared cell of the output row of a left row of the `k`-th join. */
  lemma StepSharedLeft(files: Dict<string, Table>, shared: seq<string>, k: nat, l: Row, c: string)
    requires StepContext(files, shared, k)
    requires MergedShape(MergeUpTo(files, shared, k - 1), files, shared, k - 1)
    requires MergedShared(MergeUpTo(files, shared, k - 1), files, shared, k - 1)
    requires l in MergeUpTo(files, shared, k - 1).rows && Key(l).Some? && c in shared
    ensures At(LeftOut(l, Renamed(files[k - 1].0, files[k - 1].1, shared).rows, shared,
                       Added(MergeUpTo(files, shared, k - 1).columns, Renamed(files[k - 1].0, files[k - 1].1, shared).columns)), c)
      == FirstNonNull(files, k, Key(l), c)
  {
    var left := MergeUpTo(files, shared, k - 1);
    var (abbr, t) := files[k - 1];
    var right := Renamed(abbr, t, shared);
    LayoutPrefix(files, shared, k);
    StepAdded(files, shared, k);
    assert At(l, c) == FirstNonNull(files, k - 1, Key(l), c);
    JoinedSharedLeft(left, right, shared, l, c);
    RenamedValueIn(abbr, t, shared, Key(l));
  }

  /** A shared cell of the padded row of an unmatched right row of the `k`-th join. */
  lemma StepSharedRight(files: Dict<string, Table>, shared: seq<string>, k: nat, r: Row, c: string)
    requires StepContext(files, shared, k)
    requires MergedShape(MergeUpTo(files, shared, k - 1), files, shared, k - 1)
    requires MergedKeys(MergeUpTo(files, shared, k - 1), files, k - 1)
    requires r in Renamed(files[k - 1].0, files[k - 1].1, shared).rows && Key(r).Some? && c in shared
    requires Unmatched(r, MergeUpTo(files, shared, k - 1).rows)
    ensures At(RightOnly(r, MergeUpTo(files, shared, k - 1).columns, shared,
                         Added(MergeUpTo(files, shared, k - 1).columns, Renamed(files[k - 1].0, files[k - 1].1, shared).columns)), c)
      == FirstNonNull(files, k, Key(r), c)
  {
    var left := MergeUpTo(files, shared, k - 1);
    var (abbr, t) := files[k - 1];
    var right := Renamed(abbr, t, shared);
    LayoutPrefix(files, shared, k);
    RenamedShape(abbr, t, shared);
    FirstNonNullAbsent(files, k - 1, Key(r), c);
    JoinedRightValue(left, right, shared, r, c);
    RenamedValueIn(abbr, t, shared, Key(r));
  }

  /** One shared cell of a row of the merged table after the `k`-th department. */
  lemma StepSharedRow(files: Dict<string, Table>, shared: seq<string>, k: nat, m: Row, c: string)
    requires StepContext(files, shared, k)
    requires MergedShape(MergeUpTo(files, shared, k - 1), files, shared, k - 1)
    requires MergedKeys(MergeUpTo(files, shared, k - 1), files, k - 1)
    requires MergedShared(MergeUpTo(files, shared, k - 1), files, shared, k - 1)
    requires m in MergeUpTo(files, shared, k).rows && Key(m).Some? && c in shared
    ensures At(m, c) == FirstNonNull(files, k, Key(m), c)
  {
    var left := MergeUpTo(files, shared, k - 1);
    var (abbr, t) := files[k - 1];
    var right := Renamed(abbr, t, shared);
    var added := Added(left.columns, right.columns);
    LayoutPrefix(files, shared, k);
    StepAdded(files, shared, k);
    RenamedShape(abbr, t, shared);
    var fromLeft, o := JoinedOrigin(left, right, shared, m);
    if fromLeft {
      KeyLeftOut(o, right.rows, shared, added);
      StepSharedLeft(files, shared, k, o, c);
    } else {
      KeyRightOnly(o, left.columns, shared, added);
      StepSharedRight(files, shared, k, o, c);
    }
  }

  /** A joined left row's cell in an added column is the right side's value. */
  lemma JoinedAddedLeft(left: Table, right: Table, shared: seq<string>, l: Row, x: string)
    requires Key(l).Some? && x in Added(left.columns, right.columns)
    ensures At(LeftOut(l, right.rows, shared, Added(left.columns, right.columns)), x) == ValueIn(right, Key(l), x)
  {
  }

  /** A joined left row keeps its own cell in a left column that is neither shared nor added. */
  lemma JoinedKeptLeft(left: Table, right: Table, shared: seq<string>, l: Row, x: string)
    requires WellFormed(left) && l in left.rows && x in left.columns
    requires x !in shared && x !in Added(left.columns, right.columns)
    ensures At(LeftOut(l, right.rows, shared, Added(left.columns, right.columns)), x) == At(l, x)
  {
    RowFits(left, l);
  }

  /** The renamed name of a department's own column. */
  lemma SpecificHas(abbr: string, cols: seq<string>, shared: seq<string>, c: string)
    requires c in cols && c !in shared && c != BenId
    ensures Prefixed(abbr, c) in Specific(abbr, cols, shared)
  {
    SpecificSpec(abbr, cols, shared);
  }

  /** A name of the left layout's own part is neither `ben_id`, shared, nor among the right side's own names. */
  lemma EarlierColumn(shared: seq<string>, a: seq<string>, s: seq<string>, x: string)
    requires NoDup(a + s) && Apart(a + s, shared) && x in a
    ensures x in [BenId] + shared + a
    ensures x != BenId && x !in shared && x !in s
  {
    NoDupSplit(a, s);
    assert x in a + s;
  }

  /** An earlier department's renamed column is a left column the `k`-th join neither adds nor shares. */
  lemma StepEarlierColumn(files: Dict<string, Table>, shared: seq<string>, k: nat, j: nat, x: string, lcols: seq<string>)
    requires 2 <= k <= |files| && Layout(files, shared, k)
    requires lcols == [BenId] + shared + SpecificUpTo(files, shared, k - 1)
    requires j < k - 1 && x in Specific(files[j].0, files[j].1.columns, shared)
    ensures x in lcols && x != BenId && x !in shared
    ensures x !in Added(lcols, RenamedColumns(files[k - 1].0, files[k - 1].1.columns, shared))
  {
    var a := SpecificUpTo(files, shared, k - 1);
    var s := Specific(files[k - 1].0, files[k - 1].1.columns, shared);
    assert SpecificUpTo(files, shared, k) == a + s;
    SpecificUpToHas(files, shared, k - 1, j, x);
    EarlierColumn(shared, a, s, x);
  }

  /** An earlier department's renamed cell of a left row passes through the `k`-th join. */
  lemma StepOwnLeftEarlier(files: Dict<string, Table>, shared: seq<string>, k: nat, l: Row, j: nat, c: string)
    requires 2 <= k <= |files| && Layout(files, shared, k)
    requires ColumnsUpTo(MergeUpTo(files, shared, k - 1), files, shared, k - 1)
    requires WellFormed(MergeUpTo(files, shared, k - 1)) && l in MergeUpTo(files, shared, k - 1).rows
    requires j < k - 1 && c in files[j].1.columns && c !in shared && c != BenId
    ensures At(LeftOut(l, Renamed(files[k - 1].0, files[k - 1].1, shared).rows, shared,
                       Added(MergeUpTo(files, shared, k - 1).columns, Renamed(files[k - 1].0, files[k - 1].1, shared).columns)),
               Prefixed(files[j].0, c))
      == At(l, Prefixed(files[j].0, c))
  {
    var x := Prefixed(files[j].0, c);
    SpecificHas(files[j].0, files[j].1.columns, shared, c);
    StepEarlierColumn(files, shared, k, j, x, MergeUpTo(files, shared, k - 1).columns);
    JoinedKeptLeft(MergeUpTo(files, shared, k - 1), Renamed(files[k - 1].0, files[k - 1].1, shared), shared, l, x);
  }

  /** An earlier department's renamed cell of an unmatched right row is null. */
  lemma StepOwnRightEarlier(files: Dict<string, Table>, shared: seq<string>, k: nat, r: Row, j: nat, c: string)
    requires 2 <= k <= |files| && Layout(files, shared, k)
    requires ColumnsUpTo(MergeUpTo(files, shared, k - 1), files, shared, k - 1)
    requires j < k - 1 && c in files[j].1.columns && c !in shared && c != BenId
    ensures At(RightOnly(r, MergeUpTo(files, shared, k - 1).columns, shared,
                         Added(MergeUpTo(files, shared, k - 1).columns, Renamed(files[k - 1].0, files[k - 1].1, shared).columns)),
               Prefixed(files[j].0, c)).None?
  {
    var x := Prefixed(files[j].0, c);
    SpecificHas(files[j].0, files[j].1.columns, shared, c);
    StepEarlierColumn(files, shared, k, j, x, MergeUpTo(files, shared, k - 1).columns);
  }

  /** The `k`-th department's renamed column is added by its join. */
  lemma StepLastColumn(files: Dict<string, Table>, shared: seq<string>, k: nat, c: string)
    requires 2 <= k <= |files| && Layout(files, shared, k)
    requires ColumnsUpTo(MergeUpTo(files, shared, k - 1), files, shared, k - 1)
    requires c in files[k - 1].1.columns && c !in shared && c != BenId
    ensures Prefixed(files[k - 1].0, c) in
      Added(MergeUpTo(files, shared, k - 1).columns, Renamed(files[k - 1].0, files[k - 1].1, shared).columns)
  {
    StepAdded(files, shared, k);
    SpecificHas(files[k - 1].0, files[k - 1].1.columns, shared, c);
  }

  /** The `k`-th department's renamed cell of a left row is that department's value. */
  lemma StepOwnLeftLast(files: Dict<string, Table>, shared: seq<string>, k: nat, l: Row, c: string)
    requires 2 <= k <= |files| && Layout(files, shared, k) && UniqueKeys(files[k - 1].1.rows)
    requires ColumnsUpTo(MergeUpTo(files, shared, k - 1), files, shared, k - 1)
    requires Key(l).Some? && c in files[k - 1].1.columns && c !in shared && c != BenId
    ensures At(LeftOut(l, Renamed(files[k - 1].0, files[k - 1].1, shared).rows, shared,
                       Added(MergeUpTo(files, shared, k - 1).columns, Renamed(files[k - 1].0, files[k - 1].1, shared).columns)),
               Prefixed(files[k - 1].0, c))
      == ValueIn(files[k - 1].1, Key(l), c)
  {
    var (abbr, t) := files[k - 1];
    LayoutPrefix(files, shared, k);
    StepLastColumn(files, shared, k, c);
    JoinedAddedLeft(MergeUpTo(files, shared, k - 1), Renamed(abbr, t, shared), shared, l, Prefixed(abbr, c));
    RenamedValueIn(abbr, t, shared, Key(l));
  }

  /** The `k`-th department's renamed cell of an unmatched right row is that department's value. */
  lemma StepOwnRightLast(files: Dict<string, Table>, shared: seq<string>, k: nat, r: Row, c: string)
    requires 2 <= k <= |files| && Layout(files, shared, k)
    requires WellFormed(files[k - 1].1) && UniqueKeys(files[k - 1].1.rows)
    requires ColumnsUpTo(MergeUpTo(files, shared, k - 1), files, shared, k - 1)
    requires r in Renamed(files[k - 1].0, files[k - 1].1, shared).rows && Key(r).Some?
    requires c in files[k - 1].1.columns && c !in shared && c != BenId
    ensures At(RightOnly(r, MergeUpTo(files, shared, k - 1).columns, shared,
                         Added(MergeUpTo(files, shared, k - 1).columns, Renamed(files[k - 1].0, files[k - 1].1, shared).columns)),
               Prefixed(files[k - 1].0, c))
      == ValueIn(files[k - 1].1, Key(r), c)
  {
    var (abbr, t) := files[k - 1];
    LayoutPrefix(files, shared, k);
    RenamedShape(abbr, t, shared);
    StepLastColumn(files, shared, k, c);
    JoinedRightValue(MergeUpTo(files, shared, k - 1), Renamed(abbr, t, shared), shared, r, Prefixed(abbr, c));
    RenamedValueIn(abbr, t, shared, Key(r));
  }

  /** A renamed cell of the output row of a left row of the `k`-th join. */
  lemma StepOwnLeft(files: Dict<string, Table>, shared: seq<string>, k: nat, l: Row, j: nat, c: string)
    requires 2 <= k <= |files| && Layout(files, shared, k) && UniqueKeys(files[k - 1].1.rows)
    requires MergedShape(MergeUpTo(files, shared, k - 1), files, shared, k - 1)
    requires MergedOwn(MergeUpTo(files, shared, k - 1), files, shared, k - 1)
    requires l in MergeUpTo(files, shared, k - 1).rows && Key(l).Some?
    requires j < k && c in files[j].1.columns && c !in shared && c != BenId
    ensures At(LeftOut(l, Renamed(files[k - 1].0, files[k - 1].1, shared).rows, shared,
                       Added(MergeUpTo(files, shared, k - 1).columns, Renamed(files[k - 1].0, files[k - 1].1, shared).columns)),
               Prefixed(files[j].0, c))
      == ValueIn(files[j].1, Key(l), c)
  {
    if j < k - 1 {
      StepOwnLeftEarlier(files, shared, k, l, j, c);
      assert At(l, Prefixed(files[j].0, c)) == ValueIn(files[j].1, Key(l), c);
    } else {
      StepOwnLeftLast(files, shared, k, l, c);
    }
  }

  /** A renamed cell of the padded row of an unmatched right row of the `k`-th join. */
  lemma StepOwnRight(files: Dict<string, Table>, shared: seq<string>, k: nat, r: Row, j: nat, c: string)
    requires 2 <= k <= |files| && Layout(files, shared, k)
    requires WellFormed(files[k - 1].1) && UniqueKeys(files[k - 1].1.rows)
    requires MergedShape(MergeUpTo(files, shared, k - 1), files, shared, k - 1)
    requires MergedKeys(MergeUpTo(files, shared, k - 1), files, k - 1)
    requires r in Renamed(files[k - 1].0, files[k - 1].1, shared).rows && Key(r).Some?
    requires Unmatched(r, MergeUpTo(files, shared, k - 1).rows)
    requires j < k && c in files[j].1.columns && c !in shared && c != BenId
    ensures At(RightOnly(r, MergeUpTo(files, shared, k - 1).columns, shared,
                         Added(MergeUpTo(files, shared, k - 1).columns, Renamed(files[k - 1].0, files[k - 1].1, shared).columns)),
               Prefixed(files[j].0, c))
      == ValueIn(files[j].1, Key(r), c)
  {
    if j < k - 1 {
      StepOwnRightEarlier(files, shared, k, r, j, c);
      assert RowOf(files[j].1.rows, Key(r)).None?;
    } else {
      StepOwnRightLast(files, shared, k, r, c);
    }
  }

  /** One renamed cell of a row of the merged table after the `k`-th department. */
  lemma StepOwnRow(files: Dict<string, Table>, shared: seq<string>, k: nat, m: Row, j: nat, c: string)
    requires StepContext(files, shared, k)
    requires MergedShape(MergeUpTo(files, shared, k - 1), files, shared, k - 1)
    requires MergedKeys(MergeUpTo(files, shared, k - 1), files, k - 1)
    requires MergedOwn(MergeUpTo(files, shared, k - 1), files, shared, k - 1)
    requires m in MergeUpTo(files, shared, k).rows && Key(m).Some?
    requires j < k && c in files[j].1.columns && c !in shared && c != BenId
    ensures At(m, Prefixed(files[j].0, c)) == ValueIn(files[j].1, Key(m), c)
  {
    var left := MergeUpTo(files, shared, k - 1);
    var (abbr, t) := files[k - 1];
    var right := Renamed(abbr, t, shared);
    var added := Added(left.columns, right.columns);
    LayoutPrefix(files, shared, k);
    StepAdded(files, shared, k);
    RenamedShape(abbr, t, shared);
    var fromLeft, o := JoinedOrigin(left, right, shared, m);
    if fromLeft {
      KeyLeftOut(o, right.rows, shared, added);
      StepOwnLeft(files, shared, k, o, j, c);
    } else {
      KeyRightOnly(o, left.columns, shared, added);
      StepOwnRight(files, shared, k, o, j, c);
    }
  }

  /** After the `k`-th department every shared cell holds the first non-null value. */
  lemma StepShared(files: Dict<string, Table>, shared: seq<string>, k: nat)
    requires StepContext(files, shared, k)
    requires MergedShape(MergeUpTo(files, shared, k - 1), files, shared, k - 1)
    requires MergedKeys(MergeUpTo(files, shared, k - 1), files, k - 1)
    requires MergedShared(MergeUpTo(files, shared, k - 1), files, shared, k - 1)
    ensures MergedShared(MergeUpTo(files, shared, k), files, shared, k)
  {
    forall m, c | m in MergeUpTo(files, shared, k).rows && Key(m).Some? && c in shared
      ensures At(m, c) == FirstNonNull(files, k, Key(m), c)
    {
      StepSharedRow(files, shared, k, m, c);
    }
  }

  /** After the `k`-th department every renamed cell holds its department's value. */
  lemma StepOwn(files: Dict<string, Table>, shared: seq<string>, k: nat)
    requires StepContext(files, shared, k)
    requires MergedShape(MergeUpTo(files, shared, k - 1), files, shared, k - 1)
    requires MergedKeys(MergeUpTo(files, shared, k - 1), files, k - 1)
    requires MergedOwn(MergeUpTo(files, shared, k - 1), files, shared, k - 1)
    ensures MergedOwn(MergeUpTo(files, shared, k), files, shared, k)
  {
    forall m, j, c | m in MergeUpTo(files, shared, k).rows && Key(m).Some? && 0 <= j < k &&
                     c in files[j].1.columns && c !in shared && c != BenId
      ensures At(m, Prefixed(files[j].0, c)) == ValueIn(files[j].1, Key(m), c)
    {
      StepOwnRow(files, shared, k, m, j, c);
    }
  }

  /** The first department's renamed table already satisfies all four properties. */
  lemma MergeFirst(files: Dict<string, Table>, shared: seq<string>)
    requires 1 <= |files| && Inputs(files) && Layout(files, shared, 1)
    ensures MergedShape(MergeUpTo(files, shared, 1), files, shared, 1)
    ensures MergedKeys(MergeUpTo(files, shared, 1), files, 1)
    ensures MergedShared(MergeUpTo(files, shared, 1), files, shared, 1)
    ensures MergedOwn(MergeUpTo(files, shared, 1), files, shared, 1)
  {
    var (abbr, t) := files[0];
    var m := Renamed(abbr, t, shared);
    LayoutPrefix(files, shared, 1);
    assert SpecificUpTo(files, shared, 1) == Specific(abbr, t.columns, shared);
    RenamedShape(abbr, t, shared);
    forall b: Cell | b.Some?
      ensures RowOf(m.rows, b).Some? <==> exists j :: 0 <= j < 1 && RowOf(files[j].1.rows, b).Some?
    {
      RenamedKeys(abbr, t, shared, b);
    }
    forall r | r in m.rows && Key(r).Some? {
      RenamedValues(abbr, t, shared, r);
    }
  }

  /** The four properties hold of `merged_df` after every department. */
  lemma {:induction false} MergeInvariant(files: Dict<string, Table>, shared: seq<string>, k: nat)
    requires 1 <= k <= |files| && Inputs(files) && Layout(files, shared, k)
    ensures MergedShape(MergeUpTo(files, shared, k), files, shared, k)
    ensures MergedKeys(MergeUpTo(files, shared, k), files, k)
    ensures MergedShared(MergeUpTo(files, shared, k), files, shared, k)
    ensures MergedOwn(MergeUpTo(files, shared, k), files, shared, k)
  {
    if k == 1 {
      MergeFirst(files, shared);
    } else {
      LayoutPrefix(files, shared, k);
      MergeInvariant(files, shared, k - 1);
      StepShape(files, shared, k);
      StepKeys(files, shared, k);
      StepShared(files, shared, k);
      StepOwn(files, shared, k);
    }
  }

  // ---------------------------------------------------------------------------
  // The column order tracker and the final `select`.

  /** `[col for col in dept_specific if col not in column_order]`. */
  function NewNames(order: seq<string>, own: seq<string>): seq<string> {
    Keep(own, c => c !in order)
  }

  /** `column_order` after the first `k` departments. */
  function OrderUpTo(files: Dict<string, Table>, shared: seq<string>, k: nat): seq<string>
    requires k <= |files|
  {
    if k == 0 then [BenId] + shared
    else
      var order := OrderUpTo(files, shared, k - 1);
      order + NewNames(order, Specific(files[k - 1].0, files[k - 1].1.columns, shared))
  }

  /** `[col for col in column_order if col in merged_df.columns]`. */
  function Present(order: seq<string>, cols: seq<string>): seq<string> {
    Keep(order, c => c in cols)
  }

  /** Concatenation is associative. */
  lemma ConcatAssoc<T>(a: seq<T>, b: seq<T>, c: seq<T>)
    ensures (a + b) + c == a + (b + c)
  {
  }

  /** Names apart from the layout so far are all new to the order tracker. */
  lemma NewNamesApart(shared: seq<string>, a: seq<string>, s: seq<string>)
    requires NoDup(a + s) && Apart(a + s, shared)
    ensures NewNames([BenId] + shared + a, s) == s
  {
    var order := [BenId] + shared + a;
    NoDupSplit(a, s);
    forall x | x in s ensures x !in order {
      assert x in a + s;
    }
    KeepAll(s, c => c !in order);
  }

  /** When no renamed name repeats, the order tracker lists exactly the merged layout. */
  lemma {:induction false} OrderIsLayout(files: Dict<string, Table>, shared: seq<string>, k: nat)
    requires k <= |files| && Layout(files, shared, k)
    ensures OrderUpTo(files, shared, k) == [BenId] + shared + SpecificUpTo(files, shared, k)
  {
    if k > 0 {
      LayoutPrefix(files, shared, k);
      OrderIsLayout(files, shared, k - 1);
      var p := [BenId] + shared;
      var a := SpecificUpTo(files, shared, k - 1);
      var s := Specific(files[k - 1].0, files[k - 1].1.columns, shared);
      var order := OrderUpTo(files, shared, k - 1);
      assert order == p + a;
      NewNamesApart(shared, a, s);
      assert OrderUpTo(files, shared, k) == (p + a) + s;
      ConcatAssoc(p, a, s);
    }
  }

  // ---------------------------------------------------------------------------
  // The whole operation.

  /**
   * What `merge_department_data` needs of its input: at least one department
   * (`set.intersection` of nothing fails), every table well formed with a
   * `ben_id` column, each non-null `ben_id` at most once per table, and
   * renamed names that repeat neither each other, `ben_id`, nor a shared name.
   */
  ghost predicate MergeInput(files: Dict<string, Table>) {
    |files| > 0 && Inputs(files) && Layout(files, SharedColumns(files), |files|)
  }

  /** The shared columns meet the layout conditions of their own accord. */
  lemma SharedColumnsApart(files: Dict<string, Table>)
    requires |files| > 0 && NoDup(files[0].1.columns)
    ensures NoDup(SharedColumns(files)) && BenId !in SharedColumns(files)
  {
    SortedNoDup(SharedColumns(files));
  }

  /** The table `merge_department_data` returns. */
  ghost function Merged(files: Dict<string, Table>): (t: Table)
    requires MergeInput(files)
    ensures WellFormed(t)
    ensures t.columns == [BenId] + SharedColumns(files) + SpecificUpTo(files, SharedColumns(files), |files|)
  {
    var shared := SharedColumns(files);
    var m := MergeUpTo(files, shared, |files|);
    var order := OrderUpTo(files, shared, |files|);
    MergeInvariant(files, shared, |files|);
    OrderIsLayout(files, shared, |files|);
    KeepAll(order, c => c in m.columns);
    Select(m, Present(order, m.columns))
  }

  /** The final `select` changes nothing: the merged table is already in `column_order`. */
  lemma FinalSelectKeeps(files: Dict<string, Table>)
    requires MergeInput(files)
    ensures Merged(files) == MergeUpTo(files, SharedColumns(files), |files|)
  {
    var shared := SharedColumns(files);
    var m := MergeUpTo(files, shared, |files|);
    MergeInvariant(files, shared, |files|);
    OrderIsLayout(files, shared, |files|);
    KeepAll(OrderUpTo(files, shared, |files|), c => c in m.columns);
    SelectAll(m);
  }

  /** Every beneficiary of every department has a row in the merged table, and no other one has. */
  lemma EveryBeneficiaryMerged(files: Dict<string, Table>, b: Cell)
    requires MergeInput(files) && b.Some?
    ensures RowOf(Merged(files).rows, b).Some? <==>
      exists j :: 0 <= j < |files| && RowOf(files[j].1.rows, b).Some?
  {
    FinalSelectKeeps(files);
    MergeInvariant(files, SharedColumns(files), |files|);
  }

  /** No two merged rows carry the same non-null `ben_id`. */
  lemma OneRowPerBeneficiary(files: Dict<string, Table>)
    requires MergeInput(files)
    ensures UniqueKeys(Merged(files).rows)
  {
    FinalSelectKeeps(files);
    MergeInvariant(files, SharedColumns(files), |files|);
  }

  /** A shared cell holds the value of the first department, in dictionary order, that has a non-null one. */
  lemma SharedFromFirstDepartment(files: Dict<string, Table>, m: Row, c: string)
    requires MergeInput(files)
    requires m in Merged(files).rows && Key(m).Some? && c in SharedColumns(files)
    ensures At(m, c) == FirstNonNull(files, |files|, Key(m), c)
  {
    FinalSelectKeeps(files);
    MergeInvariant(files, SharedColumns(files), |files|);
  }

  /** A department's own column survives under `<abbr>_<column>` with that department's value, or null. */
  lemma OwnColumnsKeptApart(files: Dict<string, Table>, m: Row, j: nat, c: string)
    requires MergeInput(files)
    requires m in Merged(files).rows && Key(m).Some?
    requires j < |files| && c in files[j].1.columns && c !in SharedColumns(files) && c != BenId
    ensures Prefixed(files[j].0, c) in Merged(files).columns
    ensures At(m, Prefixed(files[j].0, c)) == ValueIn(files[j].1, Key(m), c)
  {
    var shared := SharedColumns(files);
    FinalSelectKeeps(files);
    MergeInvariant(files, shared, |files|);
    SpecificHas(files[j].0, files[j].1.columns, shared, c);
    SpecificUpToHas(files, shared, |files|, j, Prefixed(files[j].0, c));
  }

  // ---------------------------------------------------------------------------
  // Rows without a `ben_id`: a null key never matches, so each such row stays
  // a row of its own.

  /** The row's `ben_id` is null. */
  predicate NullKey(r: Row) {
    Key(r).None?
  }

  /** How many rows have a null `ben_id`. */
  function NullRows(rows: seq<Row>): nat {
    |Keep(rows, NullKey)|
  }

  /** Lists whose keys agree position by position have as many null keys. */
  lemma {:induction false} NullRowsAlike(a: seq<Row>, b: seq<Row>)
    requires |a| == |b| && forall i :: 0 <= i < |a| ==> Key(a[i]) == Key(b[i])
    ensures NullRows(a) == NullRows(b)
  {
    if a != [] {
      assert Key(a[0]) == Key(b[0]);
      NullRowsAlike(a[1..], b[1..]);
    }
  }

  /** Null keys of a join: those of the left side plus those of the right side. */
  lemma JoinedNullRows(left: Table, right: Table, shared: seq<string>)
    requires UniqueKeys(right.rows)
    requires BenId in left.columns && BenId !in shared && BenId !in Added(left.columns, right.columns)
    ensures NullRows(Joined(left, right, shared).rows) == NullRows(left.rows) + NullRows(right.rows)
  {
    var added := Added(left.columns, right.columns);
    JoinedRows(left, right, shared);
    var a := LeftOuts(left.rows, right.rows, shared, added);
    var unmatched := r => Unmatched(r, left.rows);
    var k := Keep(right.rows, unmatched);
    var b := RightRest(right.rows, left.rows, left.columns, shared, added);
    KeepConcat(a, b, NullKey);
    forall i | 0 <= i < |a| ensures Key(left.rows[i]) == Key(a[i]) {
      KeyLeftOut(left.rows[i], right.rows, shared, added);
    }
    NullRowsAlike(left.rows, a);
    forall i | 0 <= i < |k| ensures Key(k[i]) == Key(b[i]) {
      KeyRightOnly(k[i], left.columns, shared, added);
    }
    NullRowsAlike(k, b);
    var both := r => Unmatched(r, left.rows) && NullKey(r);
    KeepKeep(right.rows, unmatched, NullKey, both);
    KeepCongruent(right.rows, both, NullKey);
  }

  /** How many rows without `ben_id` the first `k` departments hold together. */
  function NullRowsUpTo(files: Dict<string, Table>, k: nat): nat
    requires k <= |files|
  {
    if k == 0 then 0 else NullRowsUpTo(files, k - 1) + NullRows(files[k - 1].1.rows)
  }

  /** Every row without `ben_id` of the first `k` departments stays a row of its own. */
  lemma {:induction false} NullRowsMerged(files: Dict<string, Table>, shared: seq<string>, k: nat)
    requires 1 <= k <= |files| && Inputs(files) && Layout(files, shared, k)
    ensures NullRows(MergeUpTo(files, shared, k).rows) == NullRowsUpTo(files, k)
  {
    var (abbr, t) := files[k - 1];
    var right := Renamed(abbr, t, shared);
    LayoutPrefix(files, shared, k);
    forall i | 0 <= i < |t.rows| ensures Key(t.rows[i]) == Key(right.rows[i]) {
      RenameRowValues(abbr, t.rows[i], t.columns, shared);
    }
    NullRowsAlike(t.rows, right.rows);
    if k > 1 {
      NullRowsMerged(files, shared, k - 1);
      MergeInvariant(files, shared, k - 1);
      StepAdded(files, shared, k);
      RenamedShape(abbr, t, shared);
      JoinedNullRows(MergeUpTo(files, shared, k - 1), right, shared);
    }
  }

  /** The merged table has exactly as many rows without `ben_id` as all departments together. */
  lemma NoBeneficiaryRowsKept(files: Dict<string, Table>)
    requires MergeInput(files)
    ensures NullRows(Merged(files).rows) == NullRowsUpTo(files, |files|)
  {
    FinalSelectKeeps(files);
    NullRowsMerged(files, SharedColumns(files), |files|);
  }

  // ---------------------------------------------------------------------------
  // Where the merge preconditions come from.

  /** An element counted at most once in a sequence does not recur later in it. */
  lemma CountedOnce<T>(s: seq<T>, i: nat, j: nat)
    requires i < j < |s| && multiset(s)[s[i]] <= 1
    ensures s[i] != s[j]
  {
    assert s == s[..j] + s[j..];
    assert s[i] in s[..j];
    assert s[j..][0] == s[j];
    assert multiset(s) == multiset(s[..j]) + multiset(s[j..]);
  }

  /**
   * A table in which no `ben_id` occurs twice, as `remove_duplicate_ben_ids`
   * leaves every keyed table, has unique keys.
   */
  lemma UniqueKeysOfOccurrences(t: Table)
    requires Keyed(t) && forall b :: Occurrences(t, b) <= 1
    ensures UniqueKeys(t.rows)
  {
    var col := Column(t.rows, BenId);
    forall i, j | 0 <= i < j < |t.rows| && Key(t.rows[i]).Some?
      ensures Key(t.rows[i]) != Key(t.rows[j])
    {
      assert t.rows[i] in t.rows && t.rows[j] in t.rows;
      ColumnAt(t.rows, BenId, i);
      ColumnAt(t.rows, BenId, j);
      assert Occurrences(t, col[i]) <= 1;
      CountedOnce(col, i, j);
    }
  }

  /** The first underscore of a prefixed name ends an abbreviation without one. */
  lemma UnderscoreAt(abbr: string, c: string)
    requires '_' !in abbr
    ensures IndexOf(Prefixed(abbr, c), '_') == |abbr|
  {
    var x := Prefixed(abbr, c);
    assert x[|abbr|] == '_';
    assert forall i :: 0 <= i < |abbr| ==> x[i] == abbr[i];
  }

  /** Different abbreviations without an underscore never produce the same prefixed name. */
  lemma PrefixedDistinct(a1: string, c1: string, a2: string, c2: string)
    requires '_' !in a1 && '_' !in a2 && a1 != a2
    ensures Prefixed(a1, c1) != Prefixed(a2, c2)
  {
    var x1 := Prefixed(a1, c1);
    var x2 := Prefixed(a2, c2);
    UnderscoreAt(a1, c1);
    UnderscoreAt(a2, c2);
    if |a1| == |a2| {
      assert x1[..|a1|] == a1 && x2[..|a2|] == a2;
    }
  }

  /** Every renamed name of the first `k` departments belongs to one of them. */
  lemma {:induction false} SpecificUpToOrigin(files: Dict<string, Table>, shared: seq<string>, k: nat, x: string)
    returns (j: nat)
    requires k <= |files| && x in SpecificUpTo(files, shared, k)
    ensures j < k && x in Specific(files[j].0, files[j].1.columns, shared)
  {
    if x in Specific(files[k - 1].0, files[k - 1].1.columns, shared) {
      j := k - 1;
    } else {
      j := SpecificUpToOrigin(files, shared, k - 1, x);
    }
  }

  /**
   * Distinct abbreviations without an underscore give every department's
   * renamed columns distinct names.
   */
  lemma {:induction false} RenamedNamesDistinct(files: Dict<string, Table>, shared: seq<string>, k: nat)
    requires k <= |files| && IsDict(files)
    requires forall j :: 0 <= j < |files| ==> '_' !in files[j].0 && NoDup(files[j].1.columns)
    ensures NoDup(SpecificUpTo(files, shared, k))
  {
    if k > 0 {
      RenamedNamesDistinct(files, shared, k - 1);
      var (abbr, t) := files[k - 1];
      var a := SpecificUpTo(files, shared, k - 1);
      var s := Specific(abbr, t.columns, shared);
      SpecificSpec(abbr, t.columns, shared);
      forall x | x in a ensures x !in s {
        var j := SpecificUpToOrigin(files, shared, k - 1, x);
        SpecificSpec(files[j].0, files[j].1.columns, shared);
        var c :| c in files[j].1.columns && c !in shared && c != BenId && x == Prefixed(files[j].0, c);
        assert Keys(files)[j] != Keys(files)[k - 1];
        forall c' | c' in t.columns ensures x != Prefixed(abbr, c') {
          PrefixedDistinct(files[j].0, c, abbr, c');
        }
      }
      NoDupConcat(a, s);
    }
  }

  /**
   * Step 1 of `merge_department_data`: intersect the column sets of all
   * departments, drop `ben_id` and sort.
   */
  method CommonColumns(files: Dict<string, Table>) returns (shared: seq<string>)
    requires |files| > 0 && NoDup(files[0].1.columns)
    ensures shared == SharedColumns(files)
  {
    var candidates := files[0].1.columns;
    var i := 1;
    while i < |files|
      invariant 1 <= i <= |files|
      invariant NoDup(candidates)
      invariant forall c :: c in candidates <==> forall j :: 0 <= j < i ==> c in files[j].1.columns
    {
      var cols := files[i].1.columns;
      candidates := Keep(candidates, c => c in cols);
      i := i + 1;
    }
    shared := Sort(Keep(candidates, c => c != BenId));
    SortedListingUnique(shared, SharedColumns(files));
  }

  /**
   * Step 2 of `merge_department_data`: rename and select each department's
   * columns and outer-join it onto the merged table, extending the column
   * order tracker with the department's new renamed columns.
   */
  method JoinDepartments(files: Dict<string, Table>, shared: seq<string>) returns (m: Table, order: seq<string>)
    requires |files| > 0
    ensures m == MergeUpTo(files, shared, |files|)
    ensures order == OrderUpTo(files, shared, |files|)
  {
    var acc: Option<Table> := None;
    order := [BenId] + shared;
    var k := 0;
    while k < |files|
      invariant 0 <= k <= |files|
      invariant order == OrderUpTo(files, shared, k)
      invariant k == 0 <==> acc.None?
      invariant k > 0 ==> acc == Some(MergeUpTo(files, shared, k))
    {
      var (abbr, t) := files[k];
      var part := Renamed(abbr, t, shared);
      order := order + NewNames(order, Specific(abbr, t.columns, shared));
      if acc.None? {
        acc := Some(part);
      } else {
        acc := Some(Joined(acc.value, part, shared));
      }
      k := k + 1;
    }
    m := acc.value;
  }

  /**
   * `merge_department_data`: the shared columns, the joined departments, and
   * the final selection of the merged columns in the tracked order.
   */
  method MergeDepartmentData(files: Dict<string, Table>) returns (merged: Table)
    requires MergeInput(files)
    ensures merged == Merged(files)
  {
    var shared := CommonColumns(files);
    var m, order := JoinDepartments(files, shared);
    MergeInvariant(files, shared, |files|);
    OrderIsLayout(files, shared, |files|);
    KeepAll(order, c => c in m.columns);
    merged := Select(m, Present(order, m.columns));
  }
}
