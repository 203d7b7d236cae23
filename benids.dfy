/**
 * The `ben_id` checks on the split department tables:
 * `check_ben_id_uniqueness` reports every `ben_id` that occurs more than
 * once in a department table, and `remove_duplicate_ben_ids` reads that
 * report back, resolves each department through the reverse department
 * mapping and removes every row carrying a reported `ben_id`.
 */
module BenIds {
  import opened Wrappers
  import opened Collections
  import opened Dicts
  import opened Tables
  import opened Departments
  import opened DeptLookup

  /** The beneficiary key column. */
  const BenId: string := "ben_id"

  /** Every department table is well formed. */
  ghost predicate AllWellFormed(files: Dict<string, Table>) {
    forall j :: 0 <= j < |files| ==> WellFormed(files[j].1)
  }

  /** The table has a `ben_id` column and every row a `ben_id` cell. */
  ghost predicate Keyed(t: Table) {
    BenId in t.columns && forall r :: r in t.rows ==> BenId in r
  }

  /** A well-formed table with a `ben_id` column is keyed. */
  lemma KeyedOf(t: Table)
    requires WellFormed(t) && BenId in t.columns
    ensures Keyed(t)
  {
    forall r | r in t.rows ensures BenId in r {
      RowFits(t, r);
    }
  }

  /** How many rows of the table carry the `ben_id` cell `b`. */
  ghost function Occurrences(t: Table, b: Cell): nat
    requires Keyed(t)
  {
    multiset(Column(t.rows, BenId))[b]
  }

  // ---------------------------------------------------------------------------
  // `check_ben_id_uniqueness`

  /** One row of the duplicate `ben_id` report. */
  datatype ReportEntry = ReportEntry(department: string, benId: Cell, occurrences: nat)

  /** The report rows of a list of duplicate groups, under one department. */
  function Entries(abbr: string, g: seq<Group<Cell>>): (rep: seq<ReportEntry>)
    ensures |rep| == |g|
  {
    if g == [] then [] else [ReportEntry(abbr, g[0].value, g[0].occurrences)] + Entries(abbr, g[1..])
  }

  /** The `i`-th report row is the `i`-th group under the department's abbreviation. */
  lemma {:induction false} EntriesAt(abbr: string, g: seq<Group<Cell>>, i: nat)
    requires i < |g|
    ensures Entries(abbr, g)[i] == ReportEntry(abbr, g[i].value, g[i].occurrences)
  {
    if i > 0 {
      EntriesAt(abbr, g[1..], i - 1);
    }
  }

  /**
   * The report rows of one department table: `group_by("ben_id")`, counted,
   * filtered to the counts above one. A table without a `ben_id` column is
   * skipped.
   */
  function FileReport(abbr: string, t: Table): (rep: seq<ReportEntry>)
    requires WellFormed(t)
    ensures BenId !in t.columns ==> rep == []
  {
    if BenId !in t.columns then []
    else
      KeyedOf(t);
      Entries(abbr, DuplicateGroups(Column(t.rows, BenId)))
  }

  /** Every report row of a table names a `ben_id` that occurs in it more than once, with its count. */
  lemma FileReportSound(abbr: string, t: Table, e: ReportEntry)
    requires WellFormed(t) && e in FileReport(abbr, t)
    ensures BenId in t.columns && Keyed(t)
    ensures e.department == abbr && e.occurrences == Occurrences(t, e.benId) > 1
  {
    KeyedOf(t);
    var col := Column(t.rows, BenId);
    var g := DuplicateGroups(col);
    var rep := FileReport(abbr, t);
    var i :| 0 <= i < |rep| && rep[i] == e;
    EntriesAt(abbr, g, i);
    DuplicateGroupsSpec(col);
  }

  /** A `ben_id` occurring more than once in a table with a `ben_id` column is reported, with its count. */
  lemma FileReportComplete(abbr: string, t: Table, b: Cell)
    requires WellFormed(t) && BenId in t.columns
    ensures Keyed(t)
    ensures Occurrences(t, b) > 1 <==> ReportEntry(abbr, b, Occurrences(t, b)) in FileReport(abbr, t)
  {
    KeyedOf(t);
    var col := Column(t.rows, BenId);
    var g := DuplicateGroups(col);
    var rep := FileReport(abbr, t);
    if Occurrences(t, b) > 1 {
      DuplicateGroupsSpec(col);
      assert b in GroupValues(g);
      var i :| 0 <= i < |g| && GroupValues(g)[i] == b;
      EntriesAt(abbr, g, i);
    }
    if ReportEntry(abbr, b, Occurrences(t, b)) in rep {
      FileReportSound(abbr, t, ReportEntry(abbr, b, Occurrences(t, b)));
    }
  }

  /** No `ben_id` is reported twice for a table. */
  lemma FileReportOnce(abbr: string, t: Table)
    requires WellFormed(t)
    ensures NoDup(FileReport(abbr, t))
  {
    if BenId in t.columns {
      KeyedOf(t);
      var col := Column(t.rows, BenId);
      var g := DuplicateGroups(col);
      var rep := FileReport(abbr, t);
      DuplicateGroupsSpec(col);
      forall i, j | 0 <= i < j < |rep| ensures rep[i] != rep[j] {
        EntriesAt(abbr, g, i);
        EntriesAt(abbr, g, j);
        assert GroupValues(g)[i] != GroupValues(g)[j];
      }
    }
  }

  /** The report rows of the first `n` department tables, table by table. */
  function ReportParts(files: Dict<string, Table>, n: nat): (parts: seq<seq<ReportEntry>>)
    requires AllWellFormed(files) && n <= |files|
    ensures |parts| == n
  {
    if n == 0 then [] else ReportParts(files, n - 1) + [FileReport(files[n - 1].0, files[n - 1].1)]
  }

  /** The part of a department table is its report. */
  lemma {:induction false} ReportPartAt(files: Dict<string, Table>, n: nat, j: nat)
    requires AllWellFormed(files) && j < n <= |files|
    ensures ReportParts(files, n)[j] == FileReport(files[j].0, files[j].1)
  {
    if j < n - 1 {
      assert ReportParts(files, n)[j] == ReportParts(files, n - 1)[j];
      ReportPartAt(files, n - 1, j);
    }
  }

  /**
   * `duplicate_reports` once every department table has been visited in
   * dictionary order: each table's report rows, one table after the other.
   */
  function UniquenessReport(files: Dict<string, Table>): (rep: seq<ReportEntry>)
    requires AllWellFormed(files)
    ensures |files| == 0 ==> rep == []
  {
    ConcatUpTo(ReportParts(files, |files|), |files|)
  }

  /** `reports` holds the report rows of the first `i` department tables. */
  ghost predicate Reported(files: Dict<string, Table>, i: nat, reports: seq<ReportEntry>) {
    AllWellFormed(files) && i <= |files| && reports == ConcatUpTo(ReportParts(files, |files|), i)
  }

  /**
   * `check_ben_id_uniqueness`, with the report returned instead of written:
   * the department tables are visited in dictionary order and each one's
   * duplicated `ben_id`s are appended.
   */
  method CheckBenIdUniqueness(files: Dict<string, Table>) returns (reports: seq<ReportEntry>)
    requires AllWellFormed(files)
    ensures reports == UniquenessReport(files)
  {
    reports := [];
    var i := 0;
    while i < |files|
      invariant Reported(files, i, reports)
    {
      var (abbr, t) := files[i];
      ReportStep(files, i, reports);
      if BenId in t.columns {
        reports := reports + FileReport(abbr, t);
      }
      i := i + 1;
    }
  }

  /**
   * Visiting one more department table appends its report rows; a table
   * without a `ben_id` column adds none.
   */
  lemma ReportStep(files: Dict<string, Table>, i: nat, reports: seq<ReportEntry>)
    requires Reported(files, i, reports) && i < |files|
    ensures BenId in files[i].1.columns ==> Reported(files, i + 1, reports + FileReport(files[i].0, files[i].1))
    ensures BenId !in files[i].1.columns ==> Reported(files, i + 1, reports)
  {
    ReportPartAt(files, |files|, i);
    if BenId !in files[i].1.columns {
      assert reports + [] == reports;
    }
  }

  /** Every report row comes from the report of one of the department tables. */
  lemma ReportOrigin(files: Dict<string, Table>, e: ReportEntry) returns (j: nat)
    requires AllWellFormed(files) && e in UniquenessReport(files)
    ensures j < |files| && e in FileReport(files[j].0, files[j].1)
  {
    var parts := ReportParts(files, |files|);
    j := ConcatOrigin(parts, |files|, e);
    ReportPartAt(files, |files|, j);
  }

  /** Every report row of a department table is in the whole report. */
  lemma ReportHas(files: Dict<string, Table>, j: nat, e: ReportEntry)
    requires AllWellFormed(files) && j < |files| && e in FileReport(files[j].0, files[j].1)
    ensures e in UniquenessReport(files)
  {
    var parts := ReportParts(files, |files|);
    ReportPartAt(files, |files|, j);
    ConcatHas(parts, |files|, j, e);
  }

  /**
   * The report names, under a department's abbreviation, exactly the
   * `ben_id`s that occur more than once in that department's table, each
   * with its count.
   */
  lemma ReportExact(files: Dict<string, Table>, j: nat, b: Cell)
    requires AllWellFormed(files) && j < |files| && BenId in files[j].1.columns
    ensures Keyed(files[j].1)
    ensures Occurrences(files[j].1, b) > 1 <==>
      ReportEntry(files[j].0, b, Occurrences(files[j].1, b)) in UniquenessReport(files)
  {
    var (abbr, t) := files[j];
    var e := ReportEntry(abbr, b, Occurrences(t, b));
    FileReportComplete(abbr, t, b);
    if Occurrences(t, b) > 1 {
      ReportHas(files, j, e);
    }
    if e in UniquenessReport(files) {
      var k := ReportOrigin(files, e);
      FileReportSound(files[k].0, files[k].1, e);
    }
  }

  /**
   * Every report row names a department of the dictionary and a `ben_id`
   * occurring more than once in its table, with its count; a table without a
   * `ben_id` column is never named.
   */
  lemma ReportSound(files: Dict<string, Table>, e: ReportEntry) returns (j: nat)
    requires AllWellFormed(files) && e in UniquenessReport(files)
    ensures j < |files| && e.department == files[j].0 && BenId in files[j].1.columns
    ensures Keyed(files[j].1) && e.occurrences == Occurrences(files[j].1, e.benId) > 1
  {
    j := ReportOrigin(files, e);
    FileReportSound(files[j].0, files[j].1, e);
  }

  /** No `ben_id` is reported twice for the same department. */
  lemma ReportOnce(files: Dict<string, Table>)
    requires AllWellFormed(files) && IsDict(files)
    ensures NoDup(UniquenessReport(files))
  {
    var parts := ReportParts(files, |files|);
    forall j | 0 <= j < |parts| ensures NoDup(parts[j]) {
      ReportPartAt(files, |files|, j);
      FileReportOnce(files[j].0, files[j].1);
    }
    forall j, k | 0 <= j < k < |parts| ensures Disjoint(parts[j], parts[k]) {
      assert Keys(files)[j] != Keys(files)[k];
      ReportPartAt(files, |files|, j);
      ReportPartAt(files, |files|, k);
      forall e | e in parts[j] ensures e !in parts[k] {
        FileReportSound(files[j].0, files[j].1, e);
        if e in parts[k] {
          FileReportSound(files[k].0, files[k].1, e);
        }
      }
    }
    ConcatNoDup(parts, |files|);
  }

  // ---------------------------------------------------------------------------
  // `remove_duplicate_ben_ids`: grouping the report by department.

  /**
   * One report row added to `dept_ben_ids`: a department that resolves to an
   * abbreviation collects the row's `ben_id` under it; one that resolves to
   * nothing is skipped.
   */
  function AddReported(rev: map<string, string>, ids: map<string, set<Cell>>, e: ReportEntry): (out: map<string, set<Cell>>)
    ensures Lookup(rev, e.department).None? ==> out == ids
    ensures Lookup(rev, e.department).Some? ==>
      var a := Lookup(rev, e.department).value;
      a in out && out[a] == (if a in ids then ids[a] else {}) + {e.benId} &&
      forall x :: x != a ==> (x in out <==> x in ids) && (x in ids ==> out[x] == ids[x])
  {
    match Lookup(rev, e.department)
    case None => ids
    case Some(a) => ids[a := (if a in ids then ids[a] else {}) + {e.benId}]
  }

  /** `dept_ben_ids` once the first `n` report rows have been added, in order. */
  function BenIdsUpTo(rev: map<string, string>, rep: seq<ReportEntry>, n: nat): map<string, set<Cell>>
    requires n <= |rep|
  {
    if n == 0 then map[] else AddReported(rev, BenIdsUpTo(rev, rep, n - 1), rep[n - 1])
  }

  /** `dept_ben_ids` built from the whole report. */
  function BenIdsByDept(rev: map<string, string>, rep: seq<ReportEntry>): map<string, set<Cell>> {
    BenIdsUpTo(rev, rep, |rep|)
  }

  /** A report row among the first `n` whose department resolves has its `ben_id` collected under the abbreviation. */
  lemma {:induction false} BenIdsUpToHas(rev: map<string, string>, rep: seq<ReportEntry>, n: nat, k: nat)
    requires k < n <= |rep| && Lookup(rev, rep[k].department).Some?
    ensures Lookup(rev, rep[k].department).value in BenIdsUpTo(rev, rep, n)
    ensures rep[k].benId in BenIdsUpTo(rev, rep, n)[Lookup(rev, rep[k].department).value]
  {
    if k < n - 1 {
      BenIdsUpToHas(rev, rep, n - 1, k);
    }
  }

  /** Every `ben_id` collected from the first `n` report rows comes from one of them, resolving to its abbreviation. */
  lemma {:induction false} BenIdsUpToOrigin(rev: map<string, string>, rep: seq<ReportEntry>, n: nat, a: string, b: Cell) returns (k: nat)
    requires n <= |rep| && a in BenIdsUpTo(rev, rep, n) && b in BenIdsUpTo(rev, rep, n)[a]
    ensures k < n && Lookup(rev, rep[k].department) == Some(a) && rep[k].benId == b
  {
    var e := rep[n - 1];
    if Lookup(rev, e.department) == Some(a) && e.benId == b {
      k := n - 1;
    } else {
      k := BenIdsUpToOrigin(rev, rep, n - 1, a, b);
    }
  }

  /**
   * An abbreviation collects a `ben_id` exactly when some report row with that
   * `ben_id` names a department that resolves to the abbreviation.
   */
  lemma BenIdsByDeptExact(rev: map<string, string>, rep: seq<ReportEntry>, a: string, b: Cell)
    ensures (a in BenIdsByDept(rev, rep) && b in BenIdsByDept(rev, rep)[a]) <==>
      exists e :: e in rep && Lookup(rev, e.department) == Some(a) && e.benId == b
  {
    if a in BenIdsByDept(rev, rep) && b in BenIdsByDept(rev, rep)[a] {
      var k := BenIdsUpToOrigin(rev, rep, |rep|, a, b);
      assert rep[k] in rep;
    }
    if exists e :: e in rep && Lookup(rev, e.department) == Some(a) && e.benId == b {
      var e :| e in rep && Lookup(rev, e.department) == Some(a) && e.benId == b;
      var k :| 0 <= k < |rep| && rep[k] == e;
      BenIdsUpToHas(rev, rep, |rep|, k);
    }
  }

  /** After `n` report rows, every abbreviation collected has a non-empty set and some row resolving to it. */
  lemma {:induction false} BenIdsUpToKeys(rev: map<string, string>, rep: seq<ReportEntry>, n: nat, a: string)
    requires n <= |rep| && a in BenIdsUpTo(rev, rep, n)
    ensures BenIdsUpTo(rev, rep, n)[a] != {}
    ensures exists k :: 0 <= k < n && Lookup(rev, rep[k].department) == Some(a)
  {
    var e := rep[n - 1];
    if Lookup(rev, e.department) != Some(a) {
      BenIdsUpToKeys(rev, rep, n - 1, a);
      var k :| 0 <= k < n - 1 && Lookup(rev, rep[k].department) == Some(a);
      assert 0 <= k < n;
    } else {
      assert 0 <= n - 1 < n && Lookup(rev, rep[n - 1].department) == Some(a);
    }
  }

  /** Only abbreviations some report row resolves to are collected, and never with an empty set. */
  lemma BenIdsByDeptKeys(rev: map<string, string>, rep: seq<ReportEntry>, a: string)
    requires a in BenIdsByDept(rev, rep)
    ensures BenIdsByDept(rev, rep)[a] != {}
    ensures exists e :: e in rep && Lookup(rev, e.department) == Some(a)
  {
    BenIdsUpToKeys(rev, rep, |rep|, a);
    var k :| 0 <= k < |rep| && Lookup(rev, rep[k].department) == Some(a);
    assert rep[k] in rep;
  }

  /**
   * The loop that fills `dept_ben_ids` from the report rows, resolving each
   * department by its stripped, lower-cased name.
   */
  method GroupReport(rev: map<string, string>, rep: seq<ReportEntry>) returns (ids: map<string, set<Cell>>)
    ensures ids == BenIdsByDept(rev, rep)
  {
    ids := map[];
    var i := 0;
    while i < |rep|
      invariant 0 <= i <= |rep|
      invariant ids == BenIdsUpTo(rev, rep, i)
    {
      var row := rep[i];
      ghost var next := AddReported(rev, ids, row);
      var matched := Lookup(rev, row.department);
      if matched.Some? {
        var a := matched.value;
        if a !in ids {
          ids := ids[a := {}];
        }
        ids := ids[a := ids[a] + {row.benId}];
      }
      assert ids == next;
      i := i + 1;
    }
  }

  // ---------------------------------------------------------------------------
  // `remove_duplicate_ben_ids`: cleaning each department.

  /** The row's `ben_id` is not one of `ids`. */
  predicate NotReported(r: Row, ids: set<Cell>) {
    BenId !in r || r[BenId] !in ids
  }

  /** `df.filter(~pl.col("ben_id").is_in(ben_ids))`. */
  function WithoutIds(t: Table, ids: set<Cell>): (s: Table)
    ensures s.columns == t.columns && SubSeq(s.rows, t.rows)
    ensures forall r :: r in s.rows <==> r in t.rows && NotReported(r, ids)
    ensures WellFormed(t) ==> WellFormed(s)
  {
    Filter(t, r => NotReported(r, ids))
  }

  /**
   * What happens to one department with reported `ben_id`s: nothing when it
   * has no table or its table has no `ben_id` column (the source logs the
   * failure and moves on) or when no row is removed; otherwise the cleaned table.
   */
  function CleanDepartment(files: Dict<string, Table>, a: string, ids: set<Cell>): (c: Option<Table>)
    ensures c.Some? ==>
      && Get(files, a).Some? && BenId in Get(files, a).value.columns
      && c.value == WithoutIds(Get(files, a).value, ids)
      && |c.value.rows| < |Get(files, a).value.rows|
    ensures c.None? && Get(files, a).Some? && BenId in Get(files, a).value.columns ==>
      |WithoutIds(Get(files, a).value, ids).rows| == |Get(files, a).value.rows|
  {
    match Get(files, a)
    case None => None
    case Some(t) =>
      if BenId !in t.columns then None
      else
        var cleaned := WithoutIds(t, ids);
        if |t.rows| - |cleaned.rows| > 0 then Some(cleaned) else None
  }

  /** `cleaned_dfs` once every department of `ids` has been processed. */
  function CleanedOn(files: Dict<string, Table>, ids: map<string, set<Cell>>): map<string, Table> {
    map a | a in ids && CleanDepartment(files, a, ids[a]).Some? :: CleanDepartment(files, a, ids[a]).value
  }

  /** `cleaned_dfs` once the departments outside `todo` have been processed. */
  ghost predicate CleanedSoFar(files: Dict<string, Table>, ids: map<string, set<Cell>>, todo: set<string>, m: map<string, Table>) {
    && (forall a :: a in m <==> a in ids && a !in todo && CleanDepartment(files, a, ids[a]).Some?)
    && (forall a :: a in m ==> a in ids && m[a] == CleanDepartment(files, a, ids[a]).value)
  }

  /** Two maps with the same keys and the same value at each are equal. */
  lemma MapsAgree<K, V>(m: map<K, V>, c: map<K, V>)
    requires forall k :: k in m <==> k in c
    requires forall k :: k in m ==> m[k] == c[k]
    ensures m == c
  {
  }

  /** Once nothing is left to do, the map built so far is `CleanedOn`. */
  lemma CleanedSoFarDone(files: Dict<string, Table>, ids: map<string, set<Cell>>, m: map<string, Table>)
    requires CleanedSoFar(files, ids, {}, m)
    ensures m == CleanedOn(files, ids)
  {
    MapsAgree(m, CleanedOn(files, ids));
  }

  /**
   * The loop over `dept_ben_ids`: each department's table loses every row
   * whose `ben_id` was reported for it, and is kept only when it lost rows.
   */
  method CleanDepartments(files: Dict<string, Table>, ids: map<string, set<Cell>>) returns (cleaned: map<string, Table>)
    ensures cleaned == CleanedOn(files, ids)
  {
    cleaned := map[];
    var todo := ids.Keys;
    while todo != {}
      invariant todo <= ids.Keys
      invariant CleanedSoFar(files, ids, todo, cleaned)
      decreases todo
    {
      var a :| a in todo;
      var t := Get(files, a);
      if t.Some? && BenId in t.value.columns {
        var c := WithoutIds(t.value, ids[a]);
        if |t.value.rows| - |c.rows| > 0 {
          cleaned := cleaned[a := c];
        }
      }
      todo := todo - {a};
    }
    CleanedSoFarDone(files, ids, cleaned);
  }

  /**
   * `remove_duplicate_ben_ids`, with the report passed in (`None` when no
   * report file exists): an empty result without a report; otherwise the
   * reverse mapping, the report grouped by department, and the cleaned
   * tables of the departments that lost rows.
   */
  method RemoveDuplicateBenIds(files: Dict<string, Table>, report: Option<seq<ReportEntry>>, depts: seq<DeptEntry>)
    returns (cleaned: map<string, Table>)
    ensures report.None? ==> cleaned == map[]
    ensures report.Some? ==> cleaned == CleanedOn(files, BenIdsByDept(ReverseMapping(depts), report.value))
  {
    if report.None? {
      return map[];
    }
    var rev := ReverseDeptMapping(depts);
    var ids := GroupReport(rev, report.value);
    cleaned := CleanDepartments(files, ids);
  }

  // ---------------------------------------------------------------------------
  // What cleaning does to the `ben_id` counts.

  /** The `ben_id` column of the rows kept by `WithoutIds`. */
  lemma {:induction false} WithoutIdsColumn(rows: seq<Row>, ids: set<Cell>, b: Cell)
    requires forall r :: r in rows ==> BenId in r
    ensures forall r :: r in Keep(rows, r => NotReported(r, ids)) ==> BenId in r
    ensures multiset(Column(Keep(rows, r => NotReported(r, ids)), BenId))[b] ==
      if b in ids then 0 else multiset(Column(rows, BenId))[b]
  {
    if rows != [] {
      var rest := rows[1..];
      WithoutIdsColumn(rest, ids, b);
      assert Column(rows, BenId) == [rows[0][BenId]] + Column(rest, BenId);
      var kept := Keep(rows, r => NotReported(r, ids));
      if NotReported(rows[0], ids) {
        assert kept == [rows[0]] + Keep(rest, r => NotReported(r, ids));
        assert Column(kept, BenId) == [rows[0][BenId]] + Column(Keep(rest, r => NotReported(r, ids)), BenId);
      }
    }
  }

  /**
   * After `WithoutIds` a reported `ben_id` no longer occurs at all, and every
   * other one occurs as often as before.
   */
  lemma WithoutIdsOccurrences(t: Table, ids: set<Cell>, b: Cell)
    requires Keyed(t)
    ensures Keyed(WithoutIds(t, ids))
    ensures Occurrences(WithoutIds(t, ids), b) == if b in ids then 0 else Occurrences(t, b)
  {
    WithoutIdsColumn(t.rows, ids, b);
  }

  /** A filter keeps every element exactly when every element satisfies the condition. */
  lemma {:induction false} KeepKeepsAll<T(!new)>(s: seq<T>, p: T -> bool)
    ensures |Keep(s, p)| == |s| <==> forall x :: x in s ==> p(x)
  {
    if s != [] {
      KeepKeepsAll(s[1..], p);
      assert forall x :: x in s <==> x == s[0] || x in s[1..];
    }
  }

  /**
   * A department is cleaned exactly when it has a table with a `ben_id`
   * column and some row of it carries one of the department's reported
   * `ben_id`s; its cleaned table holds exactly the rows whose `ben_id` was
   * not reported, in their order, so no occurrence of a reported `ben_id` is kept.
   */
  lemma CleanedExact(files: Dict<string, Table>, ids: map<string, set<Cell>>, a: string)
    ensures a in CleanedOn(files, ids) <==>
      && a in ids && Get(files, a).Some? && BenId in Get(files, a).value.columns
      && exists r :: r in Get(files, a).value.rows && !NotReported(r, ids[a])
    ensures a in CleanedOn(files, ids) ==>
      && CleanedOn(files, ids)[a].columns == Get(files, a).value.columns
      && SubSeq(CleanedOn(files, ids)[a].rows, Get(files, a).value.rows)
      && forall r :: r in CleanedOn(files, ids)[a].rows <==> r in Get(files, a).value.rows && NotReported(r, ids[a])
  {
    if a in ids && Get(files, a).Some? && BenId in Get(files, a).value.columns {
      KeepKeepsAll(Get(files, a).value.rows, r => NotReported(r, ids[a]));
    }
  }

  /** Without a report file nothing is cleaned. */
  lemma NoReportNoCleaning(files: Dict<string, Table>, depts: seq<DeptEntry>)
    ensures CleanedOn(files, BenIdsByDept(ReverseMapping(depts), [])) == map[]
  {
  }

  // ---------------------------------------------------------------------------
  // The cleaned tables written back over the department files.

  /** The department files after `cleaned_dfs` has been written over them. */
  function WriteBack(files: Dict<string, Table>, cleaned: map<string, Table>): (out: Dict<string, Table>)
    ensures |out| == |files|
    ensures forall j :: 0 <= j < |files| ==> out[j].0 == files[j].0
    ensures forall j :: 0 <= j < |files| ==>
      out[j].1 == if files[j].0 in cleaned then cleaned[files[j].0] else files[j].1
  {
    seq(|files|, j requires 0 <= j < |files| =>
      (files[j].0, if files[j].0 in cleaned then cleaned[files[j].0] else files[j].1))
  }

  /** Every duplicated `ben_id` of every department table is among that department's `ids`. */
  ghost predicate Covers(files: Dict<string, Table>, ids: map<string, set<Cell>>)
    requires AllWellFormed(files)
  {
    forall j, b :: 0 <= j < |files| && BenId in files[j].1.columns && (KeyedOf(files[j].1); Occurrences(files[j].1, b) > 1) ==>
      files[j].0 in ids && b in ids[files[j].0]
  }

  /**
   * When the `ids` cover every duplicate, each department table with a
   * `ben_id` column, once the cleaned tables are written back, holds every
   * `ben_id` at most once.
   */
  lemma CleaningLeavesUniqueIds(files: Dict<string, Table>, ids: map<string, set<Cell>>, j: nat, b: Cell)
    requires AllWellFormed(files) && IsDict(files) && Covers(files, ids)
    requires j < |files| && BenId in files[j].1.columns
    ensures WellFormed(WriteBack(files, CleanedOn(files, ids))[j].1)
    ensures Keyed(WriteBack(files, CleanedOn(files, ids))[j].1)
    ensures Occurrences(WriteBack(files, CleanedOn(files, ids))[j].1, b) <= 1
  {
    var (a, t) := files[j];
    GetAt(files, j);
    KeyedOf(t);
    var cleaned := CleanedOn(files, ids);
    if a in cleaned {
      WithoutIdsOccurrences(t, ids[a], b);
    } else if Occurrences(t, b) > 1 {
      var c := WithoutIds(t, ids[a]);
      WithoutIdsOccurrences(t, ids[a], b);
      var r := ReportedRow(t, b);
      assert !NotReported(r, ids[a]);
      CleanedExact(files, ids, a);
      assert false;
    }
  }

  /** A row carrying a `ben_id` that occurs in the table. */
  lemma ReportedRow(t: Table, b: Cell) returns (r: Row)
    requires Keyed(t) && Occurrences(t, b) > 0
    ensures r in t.rows && BenId in r && r[BenId] == b
  {
    var col := Column(t.rows, BenId);
    assert b in col;
    var i :| 0 <= i < |col| && col[i] == b;
    ColumnAt(t.rows, BenId, i);
    r := t.rows[i];
  }

  /** The report `check_ben_id_uniqueness` writes covers every duplicate under every department abbreviation it files. */
  lemma ReportCovers(files: Dict<string, Table>, rev: map<string, string>)
    requires AllWellFormed(files) && IsDict(files)
    requires forall j :: 0 <= j < |files| ==> Lookup(rev, files[j].0) == Some(files[j].0)
    ensures Covers(files, BenIdsByDept(rev, UniquenessReport(files)))
  {
    var rep := UniquenessReport(files);
    forall j, b | 0 <= j < |files| && BenId in files[j].1.columns && (KeyedOf(files[j].1); Occurrences(files[j].1, b) > 1)
      ensures files[j].0 in BenIdsByDept(rev, rep) && b in BenIdsByDept(rev, rep)[files[j].0]
    {
      ReportExact(files, j, b);
      var e := ReportEntry(files[j].0, b, Occurrences(files[j].1, b));
      assert e in rep && Lookup(rev, e.department) == Some(files[j].0) && e.benId == b;
      BenIdsByDeptExact(rev, rep, files[j].0, b);
    }
  }

  /**
   * The pipeline's use: the report of `check_ben_id_uniqueness` is read back,
   * its department names are resolved through `rev`, and the cleaned tables
   * are written over the files. When `rev` resolves every file's own key to
   * itself, afterwards every file with a `ben_id` column holds each `ben_id`
   * at most once.
   */
  lemma PipelineLeavesUniqueIds(files: Dict<string, Table>, rev: map<string, string>, j: nat, b: Cell)
    requires AllWellFormed(files) && IsDict(files)
    requires forall k :: 0 <= k < |files| ==> Lookup(rev, files[k].0) == Some(files[k].0)
    requires j < |files| && BenId in files[j].1.columns
    ensures var ids := BenIdsByDept(rev, UniquenessReport(files));
      var out := WriteBack(files, CleanedOn(files, ids));
      WellFormed(out[j].1) && Keyed(out[j].1) && Occurrences(out[j].1, b) <= 1
  {
    ReportCovers(files, rev);
    CleaningLeavesUniqueIds(files, BenIdsByDept(rev, UniquenessReport(files)), j, b);
  }

  /**
   * The split files are keyed by abbreviations of `DeptAbbr`, and the
   * reverse mapping of `DeptAbbr` resolves each of them to itself, so
   * `PipelineLeavesUniqueIds` applies with that mapping.
   */
  lemma SplitKeysResolve(files: Dict<string, Table>)
    requires forall k :: 0 <= k < |files| ==> exists i :: 0 <= i < |DeptAbbr| && files[k].0 in DeptAbbr[i].abbrs
    ensures forall k :: 0 <= k < |files| ==> Lookup(ReverseMapping(DeptAbbr), files[k].0) == Some(files[k].0)
  {
    DeptAbbrResolves();
  }
}
