/**
 * The department abbreviation table, the common-column namespace, and the
 * split of the beneficiary table into one table per department
 * (`split_and_save_by_department`).
 */
module Departments {
  import opened Wrappers
  import opened Collections
  import opened Strings
  import opened Dicts
  import opened Tables

  /** A department's full name and its column-prefix abbreviations. */
  datatype DeptEntry = DeptEntry(name: string, abbrs: seq<string>)

  const ScStDepartment: string := "ST & SC Dev Department"

  /** The department abbreviation mapping, in its declared order. */
  const DeptAbbr: seq<DeptEntry> := [
    DeptEntry("Agriculture & FE Department", ["agri"]),
    DeptEntry("Cooperation", ["cooperation"]),
    DeptEntry("E & IT /Telecom", ["eit"]),
    DeptEntry("Energy Department", ["energy"]),
    DeptEntry("Finance Department", ["finance"]),
    DeptEntry("Food Supplies & Consumer welfare Department", ["food"]),
    DeptEntry("Forest & Environment", ["forest"]),
    DeptEntry("Handloom, Textile & Handicraft", ["handloom"]),
    DeptEntry("Health and Family Welfare", ["health"]),
    DeptEntry("Higher Education", ["higheredu"]),
    DeptEntry("Labour & ESI", ["labour"]),
    DeptEntry("Mission Shakti", ["missionshakti"]),
    DeptEntry("MSME", ["msmy"]),
    DeptEntry("Odia language, Literature & Culture", ["odia"]),
    DeptEntry("Panchayati Raj & Drinking Water Department", ["prdw"]),
    DeptEntry("Revenue & DM Department", ["revenue"]),
    DeptEntry("School & Mass Education", ["sme"]),
    DeptEntry("Skill Development & Technical Education", ["skill"]),
    DeptEntry("SSEPD", ["ssepd"]),
    DeptEntry(ScStDepartment, ["scst", "scste"]),
    DeptEntry("W & CD Department", ["wcd"])
  ]

  /** `dept_prefixes`: every abbreviation of every department. */
  function DeptPrefixes(depts: seq<DeptEntry>): (r: set<string>)
    ensures forall i, a :: 0 <= i < |depts| && a in depts[i].abbrs ==> a in r
    ensures forall a :: a in r ==> exists i :: 0 <= i < |depts| && a in depts[i].abbrs
  {
    set i, a | 0 <= i < |depts| && a in depts[i].abbrs :: a
  }

  /** The column starts with `"{abbr}_"` for one of the abbreviations. */
  predicate HasDeptPrefix(c: string, prefixes: set<string>) {
    exists a :: a in prefixes && StartsWith(c, a + "_")
  }

  /**
   * `common_columns`: the columns that carry no department prefix, in the
   * table's own column order.
   */
  function CommonColumns(cols: seq<string>, prefixes: set<string>): (r: seq<string>)
    ensures forall c :: c in r <==> c in cols && !HasDeptPrefix(c, prefixes)
    ensures SubSeq(r, cols)
    ensures NoDup(cols) ==> NoDup(r)
  {
    Keep(cols, c => !HasDeptPrefix(c, prefixes))
  }

  /** The source leaves the choice to `random.choice` only when the list has one element. */
  predicate ChoiceDetermined(e: DeptEntry) {
    e.name == ScStDepartment || |e.abbrs| == 1
  }

  /** `chosen_abbr`: "scst" for ST & SC, otherwise the department's only abbreviation. */
  function ChosenAbbr(e: DeptEntry): (a: string)
    requires ChoiceDetermined(e)
    ensures e.name == ScStDepartment ==> a == "scst"
    ensures e.name != ScStDepartment ==> e.abbrs == [a]
  {
    if e.name == ScStDepartment then "scst" else e.abbrs[0]
  }

  /** The row belongs to the named department (a null department never does). */
  predicate InDepartment(r: Row, deptCol: string, name: string) {
    deptCol in r && r[deptCol] == Some(name)
  }

  /** `dept_df.height > 0`. */
  predicate HasRows(df: Table, deptCol: string, name: string) {
    exists r :: r in df.rows && InDepartment(r, deptCol, name)
  }

  /** What the split needs of the common-column list it is given. */
  predicate CommonFitsDepartment(common: seq<string>, e: DeptEntry)
    requires ChoiceDetermined(e)
  {
    forall c :: c in common ==> !StartsWith(c, ChosenAbbr(e) + "_")
  }

  /** The conditions under which the split is determined and its column selections are valid. */
  ghost predicate SplitInput(df: Table, deptCol: string, depts: seq<DeptEntry>, common: seq<string>) {
    && WellFormed(df) && deptCol in df.columns && NoDup(common)
    && (forall i :: 0 <= i < |depts| ==> ChoiceDetermined(depts[i]))
    && (forall i :: 0 <= i < |depts| ==> CommonFitsDepartment(common, depts[i]))
  }

  /**
   * The columns a department's table keeps: the common columns present in
   * the table, in their given order, then the table's columns carrying the
   * prefix, never the department column.
   */
  function SliceColumnList(df: Table, deptCol: string, common: seq<string>, prefix: string): (cols: seq<string>)
    ensures forall c :: c in cols <==> c in df.columns && c != deptCol && (c in common || StartsWith(c, prefix))
  {
    Keep(common, c => c in df.columns && c != deptCol) +
    Keep(df.columns, c => c != deptCol && StartsWith(c, prefix))
  }

  /**
   * One department's output: its rows without the department column,
   * restricted to the common columns that are present followed by the
   * present columns carrying the department's chosen prefix, with repeated
   * rows removed.
   */
  function DepartmentSlice(df: Table, deptCol: string, e: DeptEntry, common: seq<string>): (s: Table)
    requires WellFormed(df) && deptCol in df.columns && NoDup(common)
    requires ChoiceDetermined(e) && CommonFitsDepartment(common, e)
    ensures WellFormed(s)
    ensures s.columns == SliceColumnList(df, deptCol, common, ChosenAbbr(e) + "_")
  {
    var prefix := ChosenAbbr(e) + "_";
    var filtered := Filter(df, r => InDepartment(r, deptCol, e.name));
    var deptDf := Drop(filtered, deptCol);
    var specific := Keep(deptDf.columns, c => StartsWith(c, prefix));
    var relevant := Keep(common + specific, c => c in deptDf.columns);
    SliceColumns(df, deptCol, common, prefix);
    NoDupConcat(common, specific);
    Unique(Select(deptDf, relevant))
  }

  /**
   * A department's table never has the department column, has exactly the
   * common and chosen-prefix columns present in the table, and its rows are,
   * without repeats, exactly the projections of the department's rows.
   */
  lemma DepartmentSliceSpec(df: Table, deptCol: string, e: DeptEntry, common: seq<string>)
    requires WellFormed(df) && deptCol in df.columns && NoDup(common)
    requires ChoiceDetermined(e) && CommonFitsDepartment(common, e)
    ensures var s := DepartmentSlice(df, deptCol, e, common);
      var cols := SliceColumnList(df, deptCol, common, ChosenAbbr(e) + "_");
      && NoDup(s.rows)
      && (forall r :: r in s.rows ==>
        exists src :: src in df.rows && InDepartment(src, deptCol, e.name) && r == Project(src, cols))
      && (forall src :: src in df.rows && InDepartment(src, deptCol, e.name) ==>
        Project(src, cols) in s.rows)
  {
    var prefix := ChosenAbbr(e) + "_";
    var filtered := Filter(df, r => InDepartment(r, deptCol, e.name));
    var deptDf := Drop(filtered, deptCol);
    var specific := Keep(deptDf.columns, c => StartsWith(c, prefix));
    var relevant := Keep(common + specific, c => c in deptDf.columns);
    SliceColumns(df, deptCol, common, prefix);
    NoDupConcat(common, specific);
    SliceRows(df, filtered, deptCol, e.name, relevant);
  }

  /** The column list `DepartmentSlice` selects. */
  lemma SliceColumns(df: Table, deptCol: string, common: seq<string>, prefix: string)
    requires WellFormed(df)
    ensures
      var dropped := Keep(df.columns, x => x != deptCol);
      var specific := Keep(dropped, c => StartsWith(c, prefix));
      && Keep(common + specific, c => c in dropped) ==
        Keep(common, c => c in df.columns && c != deptCol) +
        Keep(df.columns, c => c != deptCol && StartsWith(c, prefix))
      && specific == Keep(df.columns, c => c != deptCol && StartsWith(c, prefix))
  {
    var dropped := Keep(df.columns, x => x != deptCol);
    var specific := Keep(dropped, c => StartsWith(c, prefix));
    KeepKeep(df.columns, x => x != deptCol, c => StartsWith(c, prefix),
      c => c != deptCol && StartsWith(c, prefix));
    KeepConcat(common, specific, c => c in dropped);
    KeepAll(specific, c => c in dropped);
    KeepCongruent(common, c => c in dropped, c => c in df.columns && c != deptCol);
  }

  /** Dropping a column and then selecting others projects the original rows. */
  lemma DropSelect(t: Table, deptCol: string, relevant: seq<string>)
    requires WellFormed(t) && NoDup(relevant)
    requires forall c :: c in relevant ==> c in t.columns && c != deptCol
    ensures
      var sel := Select(Drop(t, deptCol), relevant);
      && |sel.rows| == |t.rows|
      && forall i :: 0 <= i < |t.rows| ==> sel.rows[i] == Project(t.rows[i], relevant)
  {
    var d := Drop(t, deptCol);
    var sel := Select(d, relevant);
    forall i | 0 <= i < |t.rows| ensures sel.rows[i] == Project(t.rows[i], relevant) {
      assert d.rows[i] == t.rows[i] - {deptCol};
    }
  }

  /** The rows `DepartmentSlice` keeps are the projections of the department's rows. */
  lemma SliceRows(df: Table, filtered: Table, deptCol: string, name: string, relevant: seq<string>)
    requires WellFormed(filtered) && NoDup(relevant)
    requires forall r :: r in filtered.rows <==> r in df.rows && InDepartment(r, deptCol, name)
    requires forall c :: c in relevant ==> c in filtered.columns && c != deptCol
    ensures
      var s := Unique(Select(Drop(filtered, deptCol), relevant));
      && (forall r :: r in s.rows ==>
            exists src :: src in df.rows && InDepartment(src, deptCol, name) && r == Project(src, relevant))
      && (forall src :: src in df.rows && InDepartment(src, deptCol, name) ==> Project(src, relevant) in s.rows)
  {
    DropSelect(filtered, deptCol, relevant);
    var sel := Select(Drop(filtered, deptCol), relevant);
    forall r | r in Unique(sel).rows
      ensures exists src :: src in df.rows && InDepartment(src, deptCol, name) && r == Project(src, relevant)
    {
      var i :| 0 <= i < |sel.rows| && sel.rows[i] == r;
      assert filtered.rows[i] in filtered.rows;
    }
    forall src | src in df.rows && InDepartment(src, deptCol, name)
      ensures Project(src, relevant) in Unique(sel).rows
    {
      var i :| 0 <= i < |filtered.rows| && filtered.rows[i] == src;
      assert sel.rows[i] in sel.rows;
    }
  }

  /** The row's department cell is null. */
  predicate NullDepartment(r: Row, deptCol: string) {
    deptCol in r && r[deptCol].None?
  }

  /** `missing_departments_df`: the rows whose department is null, in order. */
  function MissingDepartments(df: Table, deptCol: string): (m: Table)
    ensures m.columns == df.columns && SubSeq(m.rows, df.rows)
    ensures forall r :: r in m.rows <==> r in df.rows && NullDepartment(r, deptCol)
  {
    Filter(df, r => NullDepartment(r, deptCol))
  }

  /**
   * The dictionary the split returns after visiting `depts` in order: each
   * department with rows stores its slice under its chosen abbreviation.
   */
  function SplitTables(df: Table, deptCol: string, depts: seq<DeptEntry>, common: seq<string>): (d: Dict<string, Table>)
    requires SplitInput(df, deptCol, depts, common)
    ensures IsDict(d)
    decreases |depts|
  {
    if depts == [] then []
    else
      var init := depts[..|depts| - 1];
      var e := depts[|depts| - 1];
      var prev := SplitTables(df, deptCol, init, common);
      if HasRows(df, deptCol, e.name) then Put(prev, ChosenAbbr(e), DepartmentSlice(df, deptCol, e, common))
      else prev
  }

  /**
   * `split_and_save_by_department`, with the tables returned instead of
   * written: the rows with a null department, and the per-department tables
   * keyed by chosen abbreviation in the order they were first stored.
   */
  method SplitByDepartment(df: Table, deptCol: string, depts: seq<DeptEntry>, common: seq<string>)
    returns (missing: Table, files: Dict<string, Table>)
    requires SplitInput(df, deptCol, depts, common)
    ensures missing.columns == df.columns && SubSeq(missing.rows, df.rows)
    ensures forall r :: r in missing.rows <==> r in df.rows && NullDepartment(r, deptCol)
    ensures files == SplitTables(df, deptCol, depts, common)
  {
    missing := MissingDepartments(df, deptCol);
    files := [];
    var i := 0;
    while i < |depts|
      invariant 0 <= i <= |depts|
      invariant files == SplitTables(df, deptCol, depts[..i], common)
    {
      var e := depts[i];
      assert depts[..i + 1][..i] == depts[..i];
      if HasRows(df, deptCol, e.name) {
        var chosen := ChosenAbbr(e);
        files := Put(files, chosen, DepartmentSlice(df, deptCol, e, common));
      }
      i := i + 1;
    }
    assert depts[..|depts|] == depts;
  }

  /** Every key of the split comes from a department with rows whose chosen abbreviation it is. */
  lemma {:induction false} SplitKeyOrigin(df: Table, deptCol: string, depts: seq<DeptEntry>, common: seq<string>, k: string)
    returns (i: nat)
    requires SplitInput(df, deptCol, depts, common)
    requires k in Keys(SplitTables(df, deptCol, depts, common))
    ensures i < |depts| && HasRows(df, deptCol, depts[i].name) && ChosenAbbr(depts[i]) == k
  {
    var init := depts[..|depts| - 1];
    var e := depts[|depts| - 1];
    assert SplitInput(df, deptCol, init, common);
    var prev := SplitTables(df, deptCol, init, common);
    if HasRows(df, deptCol, e.name) && ChosenAbbr(e) == k {
      i := |depts| - 1;
    } else {
      if HasRows(df, deptCol, e.name) {
        assert k in Keys(Put(prev, ChosenAbbr(e), DepartmentSlice(df, deptCol, e, common)));
      }
      assert k in Keys(prev);
      i := SplitKeyOrigin(df, deptCol, init, common, k);
      assert depts[i] == init[i];
    }
  }

  /** Every department with rows gets an entry under its chosen abbreviation. */
  lemma {:induction false} SplitKeyOf(df: Table, deptCol: string, depts: seq<DeptEntry>, common: seq<string>, i: nat)
    requires SplitInput(df, deptCol, depts, common)
    requires i < |depts| && HasRows(df, deptCol, depts[i].name)
    ensures ChosenAbbr(depts[i]) in Keys(SplitTables(df, deptCol, depts, common))
  {
    var init := depts[..|depts| - 1];
    if i < |depts| - 1 {
      assert init[i] == depts[i];
      SplitKeyOf(df, deptCol, init, common, i);
    }
  }

  /** A department gets an entry exactly when it has rows; the key is its chosen abbreviation. */
  lemma SplitKeys(df: Table, deptCol: string, depts: seq<DeptEntry>, common: seq<string>)
    requires SplitInput(df, deptCol, depts, common)
    ensures forall k :: k in Keys(SplitTables(df, deptCol, depts, common)) <==>
      exists i :: 0 <= i < |depts| && HasRows(df, deptCol, depts[i].name) && ChosenAbbr(depts[i]) == k
  {
    forall k ensures k in Keys(SplitTables(df, deptCol, depts, common)) <==>
      exists i :: 0 <= i < |depts| && HasRows(df, deptCol, depts[i].name) && ChosenAbbr(depts[i]) == k
    {
      if k in Keys(SplitTables(df, deptCol, depts, common)) {
        var i := SplitKeyOrigin(df, deptCol, depts, common, k);
      }
      if exists i :: 0 <= i < |depts| && HasRows(df, deptCol, depts[i].name) && ChosenAbbr(depts[i]) == k {
        var i :| 0 <= i < |depts| && HasRows(df, deptCol, depts[i].name) && ChosenAbbr(depts[i]) == k;
        SplitKeyOf(df, deptCol, depts, common, i);
      }
    }
  }

  /**
   * Every stored table is the slice of a department that has rows and whose
   * chosen abbreviation is the key.
   */
  lemma {:induction false} SplitEntryOrigin(df: Table, deptCol: string, depts: seq<DeptEntry>, common: seq<string>,
    k: string, t: Table) returns (i: nat)
    requires SplitInput(df, deptCol, depts, common)
    requires Get(SplitTables(df, deptCol, depts, common), k) == Some(t)
    ensures i < |depts| && HasRows(df, deptCol, depts[i].name) && ChosenAbbr(depts[i]) == k
    ensures t == DepartmentSlice(df, deptCol, depts[i], common)
  {
    var init := depts[..|depts| - 1];
    var e := depts[|depts| - 1];
    assert SplitInput(df, deptCol, init, common);
    var prev := SplitTables(df, deptCol, init, common);
    if HasRows(df, deptCol, e.name) && ChosenAbbr(e) == k {
      assert Get(Put(prev, k, DepartmentSlice(df, deptCol, e, common)), k) == Some(t);
      i := |depts| - 1;
    } else {
      if HasRows(df, deptCol, e.name) {
        assert Get(Put(prev, ChosenAbbr(e), DepartmentSlice(df, deptCol, e, common)), k) == Some(t);
      }
      i := SplitEntryOrigin(df, deptCol, init, common, k, t);
      assert depts[i] == init[i];
    }
  }

  /**
   * When chosen abbreviations are distinct (as in `DeptAbbr`), every
   * department with rows is stored under its abbreviation with its own slice.
   */
  lemma {:induction false} SplitEntryOfDepartment(df: Table, deptCol: string, depts: seq<DeptEntry>, common: seq<string>, i: nat)
    requires SplitInput(df, deptCol, depts, common)
    requires forall j, k :: 0 <= j < k < |depts| ==> ChosenAbbr(depts[j]) != ChosenAbbr(depts[k])
    requires i < |depts| && HasRows(df, deptCol, depts[i].name)
    ensures Get(SplitTables(df, deptCol, depts, common), ChosenAbbr(depts[i])) ==
      Some(DepartmentSlice(df, deptCol, depts[i], common))
  {
    var init := depts[..|depts| - 1];
    if i < |depts| - 1 {
      assert init[i] == depts[i];
      SplitEntryOfDepartment(df, deptCol, init, common, i);
    }
  }

  /** The abbreviation the split chooses for each department, in mapping order. */
  function ChosenAbbrs(depts: seq<DeptEntry>): (r: seq<string>)
    requires forall i :: 0 <= i < |depts| ==> ChoiceDetermined(depts[i])
    ensures |r| == |depts| && forall i :: 0 <= i < |depts| ==> r[i] == ChosenAbbr(depts[i])
  {
    if depts == [] then [] else [ChosenAbbr(depts[0])] + ChosenAbbrs(depts[1..])
  }

  /** Only the ST & SC department lists more than one abbreviation. */
  lemma DeptAbbrDetermined()
    ensures forall i :: 0 <= i < |DeptAbbr| ==> ChoiceDetermined(DeptAbbr[i])
    ensures DeptAbbr[19].name == ScStDepartment
  {
  }

  /** The abbreviations the split chooses for `DeptAbbr`, in mapping order. */
  const DeptChosen: seq<string> := ["agri", "cooperation", "eit", "energy", "finance", "food", "forest",
    "handloom", "health", "higheredu", "labour", "missionshakti", "msmy", "odia", "prdw", "revenue",
    "sme", "skill", "ssepd", "scst", "wcd"]

  lemma DeptAbbrChosen()
    ensures forall i :: 0 <= i < |DeptAbbr| ==> ChoiceDetermined(DeptAbbr[i])
    ensures |DeptChosen| == |DeptAbbr|
    ensures forall i :: 0 <= i < |DeptAbbr| ==> ChosenAbbr(DeptAbbr[i]) == DeptChosen[i]
    ensures forall i :: 0 <= i < |DeptAbbr| ==> ChosenAbbr(DeptAbbr[i]) in DeptAbbr[i].abbrs
  {
    DeptAbbrDetermined();
  }

  /** A number built from the first three characters of a name. */
  function Code3(s: string): int
    requires |s| >= 3
  {
    (s[0] as int) * 0x10000 + (s[1] as int) * 0x100 + (s[2] as int)
  }

  const DeptChosenCodes: seq<int> := [
    0x616772, 0x636f6f, 0x656974, 0x656e65, 0x66696e, 0x666f6f, 0x666f72,
    0x68616e, 0x686561, 0x686967, 0x6c6162, 0x6d6973, 0x6d736d, 0x6f6469, 0x707264, 0x726576,
    0x736d65, 0x736b69, 0x737365, 0x736373, 0x776364]

  lemma DeptChosenCodes3()
    ensures |DeptChosenCodes| == |DeptChosen|
    ensures forall i :: 0 <= i < |DeptChosen| ==> |DeptChosen[i]| >= 3 && Code3(DeptChosen[i]) == DeptChosenCodes[i]
  {
  }

  /**
   * The codes are distinct: the first seventeen increase, and each of the
   * last four falls outside them.
   */
  lemma DeptChosenCodesDistinct()
    ensures NoDup(DeptChosenCodes)
  {
    var a := DeptChosenCodes[..17];
    var b := DeptChosenCodes[17..];
    assert Increasing(a);
    IncreasingNoDup(a);
    assert b == [0x736b69, 0x737365, 0x736373, 0x776364];
    IncreasingGap(a, 15, 0x736b69);
    IncreasingGap(a, 16, 0x737365);
    IncreasingGap(a, 15, 0x736373);
    IncreasingGap(a, 16, 0x776364);
    NoDupConcat(a, b);
    assert a + b == DeptChosenCodes;
  }

  /** No two departments of `DeptAbbr` get the same abbreviation. */
  lemma DeptChosenDistinct()
    ensures NoDup(DeptChosen)
  {
    DeptChosenCodes3();
    DeptChosenCodesDistinct();
    forall i, j | 0 <= i < j < |DeptChosen| ensures DeptChosen[i] != DeptChosen[j] {
      assert DeptChosenCodes[i] != DeptChosenCodes[j];
    }
  }

  /** No abbreviation the split chooses for `DeptAbbr` contains an underscore. */
  lemma DeptChosenNoUnderscore()
    ensures forall i :: 0 <= i < |DeptChosen| ==> '_' !in DeptChosen[i]
  {
  }

  /**
   * Each abbreviation the split chooses for `DeptAbbr` is one of the
   * department's own, contains no underscore, and no two departments share one.
   */
  lemma DeptAbbrChoices()
    ensures forall i :: 0 <= i < |DeptAbbr| ==>
      ChoiceDetermined(DeptAbbr[i]) && ChosenAbbr(DeptAbbr[i]) in DeptAbbr[i].abbrs
    ensures forall i :: 0 <= i < |DeptAbbr| ==> '_' !in ChosenAbbr(DeptAbbr[i])
    ensures forall i, j :: 0 <= i < j < |DeptAbbr| ==> ChosenAbbr(DeptAbbr[i]) != ChosenAbbr(DeptAbbr[j])
  {
    DeptAbbrChosen();
    DeptChosenDistinct();
    DeptChosenNoUnderscore();
  }

  /**
   * The common columns computed from a department mapping never carry a
   * chosen prefix, so they can be passed to the split.
   */
  lemma CommonColumnsFit(cols: seq<string>, depts: seq<DeptEntry>)
    requires forall i :: 0 <= i < |depts| ==> ChoiceDetermined(depts[i]) && ChosenAbbr(depts[i]) in depts[i].abbrs
    ensures forall i :: 0 <= i < |depts| ==> CommonFitsDepartment(CommonColumns(cols, DeptPrefixes(depts)), depts[i])
  {
    forall i, c | 0 <= i < |depts| && c in CommonColumns(cols, DeptPrefixes(depts))
      ensures !StartsWith(c, ChosenAbbr(depts[i]) + "_")
    {
      assert ChosenAbbr(depts[i]) in DeptPrefixes(depts);
    }
  }

  /** The raw table's common columns, computed from `DeptAbbr`, are a valid input to the split. */
  lemma RawSplitInput(df: Table, deptCol: string)
    requires WellFormed(df) && deptCol in df.columns
    ensures SplitInput(df, deptCol, DeptAbbr, CommonColumns(df.columns, DeptPrefixes(DeptAbbr)))
  {
    DeptAbbrChoices();
    CommonColumnsFit(df.columns, DeptAbbr);
  }

  /** A column starting with "scste_" carries a department prefix of `DeptAbbr` but not "scst_". */
  lemma ScstePrefix(c: string)
    requires StartsWith(c, "scste_")
    ensures HasDeptPrefix(c, DeptPrefixes(DeptAbbr))
    ensures !StartsWith(c, "scst_")
  {
    assert "scste" in DeptAbbr[19].abbrs;
    assert "scste" + "_" == "scste_";
    assert c[4] == 'e';
  }

  /**
   * The ST & SC department's prefix is "scst_", so its "scste_" columns are
   * neither common nor department-specific: its split table never has them.
   */
  lemma ScsteColumnsDropped(df: Table, deptCol: string, c: string)
    requires WellFormed(df) && deptCol in df.columns
    requires StartsWith(c, "scste_")
    ensures SplitInput(df, deptCol, DeptAbbr, CommonColumns(df.columns, DeptPrefixes(DeptAbbr)))
    ensures DeptAbbr[19].name == ScStDepartment
    ensures c !in DepartmentSlice(df, deptCol, DeptAbbr[19], CommonColumns(df.columns, DeptPrefixes(DeptAbbr))).columns
  {
    RawSplitInput(df, deptCol);
    DeptAbbrDetermined();
    assert ChosenAbbr(DeptAbbr[19]) + "_" == "scst_";
    ScsteNotSelected(df, deptCol, c);
  }

  /** A "scste_" column is neither common nor prefixed "scst_", so the ST & SC selection leaves it out. */
  lemma ScsteNotSelected(df: Table, deptCol: string, c: string)
    requires StartsWith(c, "scste_")
    ensures c !in SliceColumnList(df, deptCol, CommonColumns(df.columns, DeptPrefixes(DeptAbbr)), "scst_")
  {
    ScstePrefix(c);
  }
}
