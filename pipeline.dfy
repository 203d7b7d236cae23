/**
 * The module-level flow of the cleaning script: the raw table is hashed and
 * deduplicated, split by department, checked and cleaned of duplicate
 * `ben_id`s, and the cleaned department tables are merged.
 */
module Pipeline {
  import opened Wrappers
  import opened Collections
  import opened Strings
  import opened Dicts
  import opened Tables
  import opened Pii
  import opened Dedup
  import opened Departments
  import opened DeptLookup
  import opened BenIds
  import opened Merge

  /** The department column the split is given. */
  const DeptNameColumn: string := "dept_name"

  /** A name without an underscore, followed by `_`, starts no other such name followed by `_`. */
  lemma PrefixOwner(a: string, b: string, c: string)
    requires '_' !in a && '_' !in b
    requires StartsWith(a + "_" + c, b + "_")
    ensures a == b
  {
    var x := a + "_" + c;
    assert x[..|b| + 1] == b + "_";
    assert x[|b|] == '_' && x[|a|] == '_';
    assert forall k :: 0 <= k < |a| ==> x[k] == a[k];
    assert forall k :: 0 <= k < |b| ==> x[k] == b[k];
    assert |a| == |b|;
    assert a == x[..|a|] == b;
  }

  /** No abbreviation of `DeptAbbr` is a prefix of `ben_id`, so `ben_id` is a common column. */
  lemma BenIdUnprefixed()
    ensures !HasDeptPrefix(BenId, DeptPrefixes(DeptAbbr))
  {
    if HasDeptPrefix(BenId, DeptPrefixes(DeptAbbr)) {
      var a :| a in DeptPrefixes(DeptAbbr) && StartsWith(BenId, a + "_");
      DeptAbbrListed();
      DeptAbbrPlain();
      assert a in AllAbbrs && Plain(a);
      assert BenId == "ben" + "_" + "id";
      PrefixOwner("ben", a, "id");
      assert false;
    }
  }

  /** The raw table after `hash_pii` and the removal of repeated rows. */
  function Prepared(raw: Table, hash: string -> string): (t: Table)
    ensures t.columns == raw.columns
    ensures WellFormed(raw) ==> WellFormed(t)
  {
    RemoveDuplicateRows(HashPii(raw, PiiColumns, hash)).table
  }

  /** `common_columns`, computed from the raw table's columns. */
  function RawCommon(raw: Table): seq<string> {
    Departments.CommonColumns(raw.columns, DeptPrefixes(DeptAbbr))
  }

  /** The hashed and deduplicated table, with `common_columns`, is a valid input to the split. */
  lemma PreparedSplitInput(raw: Table, hash: string -> string)
    requires WellFormed(raw) && DeptNameColumn in raw.columns
    ensures SplitInput(Prepared(raw, hash), DeptNameColumn, DeptAbbr, RawCommon(raw))
  {
    RawSplitInput(Prepared(raw, hash), DeptNameColumn);
  }

  /** `department_files`, as the split of the prepared table returns it. */
  function SplitFiles(raw: Table, hash: string -> string): Dict<string, Table>
    requires WellFormed(raw) && DeptNameColumn in raw.columns
  {
    PreparedSplitInput(raw, hash);
    SplitTables(Prepared(raw, hash), DeptNameColumn, DeptAbbr, RawCommon(raw))
  }

  /** A department of `DeptAbbr` with a raw row has rows in the prepared table, since hashing leaves the department column alone. */
  lemma PreparedHasRows(raw: Table, hash: string -> string, i: nat, r: Row)
    requires WellFormed(raw) && i < |DeptAbbr| && r in raw.rows && InDepartment(r, DeptNameColumn, DeptAbbr[i].name)
    ensures HasRows(Prepared(raw, hash), DeptNameColumn, DeptAbbr[i].name)
  {
    var h := HashPii(raw, PiiColumns, hash);
    var k :| 0 <= k < |raw.rows| && raw.rows[k] == r;
    assert DeptNameColumn !in PiiColumns;
    assert h.rows[k][DeptNameColumn] == r[DeptNameColumn];
    assert h.rows[k] in Prepared(raw, hash).rows && InDepartment(h.rows[k], DeptNameColumn, DeptAbbr[i].name);
  }

  /** Every split table is well formed, and each abbreviation is stored once. */
  lemma SplitFilesWellFormed(raw: Table, hash: string -> string)
    requires WellFormed(raw) && DeptNameColumn in raw.columns
    ensures AllWellFormed(SplitFiles(raw, hash)) && IsDict(SplitFiles(raw, hash))
  {
    var files := SplitFiles(raw, hash);
    PreparedSplitInput(raw, hash);
    forall j | 0 <= j < |files| ensures WellFormed(files[j].1) {
      GetAt(files, j);
      var i := SplitEntryOrigin(Prepared(raw, hash), DeptNameColumn, DeptAbbr, RawCommon(raw), files[j].0, files[j].1);
    }
  }

  /**
   * What the split guarantees of its files: each abbreviation once, each an
   * abbreviation of `DeptAbbr` without an underscore, each table well formed
   * with a `ben_id` column and columns that are either common or carry the
   * file's own prefix.
   */
  ghost predicate SplitShaped(files: Dict<string, Table>) {
    && IsDict(files)
    && forall j :: 0 <= j < |files| ==>
      && WellFormed(files[j].1) && BenId in files[j].1.columns
      && '_' !in files[j].0 && (exists i :: 0 <= i < |DeptAbbr| && files[j].0 in DeptAbbr[i].abbrs)
      && forall c :: c in files[j].1.columns ==>
           !HasDeptPrefix(c, DeptPrefixes(DeptAbbr)) || StartsWith(c, files[j].0 + "_")
  }

  /** The split of a raw table with a `ben_id` column has that shape. */
  lemma SplitFilesShaped(raw: Table, hash: string -> string)
    requires WellFormed(raw) && DeptNameColumn in raw.columns && BenId in raw.columns
    ensures SplitShaped(SplitFiles(raw, hash))
  {
    var files := SplitFiles(raw, hash);
    var df := Prepared(raw, hash);
    var common := RawCommon(raw);
    PreparedSplitInput(raw, hash);
    BenIdUnprefixed();
    DeptAbbrChoices();
    assert BenId in common;
    forall j | 0 <= j < |files|
      ensures WellFormed(files[j].1) && BenId in files[j].1.columns
      ensures '_' !in files[j].0 && exists i :: 0 <= i < |DeptAbbr| && files[j].0 in DeptAbbr[i].abbrs
      ensures forall c :: c in files[j].1.columns ==>
                !HasDeptPrefix(c, DeptPrefixes(DeptAbbr)) || StartsWith(c, files[j].0 + "_")
    {
      GetAt(files, j);
      var i := SplitEntryOrigin(df, DeptNameColumn, DeptAbbr, common, files[j].0, files[j].1);
      assert files[j].1.columns == SliceColumnList(df, DeptNameColumn, common, files[j].0 + "_");
      assert files[j].0 in DeptAbbr[i].abbrs;
    }
  }

  /** Writing the cleaned tables back keeps that shape. */
  lemma WriteBackShaped(files: Dict<string, Table>, ids: map<string, set<Cell>>)
    requires SplitShaped(files)
    ensures SplitShaped(WriteBack(files, CleanedOn(files, ids)))
  {
    var out := WriteBack(files, CleanedOn(files, ids));
    assert Keys(out) == Keys(files);
    forall j | 0 <= j < |out|
      ensures WellFormed(out[j].1) && out[j].1.columns == files[j].1.columns
    {
      var a := files[j].0;
      if a in CleanedOn(files, ids) {
        GetAt(files, j);
        assert CleanedOn(files, ids)[a] == WithoutIds(files[j].1, ids[a]);
      }
    }
  }

  /** Renamed names are apart from `ben_id` and from the shared columns. */
  lemma ShapedApart(files: Dict<string, Table>, x: string)
    requires SplitShaped(files) && |files| > 0
    requires x in SpecificUpTo(files, SharedColumns(files), |files|)
    ensures x != BenId && x !in SharedColumns(files)
  {
    var shared := SharedColumns(files);
    var j := SpecificUpToOrigin(files, shared, |files|, x);
    var a := files[j].0;
    SpecificOrigin(a, files[j].1.columns, shared, x);
    var c := x[|a| + 1..];
    assert x == a + "_" + c;
    var i :| 0 <= i < |DeptAbbr| && a in DeptAbbr[i].abbrs;
    assert StartsWith(x, a + "_");
    assert HasDeptPrefix(x, DeptPrefixes(DeptAbbr));
    BenIdUnprefixed();
    if x in shared {
      if |files| == 1 {
        assert false;
      } else {
        var k := if j == 0 then 1 else 0;
        assert x in files[k].1.columns;
        PrefixOwner(a, files[k].0, c);
        assert false;
      }
    }
  }

  /** The shaped files meet the merge's layout conditions. */
  lemma ShapedLayout(files: Dict<string, Table>)
    requires SplitShaped(files) && |files| > 0
    ensures Layout(files, SharedColumns(files), |files|)
  {
    var shared := SharedColumns(files);
    SharedColumnsApart(files);
    RenamedNamesDistinct(files, shared, |files|);
    forall x | x in SpecificUpTo(files, shared, |files|) ensures x != BenId && x !in shared {
      ShapedApart(files, x);
    }
  }

  /** The `ids` of the report of `check_ben_id_uniqueness`, resolved through `dept_abbr`. */
  ghost function ReportedIds(files: Dict<string, Table>): map<string, set<Cell>>
    requires AllWellFormed(files)
  {
    BenIdsByDept(ReverseMapping(DeptAbbr), UniquenessReport(files))
  }

  /** After the write-back every shaped file holds each non-null `ben_id` once at most. */
  lemma CleanedUniqueKeys(files: Dict<string, Table>, j: nat)
    requires SplitShaped(files) && j < |files|
    ensures AllWellFormed(files)
    ensures UniqueKeys(WriteBack(files, CleanedOn(files, ReportedIds(files)))[j].1.rows)
  {
    SplitKeysResolve(files);
    var out := WriteBack(files, CleanedOn(files, ReportedIds(files)));
    forall b ensures Keyed(out[j].1) && Occurrences(out[j].1, b) <= 1 {
      PipelineLeavesUniqueIds(files, ReverseMapping(DeptAbbr), j, b);
    }
    UniqueKeysOfOccurrences(out[j].1);
  }

  /** The department files after the cleaned tables are written back over the split. */
  ghost function CleanedFiles(raw: Table, hash: string -> string): Dict<string, Table>
    requires WellFormed(raw) && DeptNameColumn in raw.columns
  {
    var files := SplitFiles(raw, hash);
    SplitFilesWellFormed(raw, hash);
    WriteBack(files, CleanedOn(files, ReportedIds(files)))
  }

  /**
   * When the raw table has a `ben_id` column and a row of some department of
   * `DeptAbbr`, the cleaned department files are a valid input to
   * `merge_department_data`.
   */
  lemma CleanedFilesMergeInput(raw: Table, hash: string -> string)
    requires WellFormed(raw) && DeptNameColumn in raw.columns && BenId in raw.columns
    requires exists i, r :: 0 <= i < |DeptAbbr| && r in raw.rows && InDepartment(r, DeptNameColumn, DeptAbbr[i].name)
    ensures MergeInput(CleanedFiles(raw, hash))
  {
    var files := SplitFiles(raw, hash);
    var out := CleanedFiles(raw, hash);
    var i, r :| 0 <= i < |DeptAbbr| && r in raw.rows && InDepartment(r, DeptNameColumn, DeptAbbr[i].name);
    PreparedHasRows(raw, hash, i, r);
    PreparedSplitInput(raw, hash);
    SplitKeyOf(Prepared(raw, hash), DeptNameColumn, DeptAbbr, RawCommon(raw), i);
    SplitFilesShaped(raw, hash);
    WriteBackShaped(files, ReportedIds(files));
    forall j | 0 <= j < |out| ensures UniqueKeys(out[j].1.rows) {
      CleanedUniqueKeys(files, j);
    }
    ShapedLayout(out);
  }

  /** The table `merge_department_data` returns for the cleaned department files. */
  ghost function FinalData(raw: Table, hash: string -> string): Table
    requires WellFormed(raw) && DeptNameColumn in raw.columns && BenId in raw.columns
    requires exists i, r :: 0 <= i < |DeptAbbr| && r in raw.rows && InDepartment(r, DeptNameColumn, DeptAbbr[i].name)
  {
    CleanedFilesMergeInput(raw, hash);
    Merged(CleanedFiles(raw, hash))
  }

  /**
   * The final table holds every beneficiary of the cleaned department files,
   * and only those, on one row each.
   */
  lemma FinalDataBeneficiaries(raw: Table, hash: string -> string, b: Cell)
    requires WellFormed(raw) && DeptNameColumn in raw.columns && BenId in raw.columns
    requires exists i, r :: 0 <= i < |DeptAbbr| && r in raw.rows && InDepartment(r, DeptNameColumn, DeptAbbr[i].name)
    requires b.Some?
    ensures UniqueKeys(FinalData(raw, hash).rows)
    ensures RowOf(FinalData(raw, hash).rows, b).Some? <==>
      exists j :: 0 <= j < |CleanedFiles(raw, hash)| && RowOf(CleanedFiles(raw, hash)[j].1.rows, b).Some?
  {
    CleanedFilesMergeInput(raw, hash);
    OneRowPerBeneficiary(CleanedFiles(raw, hash));
    EveryBeneficiaryMerged(CleanedFiles(raw, hash), b);
  }
}
