# Beneficiary data cleaning, modelled in Dafny

This project models the cleaning pipeline in `build/setup_clean.py`. The pipeline reads the raw individual-benefits table of a state's beneficiary database and processes it in these steps:

- It hashes the personally identifying columns.
- It reports repeated rows and then removes them.
- It splits the rows by department into one table per department abbreviation. Each such table keeps the common columns and the department's own prefixed columns.
- It reports `ben_id`s that occur more than once inside a department table.
- It removes every row that carries a reported `ben_id` and writes the cleaned tables back.
- It outer-joins all department tables on `ben_id` into one wide table.

A table is `Table(columns, rows)`. Each row maps a column name to a `Cell`, which is `None` for null and otherwise the text of the value. A Python dictionary whose iteration order matters, such as `department_files`, is modelled as an ordered list of key/value pairs. Assigning a key replaces the value in place when the key is present and appends it otherwise (`Dicts.Put`). Everything reads and writes tables as values. The CSV files on disk stand for those tables, and file paths are replaced by the tables themselves.

Modules, one per concern:

- `Tables`: the polars operations the pipeline uses.
- `Collections`: keep-first distinct, grouping and counting.
- `Strings`: `strip`, `lower`, `startswith` and Python's string order.
- `Pii`: `hash_pii`.
- `Dedup`: the full-row duplicate report and its removal.
- `Departments`: the `dept_abbr` mapping, `common_columns` and `split_and_save_by_department`.
- `DeptLookup`: the reverse department mapping of `remove_duplicate_ben_ids`.
- `BenIds`: `check_ben_id_uniqueness`, `remove_duplicate_ben_ids` and the write-back.
- `Merge`: `merge_department_data`.
- `Pipeline`: the statements at module level that chain these steps.

The model keeps three quirks of the source as the source has them:

- The ST & SC department has the abbreviations `scst` and `scste`. It is always saved under `scst`, so its selection looks for the prefix `scst_`. Its `scste_` columns carry a department prefix, so they are not common columns either. The split therefore never keeps them (`Departments.ScsteColumnsDropped`).
- A department-specific column already carries its department's prefix. The merge prefixes it again, so `agri_x` becomes `agri_agri_x` (`Merge.Specific`).
- The reverse mapping maps a lower-cased full name to the last abbreviation in its list. So "ST & SC Dev Department" resolves to `scste`, while its table is stored under `scst` (`DeptLookup.ScStNameResolvesToLast`). The report written by `check_ben_id_uniqueness` names departments by their abbreviation, and every abbreviation resolves to itself (`DeptLookup.DeptAbbrResolves`). The full-name entries are therefore never used by the pipeline itself.

## Model

| member | source | states |
|---|---|---|
| Pii.HashPii | build/setup_clean.py:81-98 | The columns and row count stay the same, and so does every row's set of columns. A column that is not listed or not present is unchanged. A null or empty cell is unchanged. Every other listed cell becomes `Some(hash(value))`. Well-formedness is kept. |
| Collections.DistinctSpec | build/setup_clean.py:126-130 | Keep-first deduplication leaves no repeats and keeps exactly the elements of the input. |
| Collections.DuplicateGroupsSpec | build/setup_clean.py:105-109 | The duplicate groups hold exactly the values that occur more than once. Each group carries the value's number of occurrences, and no value is grouped twice. |
| Collections.DuplicateEntriesEqualRowsRemoved | build/setup_clean.py:116-118 | The sum of the occurrences minus the number of groups equals the number of rows that deduplication removes. |
| Dedup.RemoveDuplicateRows | build/setup_clean.py:105-130 | The report holds exactly the rows that occur more than once, each with its count and each once. The kept table has the same columns, no repeated row and exactly the input's rows. `rows_removed` is the drop in row count, and it equals the logged total of duplicate entries. |
| Tables.Project | build/setup_clean.py:206 | A projected row has exactly the selected columns the row has, with their values. |
| Tables.Select | build/setup_clean.py:206 | `select` gives the listed columns, the same number of rows, and each row projected on those columns. |
| Tables.Filter | build/setup_clean.py:175 | `filter` keeps the columns, and its rows are exactly the input rows that satisfy the condition, kept in their order. |
| Tables.Drop | build/setup_clean.py:188 | `drop` removes the column from the column list and from every row, and keeps the rows in order. |
| Tables.Unique | build/setup_clean.py:206 | `unique` keeps the columns and the same set of rows, with no repeats. |
| Tables.ColumnAt | build/setup_clean.py:246-248 | The `i`-th cell of a column is the `i`-th row's cell. |
| Departments.DeptPrefixes | build/setup_clean.py:213 | The prefix set is exactly the abbreviations of all departments. |
| Departments.CommonColumns | build/setup_clean.py:214-218 | A column is common exactly when it carries no `"{abbr}_"` prefix. The common columns keep the table's order and have no repeats. |
| Departments.CommonColumnsFit | build/setup_clean.py:213-218 | A common column never starts with a chosen department prefix. |
| Departments.ChosenAbbr | build/setup_clean.py:189-191 | ST & SC always gets `scst`. Any other department gets its only abbreviation. |
| Departments.MissingDepartments | build/setup_clean.py:175 | Its rows are exactly the rows whose department cell is null, in their order, and its columns are unchanged. |
| Departments.SliceColumnList | build/setup_clean.py:195-204 | The selected columns are exactly the present columns, other than the department column, that are common or carry the chosen prefix. |
| Departments.DepartmentSlice | build/setup_clean.py:188-206 | A department's table is well formed and its columns are exactly `SliceColumnList`. |
| Departments.DepartmentSliceSpec | build/setup_clean.py:188-206 | A department's table has no repeated row. Every row is the projection of one of the department's rows, and every such projection is present. |
| Departments.SplitByDepartment | build/setup_clean.py:169-210 | The missing-department table has exactly the rows with a null department. The per-department tables are `SplitTables`. |
| Departments.SplitKeyOrigin | build/setup_clean.py:187-207 | Every key of the split is the chosen abbreviation of a department that has rows. |
| Departments.SplitKeyOf | build/setup_clean.py:187-207 | Every department that has rows gets an entry. |
| Departments.SplitKeys | build/setup_clean.py:187-207 | A key is present exactly when some department with rows chose it. |
| Departments.SplitEntryOrigin | build/setup_clean.py:187-207 | Every stored table is the slice of a department that has rows and whose abbreviation is the key. |
| Departments.SplitEntryOfDepartment | build/setup_clean.py:187-207 | When chosen abbreviations are distinct, each department with rows is stored under its abbreviation with its own slice. |
| Departments.DeptAbbrChosen | build/setup_clean.py:144-166 | Every department of the mapping has a determined choice, and that choice is one of its own abbreviations. |
| Departments.DeptChosenDistinct | build/setup_clean.py:144-166 | No two departments of the mapping choose the same abbreviation. |
| Departments.DeptAbbrChoices | build/setup_clean.py:144-166 | Every chosen abbreviation is the department's own, has no underscore, and differs from every other department's. |
| Departments.RawSplitInput | build/setup_clean.py:213-232 | The raw table, with common columns computed from `dept_abbr`, is a valid input to the split. |
| Departments.ScstePrefix | build/setup_clean.py:164 | A `scste_` column carries a department prefix but does not start with `scst_`. |
| Departments.ScsteNotSelected | build/setup_clean.py:196-204 | The `scst_` selection leaves every `scste_` column out. |
| Departments.ScsteColumnsDropped | build/setup_clean.py:164-204 | The ST & SC table never contains a `scste_` column. |
| Strings.TrimStartSpec | build/setup_clean.py:312 | `lstrip` removes exactly the leading whitespace. |
| Strings.TrimEndSpec | build/setup_clean.py:312 | `rstrip` removes exactly the trailing whitespace. |
| Strings.StripSpec | build/setup_clean.py:312 | `strip` leaves the inner slice with whitespace on neither end, and everything cut is whitespace. |
| Strings.LowerOfLower | build/setup_clean.py:303-304 | Text without upper-case letters is its own lower-case form. |
| Strings.BelowIrreflexive | build/setup_clean.py:365 | Python's string order is irreflexive. |
| Strings.BelowTransitive | build/setup_clean.py:365 | Python's string order is transitive. |
| Strings.BelowTotal | build/setup_clean.py:365 | Of two different strings, one is below the other. |
| Strings.Insert | build/setup_clean.py:365 | Inserting a name keeps the list strictly sorted and adds exactly that name. |
| Strings.Sort | build/setup_clean.py:365 | `sorted` of distinct names is strictly sorted, with the same elements and the same length. |
| Strings.SortedListingUnique | build/setup_clean.py:365 | Two strictly sorted lists with the same elements are equal, so the sorted listing is determined. |
| DeptLookup.ReverseDeptMapping | build/setup_clean.py:300-304 | The loop builds `ReverseMapping`, the result of the assignments made in order. |
| DeptLookup.EntryWritesOf | build/setup_clean.py:302-304 | One department assigns exactly its lower-cased name and its lower-cased abbreviations, each to an abbreviation. |
| DeptLookup.RevWritesOf | build/setup_clean.py:301-304 | The whole loop assigns exactly those pairs for every department. |
| DeptLookup.AssignedFrom | build/setup_clean.py:300-304 | Every key of the built dictionary holds a value that was assigned to it. |
| DeptLookup.AssignAgree | build/setup_clean.py:300-304 | A key whose assignments all agree ends with that value. |
| DeptLookup.LastNameWins | build/setup_clean.py:301-304 | A full name maps to the last abbreviation in its list, provided later keys do not clash with it. |
| DeptLookup.AbbreviationsResolve | build/setup_clean.py:300-313 | When names and abbreviations do not clash, every plain abbreviation resolves to itself. |
| DeptLookup.DeptAbbrResolves | build/setup_clean.py:144-166 | With `dept_abbr`, every abbreviation resolves to itself. |
| DeptLookup.ScStNameResolvesToLast | build/setup_clean.py:164 | With `dept_abbr`, "ST & SC Dev Department" resolves to `scste`. |
| DeptLookup.MatchedAbbreviation | build/setup_clean.py:312-313 | A match is an abbreviation of some department, reached either through its full name or through the abbreviation itself. |
| DeptLookup.PlainNormalized | build/setup_clean.py:312 | Stripping and lower-casing a lower-case abbreviation gives it back. |
| BenIds.FileReport | build/setup_clean.py:242-266 | A table without a `ben_id` column yields no report rows. |
| BenIds.FileReportSound | build/setup_clean.py:246-266 | Every report row of a table names the table's abbreviation and a `ben_id` that occurs more than once there, with its exact count. |
| BenIds.FileReportComplete | build/setup_clean.py:246-266 | A `ben_id` that occurs more than once is reported with its count, and no other `ben_id` is reported. |
| BenIds.FileReportOnce | build/setup_clean.py:246-266 | No report row of a table is repeated. |
| BenIds.CheckBenIdUniqueness | build/setup_clean.py:235-277 | The loop collects `UniquenessReport`, the files' reports concatenated in dictionary order. |
| BenIds.ReportStep | build/setup_clean.py:239-266 | One more file extends the collected report by its own report, or by nothing when it has no `ben_id` column. |
| BenIds.ReportOrigin | build/setup_clean.py:239-266 | Every report row comes from one file's report. |
| BenIds.ReportHas | build/setup_clean.py:239-266 | Every row of a file's report is in the whole report. |
| BenIds.ReportExact | build/setup_clean.py:239-266 | A `ben_id` occurs more than once in a keyed file exactly when the whole report lists it under that file's key, with its count. |
| BenIds.ReportSound | build/setup_clean.py:239-266 | Every report row names a file with a `ben_id` column in which that `ben_id` occurs the reported number of times, which is more than once. |
| BenIds.ReportOnce | build/setup_clean.py:239-266 | The whole report has no repeated row when the file keys are distinct. |
| BenIds.AddReported | build/setup_clean.py:308-319 | A row whose department resolves adds its `ben_id` under the abbreviation. A row that does not resolve changes nothing. |
| BenIds.BenIdsUpToHas | build/setup_clean.py:307-319 | After `n` rows, each of those rows that resolves has its `ben_id` collected. |
| BenIds.BenIdsUpToOrigin | build/setup_clean.py:307-319 | Every collected `ben_id` comes from a row that resolves to its abbreviation. |
| BenIds.BenIdsByDeptExact | build/setup_clean.py:307-319 | An abbreviation collects a `ben_id` exactly when some report row with that `ben_id` resolves to it. |
| BenIds.BenIdsByDeptKeys | build/setup_clean.py:317-319 | Only abbreviations that some row resolves to are keys, and their sets are never empty. |
| BenIds.GroupReport | build/setup_clean.py:307-319 | The loop builds `BenIdsByDept`. |
| BenIds.WithoutIds | build/setup_clean.py:331 | The filter keeps the columns and exactly the rows whose `ben_id` is not reported, in their order. |
| BenIds.WithoutIdsOccurrences | build/setup_clean.py:331 | After the filter a reported `ben_id` occurs nowhere, and every other one occurs as often as before. |
| BenIds.CleanDepartment | build/setup_clean.py:323-339 | A department is kept only when it has a table with a `ben_id` column and the filter removed some rows. A department that is not kept but has such a table lost no rows. |
| BenIds.CleanDepartments | build/setup_clean.py:322-343 | The loop builds `CleanedOn`. |
| BenIds.CleanedExact | build/setup_clean.py:322-343 | A department is cleaned exactly when it has a table with a `ben_id` column and some row carries a reported `ben_id`. Its cleaned table is exactly the unreported rows, in order. |
| BenIds.RemoveDuplicateBenIds | build/setup_clean.py:284-343 | Without a report the result is empty. Otherwise it is `CleanedOn` of the grouped report and the reverse mapping. |
| BenIds.NoReportNoCleaning | build/setup_clean.py:289-291 | An empty report cleans nothing. |
| BenIds.WriteBack | build/setup_clean.py:350-353 | Writing back keeps the dictionary's keys and order. A cleaned department gets its cleaned table, and every other department keeps its own. |
| BenIds.ReportCovers | build/setup_clean.py:235-319 | When file keys resolve to themselves, the grouped report covers every duplicated `ben_id` of every file. |
| BenIds.CleaningLeavesUniqueIds | build/setup_clean.py:322-353 | With ids that cover every duplicate, every file with a `ben_id` column holds each `ben_id` at most once after the write-back. |
| BenIds.PipelineLeavesUniqueIds | build/setup_clean.py:235-353 | The report, the grouping, the cleaning and the write-back together leave every `ben_id` at most once per file. |
| BenIds.SplitKeysResolve | build/setup_clean.py:207 | Keys that are abbreviations of `dept_abbr` resolve to themselves, so the pipeline lemma applies to the split's output. |
| Merge.RowOf | build/setup_clean.py:400-402 | The row found carries the key. When nothing is found, no row carries it. |
| Merge.SharedColumns | build/setup_clean.py:359-365 | The shared columns are exactly the columns, other than `ben_id`, that every table has, and they are strictly sorted. |
| Merge.SharedColumnsApart | build/setup_clean.py:364-365 | The shared columns have no repeats and never include `ben_id`. |
| Merge.CommonColumns | build/setup_clean.py:358-366 | The loop and the sort give `SharedColumns`. |
| Merge.SpecificSpec | build/setup_clean.py:377-381 | The renamed names are exactly `"{abbr}_{col}"` for each column that is neither shared nor `ben_id`, with no repeats when the columns have none. |
| Merge.SpecificOrigin | build/setup_clean.py:377-381 | Every renamed name is the abbreviation, an underscore and one of the table's own columns. |
| Merge.RenameRow | build/setup_clean.py:383-391 | A renamed row has exactly the columns of `current_cols`. |
| Merge.Renamed | build/setup_clean.py:383-391 | The renamed table has the columns `current_cols` and one renamed row per input row. |
| Merge.RenameRowValues | build/setup_clean.py:383-391 | Renaming keeps the `ben_id`, every shared value, and every own value under its new name. |
| Merge.RenamedShape | build/setup_clean.py:383-391 | The renamed table is well formed and keeps unique keys. |
| Merge.RenamedKeys | build/setup_clean.py:383-391 | The renamed table holds a beneficiary exactly when the original does. |
| Merge.RenamedValueIn | build/setup_clean.py:383-391 | Looking a beneficiary up in the renamed table finds the department's values. |
| Merge.RenamedNamesDistinct | build/setup_clean.py:377-394 | When abbreviations are distinct and have no underscore, the renamed names of all departments are distinct. |
| Merge.PrefixedDistinct | build/setup_clean.py:378 | Different abbreviations without an underscore never produce the same prefixed name. |
| Merge.JoinedRows | build/setup_clean.py:400-402 | When right keys are unique, the join holds one row per left row, joined or padded, plus one padded row per unmatched right row. Listing the left rows first is the model's own choice of order (see `Merge.Joined` under "## Left out"). |
| Merge.JoinedOrigin | build/setup_clean.py:400-402 | Every joined row comes from a left row or from an unmatched right row. |
| Merge.JoinedHasLeft | build/setup_clean.py:400-402 | Every left row appears, joined or padded. |
| Merge.JoinedHasRight | build/setup_clean.py:400-402 | Every unmatched right row appears, padded. |
| Merge.JoinedUniqueKeys | build/setup_clean.py:400-402 | A join of two tables with unique keys has unique keys. |
| Merge.JoinedKeys | build/setup_clean.py:400-402 | A join holds a non-null key exactly when one of its sides does. |
| Merge.JoinedNullRows | build/setup_clean.py:400-402 | The join's null-key rows are those of the left side plus those of the right side. |
| Merge.JoinedSharedLeft | build/setup_clean.py:405-410 | A shared cell of a joined left row is its own value when that is non-null, and otherwise the right side's value. |
| Merge.JoinedRightValue | build/setup_clean.py:400-410 | An unmatched right row keeps its own values. |
| Merge.FirstNonNull | build/setup_clean.py:405-410 | The coalesced value is the first non-null value among the first `k` departments, or null when none has one. |
| Merge.MergeFirst | build/setup_clean.py:396-397 | The first renamed table already satisfies the shape, key, shared-value and own-value properties. |
| Merge.StepShape | build/setup_clean.py:396-411 | One join keeps the columns, well-formedness and unique keys. |
| Merge.StepKeys | build/setup_clean.py:396-411 | After the `k`-th join the table holds exactly the beneficiaries of the first `k` departments. |
| Merge.StepShared | build/setup_clean.py:396-411 | After the `k`-th join every shared cell holds the first non-null value. |
| Merge.StepOwn | build/setup_clean.py:396-411 | After the `k`-th join every renamed cell holds its department's value, or null. |
| Merge.MergeInvariant | build/setup_clean.py:373-414 | All four properties hold after every department. |
| Merge.OrderIsLayout | build/setup_clean.py:369-394 | The `column_order` tracker lists exactly `ben_id`, the shared columns and the renamed columns, in department order. |
| Merge.Merged | build/setup_clean.py:356-420 | The merged table is well formed, and its columns are `ben_id`, the shared columns and every department's renamed columns, in order. |
| Merge.FinalSelectKeeps | build/setup_clean.py:416-418 | The final `select` leaves the joined table unchanged. |
| Merge.JoinDepartments | build/setup_clean.py:368-414 | The loop builds `MergeUpTo` and the `column_order` tracker. |
| Merge.MergeDepartmentData | build/setup_clean.py:356-420 | The method returns `Merged`. |
| Merge.EveryBeneficiaryMerged | build/setup_clean.py:356-420 | The merged table has a row for a beneficiary exactly when some department has one. |
| Merge.OneRowPerBeneficiary | build/setup_clean.py:356-420 | No two merged rows carry the same non-null `ben_id`. |
| Merge.SharedFromFirstDepartment | build/setup_clean.py:356-420 | A shared cell holds the first non-null value, in dictionary order. |
| Merge.OwnColumnsKeptApart | build/setup_clean.py:356-420 | Each department's own column survives as `"{abbr}_{col}"`, holding that department's value or null. |
| Merge.NoBeneficiaryRowsKept | build/setup_clean.py:356-420 | Every row with a null `ben_id` stays a row of its own: the merged table has as many as all departments together. |
| Merge.UniqueKeysOfOccurrences | build/setup_clean.py:331 | A table in which no `ben_id` occurs twice has unique keys, which is what the merge needs. |
| Pipeline.PrefixOwner | build/setup_clean.py:195-204 | A name without an underscore, followed by `_`, is the only such prefix of a name it starts. |
| Pipeline.BenIdUnprefixed | build/setup_clean.py:213-218 | `ben_id` carries no department prefix, so it is a common column. |
| Pipeline.Prepared | build/setup_clean.py:101-130 | Hashing and deduplicating the raw table keep its columns and its well-formedness. |
| Pipeline.PreparedSplitInput | build/setup_clean.py:213-232 | The prepared table, with the common columns of the raw table, is a valid input to the split. |
| Pipeline.PreparedHasRows | build/setup_clean.py:101-130 | A department that has a raw row still has a row after hashing and deduplication. |
| Pipeline.SplitFilesWellFormed | build/setup_clean.py:225-232 | The split of the prepared table is a dictionary of well-formed tables. |
| Pipeline.SplitFilesShaped | build/setup_clean.py:225-232 | Every split table has a `ben_id` column, is stored under a department's chosen abbreviation, and has only common columns and columns with its own prefix. |
| Pipeline.WriteBackShaped | build/setup_clean.py:347-353 | Writing the cleaned tables back keeps that shape. |
| Pipeline.ShapedApart | build/setup_clean.py:356-420 | For such files, no renamed column is `ben_id` or a shared column. |
| Pipeline.ShapedLayout | build/setup_clean.py:356-420 | For such files, the merged column names are distinct. |
| Pipeline.CleanedUniqueKeys | build/setup_clean.py:281-353 | After the report, the cleaning and the write-back, no file holds a non-null `ben_id` twice. |
| Pipeline.CleanedFilesMergeInput | build/setup_clean.py:101-353 | When the raw table has a `ben_id` column and a row of some known department, the written-back files meet every condition of the merge. |
| Pipeline.FinalDataBeneficiaries | build/setup_clean.py:424-427 | The final table holds each non-null `ben_id` on one row at most, and it holds a `ben_id` exactly when some cleaned department file does. |

## Left out

- File I/O is not modelled. Reading and writing CSV files, the `\N` null marker, schema inference and type casts are left out, as are the paths of the split files and of the report. Tables are passed as values, and every cell is text or null.
- The report is not read back from CSV. `remove_duplicate_ben_ids` receives the report rows that `check_ben_id_uniqueness` produced, or `None` when no report file exists. A failing read and the `try`/`except` handlers are not modelled. A stale report left by an earlier run is not modelled either.
- Logging (`log_message`) and directory creation are not modelled.
- The hash function is a parameter of `HashPii`. SHA-256 itself is not modelled.
- `random.choice` is replaced by a precondition. The split requires every department other than ST & SC to list exactly one abbreviation, which `dept_abbr` does. For a list with more than one element the source's choice is random.
- Departments.DepartmentSliceSpec: promises the set of rows of `unique()`, not their order, because polars does not promise an order without `maintain_order`.
- Tables.Unique: the model keeps first occurrences in order, but its contract states only the set of rows and that there are no repeats.
- Polars joins are modelled at the level of their result, without their internals. The temporary `_{abbr}_temp` suffix columns are not modelled. The model computes the coalesced shared columns directly, which is what the suffix columns and the `drop` produce.
- Merge.Joined: lists the left rows first, in left order, and then the unmatched right rows, in right order. Polars' outer join promises no row order, so only the multiset of rows is meant. The same holds for the row order of `Merge.Merged` and `Merge.MergeDepartmentData`, which is built from it. No proved property depends on that order.
- Merge.MergeDepartmentData: requires at least one department, because `set.intersection` of nothing raises. It also requires:
  - every table to be well formed and to have a `ben_id` column;
  - each non-null `ben_id` to occur at most once per table;
  - renamed names to clash with nothing.
  These are the conditions under which polars' outer join with `coalesce=True` is a key-by-key merge. The source does not check them, and for other input its behaviour is not modelled. `Pipeline.CleanedFilesMergeInput` shows that the tables the cleaning step writes back meet all of them.
- Null `ben_id`s never match in a join, as polars does by default.
- BenIds.WithoutIds: compares a null `ben_id` like any other value, as `is_in` does when nulls compare equal. A row with a null `ben_id` is removed only when null itself was reported. Where `is_in` propagates null instead, `~is_in` is null and `filter` drops every null-`ben_id` row of a cleaned department; the model does not capture that.
- Strings.Lower: lower-cases only ASCII letters, whereas Python's `str.lower` covers all of Unicode.
- `str.strip` is modelled on the characters for which Python's `str.isspace` holds (`Strings.IsSpace`).
- BenIds.PipelineLeavesUniqueIds: is stated for any reverse mapping that resolves every file key to itself. `BenIds.SplitKeysResolve` shows that the mapping built from `dept_abbr` does this for the keys of the split.
- The statements at module level are modelled by the `Pipeline` functions and lemmas: `Prepared` for lines 101 and 126-129, `SplitFiles` for lines 213-232, `ReportedIds` and `CleanedFiles` for lines 281 and 347-353, and `FinalData` for lines 424-427. Loading the raw file, the logging and writing `individual_benefits_clean.csv` are left out. `config.py` is not part of this model.
