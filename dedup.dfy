/** The duplicate-row report and full-row deduplication of the raw table. */
module Dedup {
  import opened Collections
  import opened Tables

  /** What the deduplication step computes and logs. */
  datatype DedupOutcome = DedupOutcome(
    table: Table,                       // the table after `.unique()`
    duplicateGroups: seq<Group<Row>>,   // the duplicate-row report
    totalDuplicateEntries: int,         // sum of occurrences minus the number of groups
    rowsRemoved: int)                   // original height minus the new height

  /**
   * Reports every row that occurs more than once together with its count,
   * drops repeated rows, and counts what was dropped. The two counts the step
   * logs always agree.
   */
  function RemoveDuplicateRows(t: Table): (o: DedupOutcome)
    ensures o.table.columns == t.columns
    ensures NoDup(o.table.rows)
    ensures forall r :: r in o.table.rows <==> r in t.rows
    ensures forall r :: r in GroupValues(o.duplicateGroups) <==> multiset(t.rows)[r] > 1
    ensures forall i :: 0 <= i < |o.duplicateGroups| ==>
      o.duplicateGroups[i].occurrences == multiset(t.rows)[o.duplicateGroups[i].value]
    ensures NoDup(GroupValues(o.duplicateGroups))
    ensures o.rowsRemoved == |t.rows| - |o.table.rows| >= 0
    ensures o.totalDuplicateEntries == o.rowsRemoved
    ensures WellFormed(t) ==> WellFormed(o.table)
  {
    var groups := DuplicateGroups(t.rows);
    var unique := Unique(t);
    DuplicateGroupsSpec(t.rows);
    DuplicateEntriesEqualRowsRemoved(t.rows);
    DedupOutcome(unique, groups, TotalDuplicateEntries(groups), |t.rows| - |unique.rows|)
  }
}
