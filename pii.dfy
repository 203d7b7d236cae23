/** Hashing of the personally identifying columns (`hash_pii`). */
module Pii {
  import opened Wrappers
  import opened Tables

  /** The columns the pipeline hashes. */
  const PiiColumns: seq<string> :=
    ["ben_name", "father_husband_name", "mobile_no", "aadhar_no", "ration_card_no"]

  /**
   * `hash_value`: a null or empty cell is returned as it is; any other text is
   * replaced by its digest. The digest function is a parameter.
   */
  function HashValue(hash: string -> string, x: Cell): Cell {
    if x.None? || x.value == "" then x else Some(hash(x.value))
  }

  /**
   * `hash_pii`: every listed column that the table has is rewritten cell by
   * cell; columns, row count, every other column and every null or empty
   * cell stay as they were.
   */
  function HashPii(t: Table, columns: seq<string>, hash: string -> string): (r: Table)
    ensures r.columns == t.columns && |r.rows| == |t.rows|
    ensures forall i :: 0 <= i < |t.rows| ==> r.rows[i].Keys == t.rows[i].Keys
    ensures forall i, c :: 0 <= i < |t.rows| && c in t.rows[i] && (c !in columns || c !in t.columns) ==>
      r.rows[i][c] == t.rows[i][c]
    ensures forall i, c :: 0 <= i < |t.rows| && c in t.rows[i] && (t.rows[i][c].None? || t.rows[i][c] == Some("")) ==>
      r.rows[i][c] == t.rows[i][c]
    ensures forall i, c ::
      && 0 <= i < |t.rows| && c in t.rows[i] && c in columns && c in t.columns
      && t.rows[i][c].Some? && t.rows[i][c].value != ""
      ==> r.rows[i][c] == Some(hash(t.rows[i][c].value))
    ensures WellFormed(t) ==> WellFormed(r)
  {
    var hashed := (row: Row) =>
      map c | c in row :: if c in columns && c in t.columns then HashValue(hash, row[c]) else row[c];
    Table(t.columns, seq(|t.rows|, i requires 0 <= i < |t.rows| => hashed(t.rows[i])))
  }
}
