/**
 Feed tables as the script sees them after CSV parsing: each table is a
 sequence of records mapping column names to cell text.
 */
module Rows {

  /** One CSV record: column name to cell value. */
  type Row = map<string, string>

  /** Every row of `table` has column `field`. */
  predicate HasField(table: seq<Row>, field: string) {
    forall i :: 0 <= i < |table| ==> field in table[i]
  }

  /** `row` has column `field` and its value is one of `ids`. */
  predicate Matches(row: Row, field: string, ids: set<string>) {
    field in row && row[field] in ids
  }

  /** Some row of `table` has `id` in column `field`. */
  predicate HasRowWith(table: seq<Row>, field: string, id: string)
    requires HasField(table, field)
  {
    exists i :: 0 <= i < |table| && table[i][field] == id
  }

  /** A row of the table is a witness for its own value in any column the table has. */
  lemma RowHasRowWith(table: seq<Row>, field: string, row: Row)
    requires HasField(table, field) && row in table
    ensures HasRowWith(table, field, row[field])
  {
    var i :| 0 <= i < |table| && table[i] == row;
  }

  /** Every row of `a` names, in column `fa`, a row of `b` through `b`'s column `fb`. */
  predicate References(a: seq<Row>, fa: string, b: seq<Row>, fb: string)
    requires HasField(a, fa) && HasField(b, fb)
  {
    forall i :: 0 <= i < |a| ==> HasRowWith(b, fb, a[i][fa])
  }
}
