/**
 The in-memory table the application works on once the upload has been
 parsed: a header of column names and a sequence of rows of cells.
 */
module Tables {
  import opened Seqs

  /**
   One cell: text, a missing value (an empty field, read as NaN), or any
   other non-text value such as a number, kept as an opaque token.
   */
  datatype Cell = Str(s: string) | Missing | Other(value: int)

  type Row = seq<Cell>

  datatype Table = Table(columns: seq<string>, rows: seq<Row>)

  /** Every row has one cell per column. */
  predicate WellFormed(t: Table)
  {
    forall i :: 0 <= i < |t.rows| ==> |t.rows[i]| == |t.columns|
  }

  /** The cells of column `j`, top to bottom. */
  function Column(t: Table, j: nat): (cells: seq<Cell>)
    requires WellFormed(t) && j < |t.columns|
    ensures |cells| == |t.rows|
    ensures forall i :: 0 <= i < |t.rows| ==> cells[i] == t.rows[i][j]
  {
    seq(|t.rows|, i requires 0 <= i < |t.rows| => t.rows[i][j])
  }

  /**
   Column assignment `t[name] = values`: an existing column of that name is
   overwritten in place, otherwise a new column is appended on the right.
   */
  function SetColumn(t: Table, name: string, values: seq<Cell>): (r: Table)
    requires WellFormed(t) && |values| == |t.rows|
    ensures WellFormed(r) && |r.rows| == |t.rows|
    ensures name in t.columns ==> r.columns == t.columns
    ensures name !in t.columns ==> r.columns == t.columns + [name]
    ensures Column(r, IndexOf(r.columns, name)) == values
    ensures forall i, j :: 0 <= i < |t.rows| && 0 <= j < |t.columns| && t.columns[j] != name ==>
              r.rows[i][j] == t.rows[i][j]
    ensures name !in t.columns ==> forall i :: 0 <= i < |t.rows| ==> r.rows[i] == t.rows[i] + [values[i]]
    ensures Distinct(t.columns) ==> Distinct(r.columns)
  {
    if name in t.columns then
      var j := IndexOf(t.columns, name);
      Table(t.columns, seq(|t.rows|, i requires 0 <= i < |t.rows| => t.rows[i][j := values[i]]))
    else
      var r := Table(t.columns + [name], seq(|t.rows|, i requires 0 <= i < |t.rows| => t.rows[i] + [values[i]]));
      assert IndexOf(r.columns, name) == |t.columns|;
      r
  }
}
