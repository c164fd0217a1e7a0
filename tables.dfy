/** Tables as the reconciler sees them once a CSV export has been loaded:
    an ordered list of column names and an ordered sequence of rows, each
    row mapping a column name to a cell. */
module Tables {

  /** A cell of a loaded table: absent (pandas' NaN/None), text, or an integer. */
  datatype Cell = Null | Str(text: string) | Int(value: int)

  type Row = map<string, Cell>

  datatype Table = Table(columns: seq<string>, rows: seq<Row>)

  /** The cell of `row` under `column`; a column the row lacks reads as absent. */
  function CellAt(row: Row, column: string): Cell
  {
    if column in row then row[column] else Null
  }

  /** The column `column` of `rows`, top to bottom (pandas' `df[column]`). */
  function Column(rows: seq<Row>, column: string): seq<Cell>
  {
    seq(|rows|, i requires 0 <= i < |rows| => CellAt(rows[i], column))
  }

  predicate Distinct(names: seq<string>)
  {
    forall i, j :: 0 <= i < j < |names| ==> names[i] != names[j]
  }

  /** Every row carries exactly the header's columns, and no header name repeats. */
  ghost predicate WellFormed(t: Table)
  {
    && Distinct(t.columns)
    && forall r :: r in t.rows ==> forall c :: c in r <==> c in t.columns
  }
}
