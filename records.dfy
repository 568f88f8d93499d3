/** The shape of one row of the `PowerBIData` table. */
module Records {
  import opened Wrappers

  /** A nullable VARCHAR column (a month or the total). */
  type Field = Option<string>

  /** The number of non-key columns: Jan..Dec and Total. */
  const Width: nat := 13

  /** One extracted or stored row: the `Year` key and its columns in header
      order. `cells[k]` is the Python row's element `k + 1`. */
  datatype Row = Row(year: int, cells: seq<Field>)

  /** A row the SQL statements accept: exactly one value per non-key column. */
  predicate WellFormed(r: Row) {
    |r.cells| == Width
  }
}
