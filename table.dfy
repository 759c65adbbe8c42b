/** The in-memory table the profiler works on, as csv.DictReader delivers it. */
module Table {
  /** One record: column name to raw cell text; an empty cell is "". */
  type Row = map<string, string>

  /** Every row has a cell for `column`, so `row[column]` does not raise. */
  predicate HasColumn(data: seq<Row>, column: string)
  {
    forall i :: 0 <= i < |data| ==> column in data[i]
  }

  /** The cells of `column`, one per row, in row order. */
  function Cells(data: seq<Row>, column: string): (cells: seq<string>)
    requires HasColumn(data, column)
    ensures |cells| == |data|
    ensures forall i :: 0 <= i < |data| ==> cells[i] == data[i][column]
  {
    if data == [] then []
    else Cells(data[..|data| - 1], column) + [data[|data| - 1][column]]
  }
}
