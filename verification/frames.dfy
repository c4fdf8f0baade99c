/**
 Tabular records as the pipeline sees them: a pandas data frame is a set of
 column names and a sequence of rows, each row mapping every column to a
 cell. A missing cell (pandas NaN) is the value `Missing`.
 */
module Frames {
  import opened Wrappers

  /** One cell of a data frame; case identifiers (ECLI strings) are cells too.
      `Missing` is pandas' NaN (a key absent from a JSON record); `Null` is a
      JSON `null`, which stays Python `None` in a column of strings. Cells
      are hashable scalars: JSON arrays, objects and booleans have no case. */
  datatype Value = Text(s: string) | Number(r: real) | Missing | Null

  type Row = map<string, Value>

  /** Indexing a column that the frame does not have raises `KeyError`;
      networkx refuses `None` as a node with `ValueError`. */
  datatype Error = KeyError(column: string) | NoneNode

  datatype Table = Table(columns: set<string>, rows: seq<Row>) {
    /** Every row has exactly the frame's columns, as in any pandas frame. */
    predicate Valid() {
      forall r :: r in rows ==> r.Keys == columns
    }
  }

  /** Column names of the edge records. */
  const SourceColumn: string := "source"
  const TargetColumn: string := "target"

  /** The cell of `r` in column `c`; a column the row lacks reads as NaN. */
  function Cell(r: Row, c: string): Value {
    if c in r then r[c] else Missing
  }

  /** The cells of column `c` over some rows. */
  function ColumnValues(rows: seq<Row>, c: string): set<Value> {
    set row | row in rows :: Cell(row, c)
  }

  /** `set(frame[c])`: the values of one column, raising on a missing column
      even when the frame has no rows. */
  function ColumnSet(t: Table, c: string): (r: Result<set<Value>, Error>)
    ensures r.Failure? <==> c !in t.columns
    ensures r.Failure? ==> r.error == KeyError(c)
    ensures r.Success? ==> forall v :: v in r.value <==> exists row :: row in t.rows && Cell(row, c) == v
  {
    if c !in t.columns then Failure(KeyError(c))
    else Success(ColumnValues(t.rows, c))
  }
}
