/**
 The tabular data model shared by every stage of the clinician mart pipeline:
 a table is a header (the ordered column names) and a sequence of rows, and a
 row maps column names to cells. A cell is `None` for a missing value.
 */
module Tables {

  datatype Option<+T> = None | Some(value: T)

  /** One record of a data frame. */
  type Row = map<string, Option<string>>

  /** A data frame: its header and its rows, in row order. */
  datatype Table = Table(columns: seq<string>, rows: seq<Row>)

  /** The two source datasets the mart is built from. */
  datatype Source = Clinicians | Providers

  datatype Error =
    /** Selecting a column the frame does not have (a `KeyError`). */
    | ColumnNotFound(column: string)
    /** A mapped source column missing from its source dataset. */
    | SourceColumnNotFound(source: Source, column: string)
    /** Duplicate detection over an empty list of key columns. */
    | EmptyKey

  datatype Result<+T> = Ok(value: T) | Err(error: Error) {
    predicate IsFailure() { Err? }

    function PropagateFailure<U>(): Result<U>
      requires Err?
    {
      Err(error)
    }

    function Extract(): T
      requires Ok?
    {
      value
    }
  }

  /** The cell of column `c` in row `r`; a column the row lacks reads as missing. */
  function Cell(r: Row, c: string): Option<string>
  {
    if c in r then r[c] else None
  }

  /** The header names distinct columns. */
  ghost predicate DistinctColumns(cols: seq<string>)
  {
    forall i, j | 0 <= i < j < |cols| :: cols[i] != cols[j]
  }

  /** Every row carries exactly the columns of the header, and the header has no repeats. */
  ghost predicate WellFormed(t: Table)
  {
    && DistinctColumns(t.columns)
    && forall i | 0 <= i < |t.rows| :: t.rows[i].Keys == set c | c in t.columns
  }
}
