/** Option and Result, used by every module for the source's optional values and error returns. */
module Wrappers {

  datatype Option<+T> = None | Some(value: T) {
    function GetOr(default: T): T {
      match this
      case Some(v) => v
      case None => default
    }
  }

  datatype Result<+T, +E> = Ok(value: T) | Err(error: E)
}

/** Values shared by the streaming and batch executors: datums, rows and change operations. */
module Rows {
  import opened Wrappers

  /** A nullable scalar; `None` is SQL NULL. Scalars are integers in this model. */
  type Datum = Option<int>

  type Row = seq<Datum>

  /** The four operations of a changelog (stream chunk) row. */
  datatype Op = Insert | Delete | UpdateDelete | UpdateInsert {
    /** Insert and UpdateInsert add a row downstream; Delete and UpdateDelete retract one. */
    predicate Adds() { this == Insert || this == UpdateInsert }
  }

  /** Column types, reduced to the tags the model distinguishes. */
  datatype DataType = Boolean | Int16 | Int32 | Int64 | Float64 | Decimal | Varchar | Timestamp

  /** `row.project(indices)` / `row_by_indices`: the datums at the given positions, in order. */
  function Project(row: Row, indices: seq<nat>): (r: Row)
    requires forall i :: 0 <= i < |indices| ==> indices[i] < |row|
  {
    seq(|indices|, i requires 0 <= i < |indices| => row[indices[i]])
  }

  /** All positions are within a row of the given width. */
  predicate IndicesWithin(indices: seq<nat>, width: nat) {
    forall i :: 0 <= i < |indices| ==> indices[i] < width
  }
}
