/** Option and Result: a value the spreadsheet may leave empty, and an
    operation that may fail with an error value. */
module Wrappers {

  /** A possibly absent value; a missing spreadsheet cell is `None`. */
  datatype Option<+T> = None | Some(value: T)

  /** The outcome of an operation that can be refused. */
  datatype Result<+R, +E> = Success(value: R) | Failure(error: E)
}
