/** Option and Result, the two failure-carrying datatypes the model uses
    for nullable columns, optional payload fields and handler errors. */
module Wrappers {

  /** A nullable value: a column that may hold NULL, or a payload field that may be None. */
  datatype Option<+T> = None | Some(value: T)

  /** The outcome of a handler: the affected row, or the error it signals. */
  datatype Result<+T, +E> = Ok(value: T) | Err(error: E)
}
