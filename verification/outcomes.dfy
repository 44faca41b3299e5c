/** Failure-carrying values shared by the other modules. */
module Outcomes {

  /** A value that may be absent: a filename that yields no document id. */
  datatype Option<+T> = None | Some(value: T)

  /** Either a computed value or the error the computation raised. */
  datatype Result<+T, +E> = Ok(value: T) | Err(error: E)
}
