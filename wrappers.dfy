/** Failure-compatible wrappers shared by the model: an optional value (a table
    field that may be missing) and a result that carries either a value or the
    error the script would raise. */
module Wrappers {

  datatype Option<+T> = None | Some(value: T)

  datatype Result<+R, +E> = Ok(value: R) | Err(error: E)
}
