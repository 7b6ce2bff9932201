/** Option and Result, used for the regex searches that may find nothing and for the
    one failure that aborts a compilation. */
module Wrappers {

  datatype Option<+T> = None | Some(value: T)

  datatype Result<+T, +E> = Ok(value: T) | Err(error: E)
}
