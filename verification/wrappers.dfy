/** Option and Result, used for a regex search that may find nothing and for the
    Python exceptions of the escaper's top-level dispatch. */
module Wrappers {

  datatype Option<+T> = None | Some(value: T)

  datatype Result<+T, +E> = Ok(value: T) | Err(error: E)
}
