/** Option and Result, the two failure-carrying datatypes the model threads
    through operations whose Python originals return None or raise. */
module Wrappers {

  datatype Option<+T> = None | Some(value: T)

  datatype Result<+T, +E> = Ok(value: T) | Err(error: E)
}
