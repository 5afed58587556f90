/** Outcomes of operations that can fail. The Rust source panics in these places;
    the model returns the failure as a value instead. */
module Wrappers {

  datatype Option<+T> = None | Some(value: T)

  datatype Result<+T, +E> = Ok(value: T) | Err(error: E)
}
