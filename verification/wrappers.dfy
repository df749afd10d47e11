/** Option and Result values used throughout the model in place of the
    source's `None`, `Option<T>`, `Result<T, E>` and raised exceptions. */
module Wrappers {

  datatype Option<+T> = None | Some(value: T)

  datatype Result<+T, +E> = Ok(value: T) | Err(error: E)
}
