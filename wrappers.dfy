/** Option and Result values: `None` for Python's `None`, `Err` for a raised exception. */
module Wrappers {

  datatype Option<T> = None | Some(value: T)

  datatype Result<T, E> = Ok(value: T) | Err(error: E)
}
