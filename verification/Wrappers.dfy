/** Option and Result, the two shapes the source's `optional<T>` and exceptions take. */
module Wrappers {
  datatype Option<+T> = None | Some(value: T)

  datatype Result<+T, +E> = Ok(value: T) | Err(error: E)
}
