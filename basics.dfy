/** Option and Result values for partial operations: Python's `int()` can fail and
    `parse_log` can raise, and the model returns those outcomes as values. */
module Basics {

  datatype Option<T> = None | Some(value: T)

  datatype Result<T, E> = Ok(value: T) | Err(error: E)
}
