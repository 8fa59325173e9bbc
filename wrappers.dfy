/** Optional values for Python's `None`-or-value results, and results that are
    either a value or an exception's message. */
module Wrappers {

  datatype Option<+T> = None | Some(value: T)

  datatype Result<+T, +E> = Ok(value: T) | Err(error: E)
}
