/** Optional values and results with an error, for the library's optional
    arguments, its `undefined` returns and the errors it throws. */
module Wrappers {
  datatype Option<T> = None | Some(value: T)

  datatype Result<T, E> = Ok(value: T) | Err(error: E)
}
