/** Optional values (the source's `null` / `undefined`) and failure results
    (the source's thrown errors). */
module Wrappers {

  datatype Option<+T> = None | Some(value: T)

  datatype Result<+T, +E> = Ok(value: T) | Err(error: E)
}
