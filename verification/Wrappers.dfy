/** Optional and failing results, used where the source returns an empty
    `optional`, throws, or is rejected by the compiler. */
module Wrappers {
  datatype Option<+T> = None | Some(value: T)

  datatype Result<+T, +E> = Ok(value: T) | Err(error: E)
}
