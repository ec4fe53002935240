/** Optional values and unit-valued results, the shapes the pool's API returns. */
module Wrappers {

  /** An optional value, as returned by `set_first_used` and by the iterator. */
  datatype Option<+T> = None | Some(value: T)

  /** `Result<(), E>`: success carries no value, failure carries the error tag. */
  datatype Outcome<+E> = Ok | Err(error: E)
}
