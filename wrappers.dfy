/** Optional values and fallible results, as the trie's lookups return them. */
module Wrappers {

  /** Rust's `Option<T>`: a lookup either finds something or it does not. */
  datatype Option<+T> = None | Some(value: T)

  /** Rust's `Result<T, String>`: the `try_*` lookups carry a byte path on failure. */
  datatype Result<+T, +E> = Ok(value: T) | Err(error: E)
}
