/** Option and Result: the source's `Option<T>` and the failed `assert!`/`require!`
    of a contract call (a NEAR panic), returned as a value instead. */
module Wrappers {

  datatype Option<+T> = None | Some(value: T)

  datatype Result<+T, +E> = Ok(value: T) | Err(error: E)
}
