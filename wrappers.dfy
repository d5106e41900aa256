/** Option and Result values used across the model in place of PHP's
    `false` / `''` sentinels and its exceptions. */
module Wrappers {

  datatype Option<+T> = None | Some(value: T)

  datatype Result<+T, +E> = Ok(value: T) | Err(error: E)
}
