/** Optional values and results with an error value, used for JavaScript's
    `undefined` and for the `assert` failures of the path validator. */
module Wrappers {

  datatype Option<+T> = None | Some(value: T)

  datatype Result<+T, +E> = Ok(value: T) | Err(error: E)
}
