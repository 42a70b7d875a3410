/** Optional values and results that carry an error, used for the source's
    nullable columns and for the exceptions its operations raise. */
module Wrappers {

  datatype Option<+T> = None | Some(value: T)

  datatype Result<+T, +E> = Ok(value: T) | Err(error: E)
}
