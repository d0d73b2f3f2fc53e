/** Optional values and results with an error, used for Python's `Optional[...]`
    and for the exceptions the modelled functions raise. */
module Wrappers {

  datatype Option<+T> = None | Some(value: T)

  datatype Result<+T, +E> = Ok(value: T) | Err(error: E)
}
