/** Optional values and results with an error, used for the missing-value marker
    (`None`/`NaN`) and for the exceptions the pipeline raises. */
module Wrappers {

  datatype Option<+T> = None | Some(value: T)

  datatype Result<+T, +E> = Ok(value: T) | Err(error: E)
}
