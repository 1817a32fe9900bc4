/** Optional values and results with an error, used wherever the source returns
    None/null or an error object instead of a value. */
module Wrappers {

  datatype Option<+T> = None | Some(value: T)

  datatype Result<+T, +E> = Ok(value: T) | Err(error: E)

  /** A success flag with an error for the failing case: `{success: false, error}`. */
  datatype Outcome<+E> = Pass | Fail(error: E)
}
