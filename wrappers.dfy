/** Optional values and error-or-value results, used where the analyzer has an
    absent field (`dict.get`) or an exception path. */
module Wrappers {

  datatype Option<+T> = None | Some(value: T)

  datatype Result<+T, +E> = Ok(value: T) | Err(error: E)

  /** Accept/reject verdict of a check that returns nothing when it passes. */
  datatype Outcome<+E> = Pass | Fail(error: E)
}
