/** Optional values and results with an error, shared by the other modules. */
module Wrappers {

  datatype Option<+T> = None | Some(value: T)

  datatype Result<+T, +E> = Ok(value: T) | Err(error: E)

  /** The result of a step run for its effect: it completed, or it raised `error`. */
  datatype Outcome<+E> = Pass | Fail(error: E)
}
