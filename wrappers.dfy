/** Optional values and results with an error message, used throughout the model. */
module Wrappers {

  datatype Option<+T> = None | Some(value: T)

  /** The outcome of a step that may fail; `Err` carries a human-readable description. */
  datatype Result<+T> = Ok(value: T) | Err(error: string)
}
