/** Optional values and the outcome of an operation that may throw. */
module Wrappers {

  datatype Option<+T> = None | Some(value: T)

  /** `Err(message)` stands for a JavaScript `throw new Error(message)`. */
  datatype Result<+T> = Ok(value: T) | Err(message: string)
}
