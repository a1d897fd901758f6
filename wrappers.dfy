/** Optional values and results that carry an error message in place of a thrown exception. */
module Wrappers {

  datatype Option<+T> = None | Some(value: T)

  /** `Err(message)` stands for a thrown `Error` whose message text is `message`. */
  datatype Result<+T> = Ok(value: T) | Err(error: string)
}
