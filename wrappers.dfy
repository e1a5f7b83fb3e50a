/** Optional values and results that carry an error, as the rest of the model uses them. */
module Wrappers {

  /** A Java reference that may be null, or a java.util.Optional. */
  datatype Option<+T> = None | Some(value: T)

  /** A value, or the message of the exception that prevented it. */
  datatype Result<+T, +E> = Success(value: T) | Failure(error: E)
}
