/** Optional values and success/failure results, used wherever the modelled
    code can fail (a decode that yields no image, a rejected argument list). */
module Wrappers {

  /** A value that may be absent. */
  datatype Option<+T> = None | Some(value: T)

  /** Either a value or the reason there is none. */
  datatype Result<+R, +E> = Success(value: R) | Failure(error: E)
}
