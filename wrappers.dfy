/** Optional values, results and the one error kind the library raises. */
module Wrappers {

  /** A PHP `null|T` value. */
  datatype Option<+T> = None | Some(value: T) {
    function GetOr(default: T): T {
      match this
      case Some(v) => v
      case None => default
    }
  }

  /** PHP's InvalidArgumentException, with its message. */
  datatype Error = InvalidArgument(message: string)

  /** The outcome of an operation that either returns a value or throws. */
  datatype Result<+T> = Success(value: T) | Failure(error: Error)
}
