/** Optional values and results, standing in for the source's `undefined`/`null` returns,
    the numeric sentinel `0` of the radix converters, and thrown errors. */
module Options {

  datatype Option<+T> = None | Some(value: T) {
    function GetOr(default: T): T {
      match this
      case Some(v) => v
      case None => default
    }
  }

  datatype Result<+R, +E> = Success(value: R) | Failure(error: E)
}
