/** Option and Result, used for the optional fields of the stored records and
    for the error answers of the gallery API. */
module Wrappers {

  datatype Option<+T> = None | Some(value: T) {
    /** The value, or `default` when absent (PHP's `??`; on the client, `x || d` for a missing field and a default parameter such as `tag = 'nature'`). */
    function GetOr(default: T): T {
      match this
      case Some(v) => v
      case None => default
    }
  }

  datatype Result<+R, +E> = Success(value: R) | Failure(error: E)
}
