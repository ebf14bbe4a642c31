/** Optional arguments and failing results, as the matrix routines use them. */
module Wrappers {

  /** A Python argument that may be `None`. */
  datatype Option<T> = None | Some(value: T) {

    /** The argument, or `default` when it is `None`. */
    function GetOr(default: T): T {
      match this
      case Some(v) => v
      case None => default
    }
  }

  /** A result, or the failure of an `assert` inside the routine that computes it. */
  datatype Result<T> = Ok(value: T) | Failure(message: string)

  /** Python truthiness of an optional integer argument: neither `None` nor `0`. */
  predicate Truthy(x: Option<int>) {
    x.Some? && x.value != 0
  }
}
