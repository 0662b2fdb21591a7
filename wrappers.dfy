/** Optional values and results with an error, standing for Go's nil pointers
    and its (value, error) return pairs. */
module Wrappers {

  /** A Go pointer that may be nil: `None` is nil, `Some(v)` points to `v`. */
  datatype Option<+T> = None | Some(value: T) {

    /** The pointed-to value, or `default` when nil. */
    function GetOr(default: T): T {
      match this
      case Some(v) => v
      case None => default
    }
  }

  /** A Go `(value, error)` pair where exactly one side is meaningful. */
  datatype Result<+T, +E> = Ok(value: T) | Err(error: E)
}
