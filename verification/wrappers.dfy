/** Wrappers shared by the model: an optional value and a value-or-error
    result. Go's `(T, error)` returns and nil pointers map onto these. */
module Wrappers {

  /** A value that may be absent; stands for a Go pointer that may be nil. */
  datatype Option<+T> = None | Some(value: T) {

    /** Returns the wrapped value or a default when absent. */
    function GetOr(default: T): T {
      match this
      case Some(v) => v
      case None => default
    }
  }

  /** Either a value or an error; stands for Go's `(value, error)` pair in which
      exactly one side is meaningful. */
  datatype Result<+R, +E> = Success(value: R) | Failure(error: E)
}
