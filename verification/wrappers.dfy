/** Option and Result: the absent value and the failing computation of the model. */
module Wrappers {

  /** A value that may be absent (Python's `None`). */
  datatype Option<+T> = None | Some(value: T)

  /** A computation that either succeeds with a value or fails with an error (a raised exception). */
  datatype Result<+R, +E> = Success(value: R) | Failure(error: E) {

    /** Forgets the error: a failure becomes `None`. */
    function ToOption(): (r: Option<R>)
      ensures r.Some? <==> Success?
      ensures Success? ==> r.value == value
    {
      match this
      case Success(v) => Some(v)
      case Failure(_) => None
    }
  }
}
