/** Missing values and failing runs. */
module Wrappers {

  /** A cell that may be missing (pandas' NaN / NaT). */
  datatype Option<+T> = None | Some(value: T) {

    /** The value, or `default` when missing (pandas' fillna). */
    function GetOr(default: T): T {
      match this
      case Some(v) => v
      case None => default
    }
  }

  /** The outcome of a run of the whole script. */
  datatype Result<+T, +E> = Success(value: T) | Failure(error: E)
}
