/** Option and Result values, and the Python exceptions the recipe pipeline can raise. */
module Wrappers {

  datatype Option<+T> = None | Some(value: T) {
    /** The value if present, otherwise `default` (Python's `x or default` for a value that is never falsy). */
    function GetOr(default: T): T {
      match this
      case Some(v) => v
      case None => default
    }
  }

  datatype Result<+T, +E> = Ok(value: T) | Err(error: E)

  /** The exceptions the recipe pipeline raises: a failed `assert`, `seq[i]` out of range,
      and a failed starred unpacking of an empty group. */
  datatype Exception = AssertionError | IndexError | ValueError
}
