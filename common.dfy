/** Small value types shared by the model of the dashboard helpers. */
module Common {

  /** A value that may be absent; for table cells, None stands for NaN. */
  datatype Option<+T> = None | Some(value: T) {

    /** The value, or `default` when absent (Python's `x or default` for dates). */
    function GetOr(default: T): T {
      match this
      case Some(v) => v
      case None => default
    }
  }

  /** The exceptions a helper can raise on inputs it does not handle. */
  datatype Error = KeyError(column: string) | ZeroDivisionError

  datatype Result<+R> = Ok(value: R) | Err(error: Error)
}
