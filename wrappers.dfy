/** Option and Result, the two wrappers the job store uses for absent query
    values and for the generic failure a request handler reports. */
module Wrappers {

  /** A value that may be absent: a query parameter that does not parse. */
  datatype Option<+T> = None | Some(value: T) {

    /** The wrapped value, or `default` when there is none. */
    function GetOr(default: T): T {
      match this
      case Some(v) => v
      case None => default
    }
  }

  /** The outcome of a request: a success value or an error value. */
  datatype Result<+T, +E> = Ok(value: T) | Err(error: E)
}
