/** Optional values (JavaScript `undefined` / `null`) and results that carry an error message. */
module Options {

  datatype Option<+T> = None | Some(value: T) {

    /** The value, or `default` when absent (JavaScript `x ?? default`). */
    function GetOr(default: T): T {
      match this
      case Some(v) => v
      case None => default
    }
  }

  /** The outcome of an operation that may throw: a value or the thrown message. */
  datatype Result<+T> = Ok(value: T) | Err(message: string)
}
