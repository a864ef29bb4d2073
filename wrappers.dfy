/** Optional values (Java's nullable references) and results that may carry
    the runtime exception a Java call would have thrown. */
module Wrappers {

  /** `None` stands for Java's `null`. */
  datatype Option<+T> = None | Some(value: T) {
    function GetOr(default: T): T {
      match this
      case Some(v) => v
      case None => default
    }
  }

  /** `Err` stands for an exception that escapes the modelled Java code. */
  datatype Result<+T, +E> = Ok(value: T) | Err(error: E)
}
