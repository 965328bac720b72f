/** Failure-carrying values shared by every module of the model. */
module Wrappers {

  datatype Option<+T> = None | Some(value: T) {
    function GetOr(default: T): T {
      match this
      case Some(v) => v
      case None => default
    }
  }

  /** A Rust `Result` whose error side is the text the program formats into its messages. */
  datatype Result<+T> = Ok(value: T) | Err(error: string)

  /**
   * What a Rust call does: it returns a value, or it panics (an `unwrap` on `None`,
   * an index out of bounds, `unreachable!`, `panic!`) with the panic's message.
   */
  datatype Outcome<+T> = Returned(value: T) | Panicked(message: string)

  /** The message Rust's `Option::unwrap` panics with. */
  const UnwrapNone := "called `Option::unwrap()` on a `None` value"
}
