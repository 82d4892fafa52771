/** The `Option` and `Result` wrappers shared by every module of the model, and the
    byte type used for file contents and object keys. */
module Wrappers {

  /** An optional value: Rust's `Option`. */
  datatype Option<+T> = None | Some(value: T) {
    function GetOr(default: T): T {
      match this
      case Some(v) => v
      case None => default
    }
  }

  /** A success value or an error value: Rust's `Result`. */
  datatype Result<+R, +E> = Success(value: R) | Failure(error: E)

  /** An unsigned 8-bit integer (Rust's `u8`). */
  newtype byte = x: int | 0 <= x < 256

  type Bytes = seq<byte>
}
