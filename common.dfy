/**
 * Types shared by the validators: the octet they read, an optional value
 * and the verdict of a UTF-8 validation.
 */
module Common {

  /** One octet of the input slice (a Rust `u8`). */
  type byte = b: int | 0 <= b < 256

  datatype Option<+T> = None | Some(value: T)

  /**
   * `Result<(), Utf8Error>`: either the whole slice is well-formed, or the
   * index up to which it is (`valid_up_to`) and how many bytes form the
   * offending sequence (`error_len`, `None` when the input ends too early).
   */
  datatype Utf8Result = Ok | Err(validUpTo: nat, errorLen: Option<nat>)
}
