/**
 * Result and error types shared by the model.
 *
 * `Error` mirrors the crate's error enum (src/errors.rs). The wrapped library
 * errors (`csv::Error`, `anyhow::Error`, `std::io::Error`) are reduced to the
 * information the core produces itself: the failing record and the decoder's
 * message.
 */
module Errors {

  datatype Option<+T> = None | Some(value: T) {

    /** `Option::unwrap_or`. */
    function GetOr(default: T): T {
      match this
      case Some(v) => v
      case None => default
    }
  }

  datatype Result<+T, +E> = Ok(value: T) | Err(error: E)

  datatype Error =
    | ActivityFormatError(record: nat, message: string)
    | DBFormatError(message: string)
    | IOError(filePath: string)
    | Unknown
}
