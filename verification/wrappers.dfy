/** Option and Result values for the library's null returns and thrown errors. */
module Wrappers {

  /** A value that may be absent (the source's `null`). */
  datatype Option<+T> = None | Some(value: T)

  /** The outcome of an operation that either returns a value or throws an error with a message. */
  datatype Result<+T> = Ok(value: T) | Err(message: string) {
    predicate IsOk() { Ok? }
  }
}
