/** Failure-carrying results shared by the model. */
module Wrappers {

  datatype Option<T> = None | Some(value: T)

  /** Why a Rust operation of the endpoint panics: indexing a `Vec` past its end,
      `unwrap` on a failed `parse`, or a `usize` subtraction that underflows
      (which panics in debug builds). */
  datatype Panic = IndexOutOfBounds | UnwrapOnParseError | SubtractWithOverflow

  /** The outcome of an operation that either returns a value or panics. */
  datatype Result<T> = Ok(value: T) | Err(panic: Panic)
}
