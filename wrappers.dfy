/** Option and Result: a C# null reference and a thrown exception, as values. */
module Wrappers {

  /** A reference that may be null: None stands for null. */
  datatype Option<+T> = None | Some(value: T)

  /** The outcome of a call that either returns a value or throws. */
  datatype Result<+T, +E> = Ok(value: T) | Err(error: E)
}
