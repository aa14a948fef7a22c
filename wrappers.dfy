/** Failure-compatible wrappers shared by every module of the model. */
module Wrappers {

  /** A value that may be absent: mongoose's `null` for an optional field or a missed lookup. */
  datatype Option<+T> = None | Some(value: T)

  /** The outcome of an operation that can fail with an error of type E. */
  datatype Result<+R, +E> = Success(value: R) | Failure(error: E)
}

/** Identifiers and clock values as the store sees them. */
module Documents {

  /** A document's `_id`. Request bodies carry ids as strings, so ids are strings here. */
  type ObjectId = string

  /** A clock reading (`new Date()`), passed in by the caller. */
  type Timestamp = nat
}
