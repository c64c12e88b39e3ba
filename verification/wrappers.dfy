/** Failure-compatible wrappers used where the modelled code can come back empty-handed. */
module Wrappers {

  /** An optional value: `None` stands for JavaScript's `null`/`undefined`
      or for a computation that has nothing to return. */
  datatype Option<+T> = None | Some(value: T)

  /** A value or the reason there is none. */
  datatype Result<+T, +E> = Success(value: T) | Failure(error: E)
}
