/** Failure-carrying results shared by every model module. */
module Wrappers {

  datatype Option<+T> = None | Some(value: T)

  datatype Result<+T, +E> = Ok(value: T) | Err(error: E)

  /** A merge patch of one field: unchanged, or with its part of the patch lost, it keeps the server's value. */
  function Merge<T(==)>(applied: bool, server: T, before: T, after: T): T {
    if !applied || before == after then server else after
  }
}
