/** Wrappers shared by the model: an optional value, and a value or an error. */
module Wrappers {

  /** A value that may be absent: an unreadable sysfs attribute, an operation that raised. */
  datatype Option<+T> = None | Some(value: T)

  /** A value, or the error that stopped its computation. */
  datatype Result<+R, +E> = Success(value: R) | Failure(error: E)

  function Min(a: int, b: int): int { if a <= b then a else b }

  function Max(a: int, b: int): int { if a >= b then a else b }
}
