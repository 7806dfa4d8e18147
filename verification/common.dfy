/** Failure-compatible wrappers shared by every module of the model. */
module Common {

  /** An optional value; `None` plays the part of Python's `None` return. */
  datatype Option<+T> = None | Some(value: T)

  /** Either a value or the error a Python call would have raised. */
  datatype Result<+T, +E> = Success(value: T) | Failure(error: E)

  /** The smaller of two integers. */
  function Min(a: int, b: int): (m: int)
    ensures m <= a && m <= b
    ensures m == a || m == b
  {
    if a <= b then a else b
  }
}
