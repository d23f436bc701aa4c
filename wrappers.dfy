/** Option and Result values used where the source returns None or raises. */
module Wrappers {

  datatype Option<+T> = None | Some(value: T)

  /** The errors the modelled Python code can raise. */
  datatype Error =
    | DivisionByZero  // ZeroDivisionError
    | ValueError      // datetime(...) given an out-of-range year, month or day
    | OverflowError   // datetime arithmetic that leaves the years 1 .. 9999

  datatype Result<+T> = Success(value: T) | Failure(error: Error)
}
