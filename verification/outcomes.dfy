/** Outcomes of the modelled operations: a value, or one of the Python
    exceptions the scripts can raise on their inputs. */
module Outcomes {

  /** `IndexOutOfRange` is Python's IndexError (an array indexed past its end);
      `DivisionByZero` is Python's ZeroDivisionError (a Python int divided by
      0); `InfiniteToInt` is the OverflowError of `int()` on an infinite float;
      `NanToInt` is the ValueError of `int()` on a NaN. */
  datatype Error = IndexOutOfRange | DivisionByZero | InfiniteToInt | NanToInt

  datatype Result<T> = Success(value: T) | Failure(error: Error)
}
