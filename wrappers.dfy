/** Failure-carrying results shared by the whole model.
    The C++ code reports misuse by throwing `std::invalid_argument`; through
    `std::vector::at` it throws `std::out_of_range`, and a `std::vector` asked
    for more elements than it can hold throws `std::length_error`.  Each
    becomes a `Failure` here. */
module Wrappers {

  /** The exception classes the library throws. */
  datatype Exception = InvalidArgument | OutOfRange | LengthError

  datatype Option<+T> = None | Some(value: T)

  datatype Result<+T> = Success(value: T) | Failure(error: Exception) {
    predicate IsFailure() { Failure? }

    function PropagateFailure<U>(): Result<U>
      requires Failure?
    {
      Failure(error)
    }

    function Extract(): T
      requires Success?
    {
      value
    }
  }
}
