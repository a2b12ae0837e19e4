/** Failures of the arc-length engine. Each constructor stands for one of the
    exceptions the Python implementation raises, so that every error path is
    a value instead of a precondition. */
module Outcomes {

  datatype Error =
    | InvalidArgument        // ValueError "invalid count"/"invalid length"; the `segments > 0` assertion
    | OutOfRange             // ValueError "distance out of range"
    | InsufficientVertices   // ValueError "not enough vertices for interpolation"
    | EmptyPolyline          // ValueError "empty polyline"
    | IndexOutOfRange        // IndexError of a Python list access
    | InternalInconsistency  // ArithmeticError "internal interpolation error"

  /** Either the value an operation returns or the error it raises. */
  datatype Result<+T> = Ok(value: T) | Err(error: Error)
}
