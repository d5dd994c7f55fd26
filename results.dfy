/** Small value types shared by the model: optional values, results and the
    one exception the matrix raises. */
module Results {

  datatype Option<+T> = None | Some(value: T)

  /** The exceptions a matrix operation throws. The only one the source
      raises is `std::out_of_range`, for a row index that is too large. */
  datatype Error = OutOfRange

  /** The outcome of an operation that returns nothing or throws. */
  datatype Outcome = Pass | Fail(error: Error)

  /** The outcome of an operation that returns a value or throws. */
  datatype Result<+R> = Success(value: R) | Failure(error: Error)
}
