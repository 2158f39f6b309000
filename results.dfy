/** Option and Result values: a NaN cell, and an operation that can raise. */
module Results {

  /** `None` stands for pandas' missing value (NaN). */
  datatype Option<+T> = None | Some(value: T)

  /** `Failure` stands for an exception the dashboard does not catch. */
  datatype Result<+T, +E> = Success(value: T) | Failure(error: E)
}
