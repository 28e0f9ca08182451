/** The one error the core raises, and the outcome of an operation that can raise it. */
module Results {

  /** `DivideByZeroException` (GaussianElimination/Math.cs:45): a fraction was
      asked to have denominator zero. */
  datatype Error = DivideByZero

  datatype Result<T> = Ok(value: T) | Err(error: Error)
}
