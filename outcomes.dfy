/** Results of computations that can raise a Python exception. */
module Outcomes {

  /** The exceptions the estimates can raise on their own inputs:
      `ZeroDivisionError` from `//`, and the `ValueError` ("math domain
      error") that `math.log2` raises for an argument that is not positive. */
  datatype PyError = ZeroDivisionError | MathDomainError

  datatype Result<T> = Ok(value: T) | Err(error: PyError)
}
