/** Outcomes of the calculators: a value, or the exception the Python code raises. */
module Results {

  /** The exceptions the calculators can raise. */
  datatype Error =
    | DivisionByZero          // Python's ZeroDivisionError
    | ZeroCost                // ValueError("Cost cannot be zero")
    | InvalidMode(mode: string) // ValueError(f"Invalid mode '{mode}'")
    | EmptyEstimates          // ValueError("Estimate list cannot be empty")

  datatype Result<T> = Ok(value: T) | Err(error: Error)
}
