/** Failure-compatible wrappers for the Python exceptions the modelled code can raise. */
module Results {

  /** The exception classes the scripts' post-processing can raise on malformed input. */
  datatype Error = IndexError | ValueError

  datatype Option<+T> = None | Some(value: T)

  /** Either the value a Python expression computes or the exception it raises. */
  datatype Result<+T> = Ok(value: T) | Err(error: Error) {

    predicate IsFailure() {
      Err?
    }

    function PropagateFailure<U>(): Result<U>
      requires Err?
    {
      Err(error)
    }

    function Extract(): T
      requires Ok?
    {
      value
    }
  }
}
