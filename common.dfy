/** Values shared by every module of the model: the optional value, the
    Python exceptions the modelled code raises, and a failure-compatible
    result type for operations that may raise one of them. */
module Common {

  datatype Option<+T> = None | Some(value: T)

  /** The exceptions the modelled Python code raises. `OverflowError` is what
      `int.to_bytes` raises for a value that does not fit; `UnicodeEncodeError`
      what `str.encode("ascii")` raises for a non-ASCII character. */
  datatype Exception = AssertionError | OverflowError | UnicodeEncodeError | ValueError

  /** Either the value an operation returns or the exception it raises. */
  datatype Result<+T> = Ok(value: T) | Err(error: Exception) {
    predicate IsFailure() {
      Err?
    }

    function PropagateFailure<U>(): Result<U>
      requires Err?
    {
      Err(error)
    }

    function Extract(): T
      requires Ok?
    {
      value
    }
  }
}
