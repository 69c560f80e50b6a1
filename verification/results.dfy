/** Option and Result datatypes used for the source's null returns and exceptions. */
module Results {

  /** A Java reference that may be null. */
  datatype Option<+T> = None | Some(value: T)

  /** The normal return of an operation or the exception it raises. */
  datatype Result<+T, +E> = Ok(value: T) | Err(error: E) {
    predicate IsFailure() { Err? }

    function PropagateFailure<U>(): Result<U, E>
      requires Err?
    {
      Err(error)
    }

    function Extract(): T
      requires Ok?
    {
      value
    }
  }
}
