/** Failure-compatible result type shared by both halves of the model.
    The only failures the modelled code can raise are Python's built-in
    ValueError and IndexError. */
module Results {

  datatype Error = ValueError | IndexError

  datatype Option<+T> = None | Some(value: T)

  datatype Result<+R> = Success(value: R) | Failure(error: Error) {

    predicate IsFailure() {
      Failure?
    }

    function PropagateFailure<U>(): Result<U>
      requires Failure?
    {
      Failure(error)
    }

    function Extract(): R
      requires Success?
    {
      value
    }
  }
}
