/** Option and Result, the failure-carrying types the model uses for Python's
    `None`, and for the exceptions the source lets escape. */
module Results {

  datatype Option<+T> = None | Some(value: T)

  datatype Result<+T, +E> = Success(value: T) | Failure(error: E)
}
