/** Failure-carrying results used throughout the model, and the exceptions the
    Java code throws. */
module Results {

  datatype Option<+T> = None | Some(value: T)

  /** The exceptions of the Java code. `EscherException` carries its message;
      `InvalidUri` is the `EscherException` that wraps a `URISyntaxException`;
      `NoSuchElement` is the unchecked exception of `Optional.get` on an empty
      stream reduction. */
  datatype Error =
    | EscherException(message: string)
    | InvalidUri(url: string)
    | NoSuchElement

  datatype Result<+T> = Success(value: T) | Failure(error: Error)
}
