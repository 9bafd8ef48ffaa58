/** Values shared by every module: optional values, Java-style exceptions
    and the results of operations that may throw them. */
module Base {

  datatype Option<+T> = None | Some(value: T)

  /** The Java exception kinds the modelled code throws or lets through. */
  datatype Exception =
    | IOException(message: string)
    | IllegalArgument(message: string)
    | IndexOutOfBounds(index: int)
    | NullPointer
    | IllegalState(message: string)
    | UnsupportedOperation(message: string)
    | JsonParse(message: string)
    | ClassCast(message: string)
  {
    /** Checked exceptions that a `catch (IOException e)` handler catches. */
    predicate IsIO() { IOException? }
  }

  /** The value an operation returns, or the exception it throws. */
  datatype Result<+T> = Ok(value: T) | Err(error: Exception)

  /** Completion of an operation that returns nothing. */
  datatype Outcome = Pass | Fail(error: Exception)

  /** One unsigned byte of an archive entry. */
  newtype byte = x: int | 0 <= x < 256
}
