/** Small value types shared by the registry's modules. */
module Common {

  /** A value that may be missing: a C# reference that may be null. */
  datatype Option<+T> = None | Some(value: T)

  /** A computed value or the exception that ended the computation. */
  datatype Result<+T, +E> = Success(value: T) | Failure(error: E)

  /** A computation that only succeeds or fails: a method returning `Task`. */
  datatype Outcome<+E> = Pass | Fail(error: E)

  /** An `ArgumentNullException` naming the parameter that was null. */
  datatype ArgumentNullException = ArgumentNull(paramName: string)

  newtype byte = x: int | 0 <= x < 256

  /** The content of a stream or a file. */
  type Bytes = seq<byte>
}
