/** Values standing in for Java's null references and for the exceptions the image kit throws. */
module Outcomes {

  /** A Java reference that may be null: None stands for null. */
  datatype Option<+T> = None | Some(value: T)

  /** The two exception classes the image kit throws, each with its message. */
  datatype Error =
    | IllegalArgument(message: string)  // java.lang.IllegalArgumentException
    | IOError(message: string)          // java.io.IOException

  /** The outcome of a Java call: either it returns a value or it throws. */
  datatype Result<+T> = Success(value: T) | Failure(error: Error)
}
