/** Outcome datatypes shared by the dictionary model. */
module Wrappers {

  /** A value that may be missing; `None` stands for the Java `null` sentinel. */
  datatype Option<+T> = None | Some(value: T)

  /** Either a computed value or the exception a Java method would have thrown. */
  datatype Result<+R, +E> = Success(value: R) | Failure(error: E)
}
