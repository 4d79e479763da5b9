/** Option and Result values standing in for Java's nullable returns and exceptions. */
module Wrappers {

  /** `None` plays the part of a Java `null` result. */
  datatype Option<+T> = None | Some(value: T)

  /** The exceptions the modelled classes throw. */
  datatype Error =
    | NullPointer           // java.lang.NullPointerException
    | NoSuchElement         // java.util.NoSuchElementException
    | IndexOutOfBounds      // java.lang.IndexOutOfBoundsException
    | IllegalArgument       // java.lang.IllegalArgumentException

  /** A call that either returns a value or throws. */
  datatype Result<+R> = Success(value: R) | Failure(error: Error)

  /** A call without a result that either completes or throws. */
  datatype Outcome = Pass | Fail(error: Error)
}
