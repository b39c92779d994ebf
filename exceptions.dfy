/** The .NET exceptions the containers throw, and the result shapes that carry them. */
module Exceptions {

  datatype Exception =
    | InvalidOperation    // System.InvalidOperationException
    | ArgumentNull        // System.ArgumentNullException
    | ArgumentOutOfRange  // System.ArgumentOutOfRangeException
    | Argument            // System.ArgumentException
    | IndexOutOfRange     // System.IndexOutOfRangeException
    | NullReference       // System.NullReferenceException

  /** The value an operation returns, or the exception it throws instead. */
  datatype Result<+T> = Ok(value: T) | Throws(error: Exception)

  /** The outcome of an operation that returns nothing (C# `void`). */
  datatype Outcome = Done | Fails(error: Exception)
}
