/** Exceptions the core raises or passes on, and the result of an operation
    that may throw one. */
module Outcomes {

  datatype Kind =
    | ArgumentError        // System.ArgumentException, also a duplicate dictionary key
    | ArgumentOutOfRange   // System.ArgumentOutOfRangeException, an ArgumentException
    | DivideByZero         // System.DivideByZeroException
    | Overflow             // System.OverflowException
    | InvalidOperation     // System.InvalidOperationException
    | NullReference        // System.NullReferenceException
    | NotImplemented       // System.NotImplementedException
    | Raised(name: string) // any exception a property under test throws

  /** An exception with its message text. */
  datatype Exception = Exception(kind: Kind, message: string)

  datatype Outcome<T> = Ok(value: T) | Throw(error: Exception)

  /** A runtime exception whose message the core never reads. */
  function Runtime(k: Kind): Exception {
    Exception(k, "")
  }
}
