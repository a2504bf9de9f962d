/**
 * Outcome of an operation that can throw in the encoder: either a value or
 * the kind of exception the encoder would raise.
 */
module Wrappers {

  /** The exceptions the encoder can raise, named after their .NET types. */
  datatype Error =
    | ArgumentNull          // a required argument was null
    | Argument              // an argument had an invalid value or shape
    | ArgumentOutOfRange    // an enum argument was outside its declared members
    | IndexOutOfRange       // an array was indexed outside its bounds
    | DivideByZero          // 0 raised to the power 0
    | Overflow              // a checked int32 computation overflowed
    | InputTooLong          // no version can hold the payload
    | InvalidOperation      // a level outside the four the format information encodes

  datatype Option<+T> = None | Some(value: T)

  datatype Result<+T> = Success(value: T) | Failure(error: Error)
  {
    predicate IsFailure() {
      Failure?
    }

    function PropagateFailure<U>(): Result<U>
      requires Failure?
    {
      Failure(error)
    }

    function Extract(): T
      requires Success?
    {
      value
    }
  }
}
