/** Null, exceptions and "no value" as datatypes.
    A C# reference that may be null is an Option; an operation that may
    throw returns a Result (with a value) or an Outcome (without one). */
module Wrappers {

  datatype Option<+T> = None | Some(value: T) {
    /** The value, or the given fallback when there is none (C#'s `??`). */
    function GetOr(fallback: T): T {
      match this
      case Some(v) => v
      case None => fallback
    }
  }

  datatype Result<+R, +E> = Success(value: R) | Failure(error: E)

  datatype Outcome<+E> = Pass | Fail(error: E)

  /** The .NET exceptions the modelled code raises, with the parameter name
      each one reports. */
  datatype Exception =
    | ArgumentNull(paramName: string)
    | ArgumentOutOfRange(paramName: string)
    | NullReference
}
