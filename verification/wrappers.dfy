/** Failure-compatible wrappers shared by every module: an optional value (the
    source's `null`) and a result that carries either a value or the kind of
    exception the source throws. */
module Wrappers {

  datatype Option<+T> = None | Some(value: T) {
    predicate IsFailure() { None? }

    function PropagateFailure<U>(): Option<U>
      requires None?
    {
      None
    }

    function Extract(): T
      requires Some?
    {
      value
    }
  }

  /** Which of two definitions a member follows where the source deviates
      from its evident intent: the code as written, or the corrected one. */
  datatype Variant = AsWritten | Corrected

  /** The exception kinds thrown by the modelled code. */
  datatype Exception =
    | IllegalArgument        // java.lang.IllegalArgumentException
    | IllegalState           // java.lang.IllegalStateException
    | IndexOutOfBounds       // java.lang.IndexOutOfBoundsException / array bounds
    | RouteFailed            // ca.bc.gov.catchment.routes.RouteException
    | ValueError             // Python float() of a malformed token
    | ZeroDivision           // Python division by zero

  datatype Result<+T> = Ok(value: T) | Err(error: Exception) {
    predicate IsFailure() { Err? }

    function PropagateFailure<U>(): Result<U>
      requires Err?
    {
      Err(error)
    }

    function Extract(): T
      requires Ok?
    {
      value
    }
  }
}
