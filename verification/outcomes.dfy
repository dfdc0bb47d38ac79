/** Optional values and the error outcomes of a filter design. */
module Outcomes {

  datatype Option<+T> = None | Some(value: T) {
    function GetOr(default: T): T {
      match this
      case Some(v) => v
      case None => default
    }
  }

  /** Why a design request produced no filter. The first two are the `ValueError`s the
      designer raises; `DivisionByZero` stands for a numpy division by zero, which yields
      inf/nan coefficients instead of a usable filter. */
  datatype FilterError =
    | RippleNotNegative(ripple: real)
    | NonPositiveY(y: real)
    | DivisionByZero

  datatype Result<+T> = Success(value: T) | Failure(error: FilterError) {
    predicate IsFailure() {
      Failure?
    }

    function PropagateFailure<U>(): Result<U>
      requires Failure?
    {
      Failure(error)
    }

    function Extract(): T
      requires Success?
    {
      value
    }
  }
}
