/** The error taxonomy of the bonding-curve engine and the Option/Result
    plumbing its checked arithmetic is written in. */
module Errors {

  /** `BondingCurveError`: why a checked price computation failed. */
  datatype BondingCurveError = Overflow | DivisionByZero

  /** Rust's `Option<T>`, usable with `:-` the way Rust uses `?`. */
  datatype Option<+T> = None | Some(value: T) {

    predicate IsFailure() {
      None?
    }

    function PropagateFailure<U>(): Option<U>
      requires None?
    {
      None
    }

    function Extract(): T
      requires Some?
    {
      value
    }

    /** `Option::and_then`: feeds the value to `f`, or stays `None`. */
    function AndThen<U>(f: T -> Option<U>): Option<U> {
      match this
      case None => None
      case Some(v) => f(v)
    }

    /** `Option::ok_or`: turns `None` into the given error. */
    function OkOr(e: BondingCurveError): Result<T> {
      match this
      case None => Err(e)
      case Some(v) => Ok(v)
    }
  }

  /** Rust's `Result<T, BondingCurveError>`. */
  datatype Result<+T> = Ok(value: T) | Err(error: BondingCurveError)
}
