/** Outcomes of operations that can throw, and values that may be missing. */
module Results {

  datatype Option<+T> = None | Some(value: T)

  datatype Error =
    | LogOfZero          // glog of a zero coefficient
    | NegativeLength     // an array of negative length
    | BadBlock           // no block table row
    | NoPattern          // no alignment positions for the version
    | CodeLengthOverflow // the data does not fit the symbol

  datatype Result<+T> = Success(value: T) | Failure(error: Error) {
    predicate IsFailure() {
      Failure?
    }

    function PropagateFailure<U>(): Result<U>
      requires Failure?
    {
      Failure(error)
    }

    function Extract(): T
      requires Success?
    {
      value
    }
  }
}
