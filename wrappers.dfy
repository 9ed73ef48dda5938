/** Failure-carrying results shared by the interpolation modules. */
module Wrappers {

  /** What goes wrong in the library. In the JavaScript original these are an
      uncaught TypeError (EmptyInput) or `undefined`/NaN values flowing on
      (MixedShapes, UnassignedRead); the model surfaces each one as a value. */
  datatype SplineError =
    | EmptyInput      // `isNumberTupleArray` indexes `v[0][0]` of an empty array
    | MixedShapes     // an element whose shape differs from the first element's
    | UnassignedRead  // a coefficient array slot that was never written is read

  datatype Option<+T> = None | Some(value: T)

  datatype Result<+T> = Ok(value: T) | Err(error: SplineError) {

    /** The same failure, at another value type. */
    function PropagateFailure<U>(): (r: Result<U>)
      requires Err?
      ensures r.Err? && r.error == error
    {
      Err(error)
    }
  }
}
