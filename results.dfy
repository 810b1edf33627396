/** Failure-compatible result and option types for the calibration model. */
module Results {

  /** Why a calibration step gives no image.  Exceptions of the pipeline and
      the numpy divisions whose outcome is not a real number both end here. */
  datatype Error =
    | NoFitsFile          // no listing entry has "fits" in its name
    | NegativeShape       // np.zeros asked for a negative dimension
    | MissingRow          // overscan reads row 1 of a frame with fewer than two rows
    | ShapeMismatch       // element-wise arithmetic on arrays of different shapes
    | ZeroExposure        // division by an EXPTIME of 0
    | EmptyFrame          // np.amin of an array without elements
    | ZeroMinimum         // division by a frame minimum of 0
    | ZeroFlatPixel       // division by a master-flat pixel of 0
    | NoQualifyingFrames  // the average of zero frames
    | EmptyProfile        // np.percentile of a column profile without entries

  datatype Result<+T> = Ok(value: T) | Err(error: Error) {
    predicate IsFailure() { Err? }

    function PropagateFailure<U>(): Result<U>
      requires Err?
    {
      Err(error)
    }

    function Extract(): T
      requires Ok?
    {
      value
    }
  }

  datatype Option<+T> = None | Some(value: T)
}
