/** Shared value types of the spot-to-mitochondria distance analysis:
    optional values, failure-compatible results, pixel coordinates and
    the errors that abort the run. */
module Types {

  datatype Option<+T> = None | Some(value: T)

  /** A failure-compatible result, so that `:-` propagates the first error. */
  datatype Result<+R> = Success(value: R) | Failure(error: Failure) {
    predicate IsFailure() {
      Failure?
    }

    function PropagateFailure<U>(): Result<U>
      requires Failure?
    {
      Failure(error)
    }

    function Extract(): R
      requires Success?
    {
      value
    }
  }

  /** A pixel coordinate: `x` is the column, `y` the row. */
  datatype Point = Point(x: int, y: int)

  /** Everything that makes the script stop with an exception: a failed
      lookup, a file that cannot be read, or an empty minimum. */
  datatype Failure =
    | NoRoi(spotLabel: string)       // no row of the ROI index table is named `spotLabel`
    | MissingRoiFile(index: string)  // the pixel file `<index>.csv` does not exist
    | MissingMask(frame: int)        // the mask file for `frame` does not exist
    | EmptyRoi(spotLabel: string)    // the ROI of `spotLabel` has no pixels, so there is no minimum
    | NoDigits(spotLabel: string)    // `spotLabel` has no digit, so its ID does not parse
}
