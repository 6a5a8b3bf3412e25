/** Optional values, the errors the splitter raises, and a result type carrying them. */
module Outcome {

  /** Python's `None`-or-value arguments. */
  datatype Option<+T> = None | Some(value: T) {

    /** The value, or `default` when there is none. */
    function GetOr(default: T): T {
      match this
      case Some(v) => v
      case None => default
    }
  }

  /** The `ValueError`s the core raises, told apart by cause. */
  datatype SplitError =
    | InvalidChunkSize              // a maximum chunk size that is missing or not positive
    | NegativeSampleCount(num: int) // `np.linspace` asked for fewer than zero samples

  /** Either a value or the error that aborted the computation. */
  datatype Result<+T> = Ok(value: T) | Err(error: SplitError)
}
