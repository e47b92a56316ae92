/** Result type for the places where the pruning script raises instead of returning. */
module Wrappers {

  /** Why a step of the script stops with an exception. */
  datatype Error =
    | IndexError        // an index into the watermark file is out of range
    | EmptyRandomRange  // `np.random.randint(0)` on an empty watermark set

  datatype Option<+T> = None | Some(value: T)

  datatype Result<+T> = Success(value: T) | Failure(error: Error)
}
