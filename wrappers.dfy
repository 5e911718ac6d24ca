/** Option and Result datatypes used by the rest of the model. */
module Wrappers {

  /** A value that may be absent, e.g. the frame `cv2` returns on a failed read. */
  datatype Option<+T> = None | Some(value: T)

  /** A Python call that either returns a value or raises an exception. */
  datatype Result<+T, +E> = Success(value: T) | Failure(error: E)
}
