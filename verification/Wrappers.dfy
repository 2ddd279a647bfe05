/** Values that may be missing, and slices that may be out of range. */
module Wrappers {
  datatype Option<+T> = None | Some(value: T)

  /** Crystal raises IndexError when a slice does not fit. */
  datatype Result<+T> = Success(value: T) | IndexError
}
