/** Values for "there may be no result" and "this raised an exception". */
module Outcomes {

  datatype Option<+T> = None | Some(value: T)

  /** A Python call that either returns `value` or raises the exception named by `error`. */
  datatype Result<+T> = Success(value: T) | Failure(error: string)
}
