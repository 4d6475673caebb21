/** The failure-carrying datatypes the rest of the model uses.
    `Option` stands for a Python value that may be `None`; `Result` stands for a
    computation that either returns normally or raises an exception. */
module Wrappers {

  /** A Python value that is either `None` or a proper value. */
  datatype Option<+T> = None | Some(value: T)

  /** A Python call that either returns `value` or raises `error`. */
  datatype Result<+R, +E> = Success(value: R) | Failure(error: E)
}
