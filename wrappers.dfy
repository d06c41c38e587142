/** Option and Result, the two failure-carrying datatypes used throughout the model. */
module Wrappers {

  /** `None` stands for `std::string::npos` wherever a position may be absent. */
  datatype Option<+T> = None | Some(value: T)

  /** The outcome of a call that may throw instead of returning. */
  datatype Result<+R, +E> = Success(value: R) | Failure(error: E)
}
