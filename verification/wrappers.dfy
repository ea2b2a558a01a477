/** Option and Result used by the tracer model. */
module Wrappers {

  /** A value that may be absent; stands for a Go pointer or interface that may be nil. */
  datatype Option<+T> = None | Some(value: T)

  /** The outcome of a callback: the next state, or the reason it could not produce one. */
  datatype Result<+R, +E> = Success(value: R) | Failure(error: E)
}
