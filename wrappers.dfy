/** Failure-carrying results for operations of the solver that can abort. */
module Wrappers {

  /** `Failure` stands for a Rust panic: the run stops and reports `error`. */
  datatype Result<T, E> = Success(value: T) | Failure(error: E)
}
