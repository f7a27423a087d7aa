/** Failure-carrying results used where the C++ code returns a null pointer
    or throws an exception. */
module Wrappers {

  /** A nullable value: `None` plays the part of a null `shared_ptr`. */
  datatype Option<+T> = None | Some(value: T)

  /** The outcome of an operation that may throw: `Err` carries the kind of
      exception (or the kind of undefined behaviour) the call ends in. */
  datatype Result<+T, +E> = Ok(value: T) | Err(error: E)
}
