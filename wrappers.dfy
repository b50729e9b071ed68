/** Failure-carrying result types shared by every module of the model. */
module Wrappers {

  datatype Option<T> = None | Some(value: T)

  /** The value a C++ function computes, or the exception it throws. */
  datatype Result<T> = Ok(value: T) | Throws(message: string)

  /**
   * How a call of a C++ function ends:
   *  - Returns(v): a `return v;` statement was reached;
   *  - Raises(m): an exception with message m propagated out of the call;
   *  - FallsOff: control reached the end of a non-void function without a
   *    return statement, so the returned value is unspecified (the state
   *    changes made up to that point are still described);
   *  - Undefined: the next step would be undefined behaviour (a null
   *    dereference, an out-of-range deque access, a failed `assert`), so the
   *    model does not follow the execution further.
   */
  datatype Outcome<T> = Returns(value: T) | Raises(message: string) | FallsOff | Undefined
}
