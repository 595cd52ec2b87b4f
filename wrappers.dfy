/** Failure-carrying results shared by the modules of this model. */
module Wrappers {

  datatype Option<+T> = None | Some(value: T)

  /** An operation that either completes or fails with an error message
      (a thrown `Error` in the modelled scripts). */
  datatype Outcome<+E> = Pass | Fail(error: E)

  datatype Result<+R, +E> = Ok(value: R) | Err(error: E)
}
