/** Failure-carrying results shared by the modules of the model. */
module Wrappers {

  datatype Option<+T> = None | Some(value: T)

  /** The outcome of a step that raises in the source: `Err` names the exception's cause. */
  datatype Result<+T, +E> = Ok(value: T) | Err(error: E)
}
