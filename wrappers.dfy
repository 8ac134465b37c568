/** Failure-carrying results shared by the model's modules: a Python call that
    raises is modelled as returning Err / Fail / None instead. */
module Wrappers {

  datatype Option<+T> = None | Some(value: T)

  datatype Result<+T, +E> = Ok(value: T) | Err(error: E)

  /** The result of a call made only for its effect. */
  datatype Outcome<+E> = Pass | Fail(error: E)
}
