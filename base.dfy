/** Small value wrappers shared by the modules of this model. */
module Base {

  /** Python's `None` / a present value. */
  datatype Option<+T> = None | Some(value: T)

  /** A value, or the exception a Python call raises instead of returning. */
  datatype Result<+T, +E> = Ok(value: T) | Err(error: E)
}
