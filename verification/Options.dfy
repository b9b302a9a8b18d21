/** The two-way outcome types shared by the modules of the model. */
module Options {

  /** A value that may be absent. */
  datatype Option<+T> = None | Some(value: T)

  /** A value, or the reason why there is none. */
  datatype Result<+T, +E> = Ok(value: T) | Err(error: E)
}
