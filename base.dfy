/** Stock wrappers shared by every module of the model. */
module Base {

  /** Python's `None` versus a present value. */
  datatype Option<T> = None | Some(value: T)

  /** A computation that either returns a value or raises a Python exception,
      named by its class (`"KeyError"`, `"ValueError"`, ...). */
  datatype Result<T> = Ok(value: T) | Err(error: string)
}
