/** Small value types shared by every module of the model. */
module Common {

  datatype Option<T> = None | Some(value: T)

  /** The Python exceptions the modelled code can raise. */
  datatype Error =
    | IndexError  // indexing an empty array or list
    | ValueError  // a reduction (min, max) over an empty array
    | SystemExit  // sys.exit() after a missing input file
    | NameError   // a local variable read before any assignment to it

  datatype Result<T> = Ok(value: T) | Err(error: Error)
}
