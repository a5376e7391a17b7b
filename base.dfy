/** Outcome types shared by the whole model: Python's `None`-or-value and
    the exceptions the modelled functions raise. */
module Base {

  datatype Option<T> = None | Some(value: T)

  /** The Python exceptions that the modelled code raises. */
  datatype PyError =
    | ValueError(message: string)  // validators, tuple unpacking, np.concatenate([])
    | NotImplementedError           // the final branch of the text-to-speech dispatch
    | TypeError                     // calling None, iterating a non-iterable
    | IndexError                    // `[0]` on an empty list

  datatype Result<T> = Ok(value: T) | Err(error: PyError)
}
