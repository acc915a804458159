/** Python-shaped results: a value that may be `None`, and a computation that
    either returns a value or raises an exception carrying a message. */
module Outcomes {

  /** A Python value that may be `None`. */
  datatype Option<T> = None | Some(value: T)

  /** Either a returned value or a raised exception, known by its `str(e)`. */
  datatype Result<T> = Ok(value: T) | Raised(message: string)
}
