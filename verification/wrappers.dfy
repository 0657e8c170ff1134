/** Optional values and success/failure results shared by the storage and route modules. */
module Wrappers {

  /** A query parameter that may be left out (`Optional[str]` defaulting to `None`). */
  datatype Option<+T> = None | Some(value: T)

  /** The outcome of a statement or a route: a value, or the error that stopped it. */
  datatype Result<+T, +E> = Ok(value: T) | Err(error: E)
}
