/** Option and Result: the server's `Option<T>` values and the outcome of
    decoding a text frame. */
module Wrappers {

  datatype Option<+T> = None | Some(value: T) {

    /** `unwrap_or` / `or_else`: the held value, or the default when None. */
    function GetOr(default: T): (r: T)
      ensures Some? ==> r == value
      ensures None? ==> r == default
    {
      match this
      case Some(v) => v
      case None => default
    }
  }

  datatype Result<+T, +E> = Ok(value: T) | Err(error: E)
}
