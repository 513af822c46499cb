/** Option and Result, the two sum types the model uses for Rust's
    `Option<T>` and `Result<T, E>`. */
module Wrappers {

  datatype Option<+T> = None | Some(value: T)

  datatype Result<+T, +E> = Ok(value: T) | Err(error: E)

  /** Rust's `Option::flatten`: `Some(None)` and `None` both become `None`. */
  function Flatten<T>(o: Option<Option<T>>): (r: Option<T>)
    ensures r.Some? <==> o.Some? && o.value.Some?
    ensures r.Some? ==> r.value == o.value.value
  {
    match o
    case None => None
    case Some(inner) => inner
  }
}
