/** Optional values and fallible results, as Rust's `Option` and `Result`. */
module Wrappers {
  datatype Option<+T> = None | Some(value: T)
  {
    predicate IsSome() { Some? }

    function UnwrapOr(default: T): T
    {
      if Some? then value else default
    }

    /** Rust's `Option::or`: this value when present, else the other one. */
    function Or(other: Option<T>): Option<T>
    {
      if Some? then this else other
    }
  }

  datatype Result<+T, +E> = Ok(value: T) | Err(error: E)
  {
    predicate IsOk() { Ok? }
  }
}
