/** Option and Result, the two wrappers the Rust code returns everywhere. */
module Wrappers {

  datatype Option<+T> = None | Some(value: T) {

    /** `a.OrElse(b)`: the first value that is present (Rust's `Option::or_else`). */
    function OrElse(other: Option<T>): Option<T> {
      if Some? then this else other
    }
  }

  datatype Result<+T, +E> = Ok(value: T) | Err(error: E)
}
