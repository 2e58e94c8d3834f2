/** Rust's `Option`, for values that may be absent. */
module Options {

  datatype Option<T> = None | Some(value: T) {

    /** `unwrap_or(default)`. */
    function UnwrapOr(default: T): T
    {
      match this
      case Some(v) => v
      case None => default
    }
  }
}
