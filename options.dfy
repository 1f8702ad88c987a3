/** Rust's `Option`, used for the builders' unset fields, for `resolve`'s
    result and for the parsers' "would panic" outcome. */
module Options {

  datatype Option<+T> = None | Some(value: T) {

    /** Rust's `unwrap_or`: the held value, or `default` when there is none. */
    function GetOr(default: T): T {
      match this
      case Some(v) => v
      case None => default
    }
  }
}
