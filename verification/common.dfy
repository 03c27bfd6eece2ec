/** Values that may be absent: a missing storage key, a null quiz config,
    a handler that reports nothing. */
module Common {

  datatype Option<+T> = None | Some(value: T) {

    /** The value, or `default` when there is none. */
    function GetOr(default: T): T {
      match this
      case Some(v) => v
      case None => default
    }
  }
}
