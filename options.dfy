/** The optional value used wherever the launcher's JavaScript reads a
    property that may be undefined (or null). */
module Options {

  datatype Option<T> = None | Some(value: T) {

    /** The wrapped value, or the given default when there is none. */
    function GetOr(default: T): T {
      match this
      case Some(v) => v
      case None => default
    }
  }
}
