/** Python's `None` next to a present value. */
module Optional {

  datatype Option<+T> = None | Some(value: T) {

    /** The present value, or `default` when None. */
    function GetOr(default: T): T {
      match this
      case Some(v) => v
      case None => default
    }
  }
}
