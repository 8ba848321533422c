/** The optional value used across the toolkit (ephox.perhaps.Option). */
module Perhaps {

  /** `Option.none()` or `Option.some(value)`. */
  datatype Option<+T> = None | Some(value: T) {

    /** `getOr`: the value, or `default` when there is none. */
    function GetOr(default: T): (r: T)
      ensures Some? ==> r == value
      ensures None? ==> r == default
    {
      match this
      case Some(v) => v
      case None => default
    }
  }
}
