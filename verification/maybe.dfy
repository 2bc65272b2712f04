/** The optional value used wherever the components read something that may be
    absent: an `undefined` prop, a missing DOM element, an unset timer handle. */
module Maybe {

  datatype Option<+T> = None | Some(value: T) {

    /** The wrapped value, or `default` when there is none (a destructuring default). */
    function GetOr(default: T): T {
      match this
      case Some(v) => v
      case None => default
    }
  }
}
