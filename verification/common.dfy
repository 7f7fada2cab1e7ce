/** Small shared vocabulary: an optional value, used for absent JSON fields,
    missing documents and the `null` the handlers send back. */
module Common {

  datatype Option<+T> = None | Some(value: T) {

    /** The value when present, otherwise `default` (JavaScript's `x ?? default`). */
    function GetOr(default: T): T {
      match this
      case Some(v) => v
      case None => default
    }
  }
}
