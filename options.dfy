/** The optional value used for network outcomes: a payload, or nothing
    because the request threw or the payload was missing. */
module Options {

  datatype Option<+T> = None | Some(value: T) {

    /** The payload, or `default` when there is none */
    function GetOr(default: T): T {
      match this
      case Some(v) => v
      case None => default
    }
  }
}
