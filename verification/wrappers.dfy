/** The two failure-carrying shapes the model uses: `Option` for "no record" and
    "no match", `Result` for the conditions under which the program stops with
    a run-time panic. */
module Wrappers {

  datatype Option<+T> = None | Some(value: T) {

    /** The carried value, or `default` when there is none. */
    function GetOr(default: T): T {
      match this
      case Some(v) => v
      case None => default
    }
  }

  datatype Result<+T, +E> = Ok(value: T) | Err(error: E)
}
