/** The optional value used wherever the source tests for `undefined` or a
    failed lookup (`find`, `findIndex`, a `URL` that does not parse). */
module Opt {

  datatype Option<+T> = None | Some(value: T) {

    /** The carried value, or `default` when there is none. */
    function GetOr(default: T): T {
      match this
      case Some(v) => v
      case None => default
    }
  }
}
