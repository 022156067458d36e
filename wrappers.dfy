/** Optional values and the outcome of a step that may fail (a fetch). */
module Wrappers {

  /** `None` stands for JavaScript's `undefined` (or NaN, for a number parse). */
  datatype Option<+T> = None | Some(value: T) {
    function GetOr(default: T): T {
      match this
      case Some(v) => v
      case None => default
    }
  }

  /** What an awaited remote call produced: its parsed payload, or a rejection. */
  datatype Outcome<+T> = Success(payload: T) | Failure
}
