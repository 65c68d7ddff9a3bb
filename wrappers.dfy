/** Optional values: JavaScript's `undefined` / "not found" results. */
module Wrappers {
  datatype Option<T> = None | Some(value: T)
  {
    predicate IsSome() { Some? }

    function GetOr(default: T): (r: T)
      ensures Some? ==> r == value
      ensures None? ==> r == default
    {
      match this
      case Some(v) => v
      case None => default
    }
  }

  /** How a JavaScript call ends: with a value, or by throwing. */
  datatype Completion<T> = Return(value: T) | Throw
}
