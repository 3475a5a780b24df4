/** Optional values: JavaScript's `null`/`undefined`/NaN results become `None`. */
module Wrappers {
  datatype Option<T> = None | Some(value: T) {
    predicate IsSome() { this.Some? }

    function GetOr(default: T): T {
      match this
      case Some(v) => v
      case None => default
    }
  }

  /** The outcome of an operation that the source either completes or rejects with a message. */
  datatype Result<T> = Ok(value: T) | Err(message: string)
}
