/** Optional values: JavaScript's `undefined` fields and Java's empty `Optional`. */
module Common {

  datatype Option<+T> = None | Some(value: T) {

    /** The value when present, otherwise `default` (JavaScript's `x ?? default`). */
    function GetOr(default: T): T {
      match this
      case Some(v) => v
      case None => default
    }
  }

  /** The outcome of a remote call: it resolves with a value of type T, or rejects with an
      error message. A call whose value the caller ignores answers `()`. */
  datatype Answer<+T> = Returned(value: T) | Threw(message: string)
}
