/** A nullable value and a value-or-exception outcome, used across the model. */
module Wrappers {

  /** A Kotlin nullable value: `None` stands for `null`. */
  datatype Option<+T> = None | Some(value: T) {

    /** Kotlin's elvis operator `this ?: default`. */
    function OrElse(default: T): T {
      match this
      case Some(v) => v
      case None => default
    }
  }

  /** The value a handler produces, or the exception it throws. */
  datatype Result<+R, +E> = Success(value: R) | Failure(error: E)
}
