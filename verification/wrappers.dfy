/** Kotlin's nullable values, as an Option. */
module Wrappers {

  /** `None` plays the part of Kotlin's `null`. */
  datatype Option<+T> = None | Some(value: T)
}
