/** Failure-carrying results used where the Kotlin code throws or returns null. */
module Wrappers {

  /** A nullable value: `None` stands for Kotlin's `null`. */
  datatype Option<+T> = None | Some(value: T)

  /** The outcome of a call that may throw `IllegalArgumentException` (or another
      exception the Kotlin runtime raises); `Fail` carries the message. */
  datatype Result<+T> = Ok(value: T) | Fail(reason: string)
}
