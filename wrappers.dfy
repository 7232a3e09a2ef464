/** Failure-carrying values used where the Java code relies on null checks or exceptions. */
module Wrappers {

  /** A value that may be absent (a missing JSON key, a word not in the lexicon). */
  datatype Option<+T> = None | Some(value: T)

  /** Either a value or the reason it could not be produced (an unchecked Java exception). */
  datatype Result<+T, +E> = Ok(value: T) | Err(error: E)
}
