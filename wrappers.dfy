/** Option type: the Java `null` of an object reference, or an absent result. */
module Wrappers {

  datatype Option<+T> = None | Some(value: T)

  /** Pass, or Fail with the message of the exception the Java code throws. */
  datatype Outcome<+E> = Pass | Fail(error: E)

}
