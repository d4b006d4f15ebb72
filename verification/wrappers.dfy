/** Failure-carrying result types shared by the titer modules. */
module Wrappers {

  /** A value that may be absent; `None` stands for the NaN the source stores. */
  datatype Option<+T> = None | Some(value: T)

  /** The outcome of a check that returns nothing on success. */
  datatype Outcome<+E> = Pass | Fail(error: E)
}
