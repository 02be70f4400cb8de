/** A value that may be missing, and how a call may end. */
module Options {

  datatype Option<T> = None | Some(value: T)

  /** OutOfBounds: the code reads or writes outside of its arrays, and all bets are off. */
  datatype Outcome<T> = Done(value: T) | OutOfBounds | Throws
}
