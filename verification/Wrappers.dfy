/** Failure-compatible result types shared by every component. */
module Wrappers {

  /** A value, or the source's "error / not found" with the message dropped. */
  datatype Option<+T> = None | Some(value: T) {
    predicate IsFailure() {
      None?
    }

    function PropagateFailure<U>(): Option<U>
      requires None?
    {
      None
    }

    function Extract(): T
      requires Some?
    {
      value
    }
  }
}
