/** The usual failure-compatible optional value, used for Python's `None` and for raised exceptions. */
module Wrappers {

  datatype Option<+T> = None | Some(value: T) {

    /** True if is None */
    predicate IsFailure() {
      None?
    }

    /** Converts a None to an Option with a different value type. */
    function PropagateFailure<U>(): Option<U>
      requires None?
    {
      None
    }

    /** Returns the value held in Some */
    function Extract(): T
      requires Some?
    {
      value
    }
  }
}
