/** The optional-value type used by the readers and by the connection bookkeeping. */
module Wrappers {

  datatype Option<+T> = None | Some(value: T) {

    /** True if is None, so that `:-` propagates a failed read. */
    predicate IsFailure() {
      None?
    }

    function PropagateFailure<U>(): Option<U>
      requires None?
    {
      None
    }

    function Extract(): T
      requires Some?
    {
      value
    }
  }
}
