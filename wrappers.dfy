/** Failure-compatible result type: `None` stands for the cases where the
    Python code raises an exception (empty `reduce`, bad index, bad literal)
    or, for the fuel-bounded searches, does not finish within the fuel. */
module Wrappers {

  datatype Option<+T> = None | Some(value: T) {

    predicate IsFailure() {
      None?
    }

    function PropagateFailure<U>(): Option<U>
      requires None?
    {
      None
    }

    function Extract(): T
      requires Some?
    {
      value
    }
  }
}
