/** Failure-carrying results shared by every collection model.
    A Java exception thrown by an operation becomes `Fail(e)`; a Java `null` that the code
    returns or accepts becomes `None`. */
module Wrappers {

  /** The exceptions the collections throw, by kind. */
  datatype Error =
    | NullPointer        // NullPointerException (null argument, or a null dereference)
    | IllegalArgument    // IllegalArgumentException (bad index or capacity)
    | IndexOutOfBounds   // ArrayIndexOutOfBoundsException
    | EmptyStack         // java.util.EmptyStackException
    | EmptyTree          // _BinaryTree.EmptyTreeException
    | Arithmetic         // ArithmeticException (integer division by zero)

  datatype Option<+T> = None | Some(value: T)

  datatype Result<+T> = Ok(value: T) | Fail(error: Error) {
    predicate IsFailure() {
      Fail?
    }

    function PropagateFailure<U>(): Result<U>
      requires Fail?
    {
      Fail(error)
    }

    function Extract(): T
      requires Ok?
    {
      value
    }
  }
}
