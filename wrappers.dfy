/** Failure-compatible result types shared by the containers, and the
    runtime errors the C++ code throws (std::runtime_error with a message). */
module Wrappers {

  /** The messages of the runtime errors thrown by the containers and helpers. */
  datatype RuntimeError =
    | BufferOverflown               // MaxHeap::Add
    | IndexOutOfBounds              // MaxHeap::Pop, DynamicArray::operator[]; an unchecked read past the end
    | DestinationSmallerThanSource  // Copy

  /** A value, or the error that was thrown instead of returning it. */
  datatype Result<+T> = Ok(value: T) | Err(error: RuntimeError) {
    predicate IsFailure() { Err? }
    function PropagateFailure<U>(): Result<U>
      requires Err?
    {
      Err(error)
    }
    function Extract(): T
      requires Ok?
    {
      value
    }
  }

  /** A value, or nothing. */
  datatype Option<+T> = None | Some(value: T)

  /** Success of a void operation, or the error it threw. */
  datatype Outcome = Pass | Fail(error: RuntimeError) {
    predicate IsFailure() { Fail? }
  }
}
