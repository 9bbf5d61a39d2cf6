/** Failure-compatible wrappers shared by every module of the model, and the
    exceptions the Java code throws, as values. */
module Wrappers {

  /** An optional value; `None` stands for a Java `null`. */
  datatype Option<+T> = None | Some(value: T) {

    predicate IsFailure() {
      None?
    }

    function PropagateFailure<U>(): Option<U>
      requires None?
    {
      None
    }

    function Extract(): T
      requires Some?
    {
      value
    }
  }

  /** Either a computed value or the exception the Java code would throw. */
  datatype Result<+R, +E> = Success(value: R) | Failure(error: E) {

    predicate IsFailure() {
      Failure?
    }

    function PropagateFailure<U>(): Result<U, E>
      requires Failure?
    {
      Failure(error)
    }

    function Extract(): R
      requires Success?
    {
      value
    }
  }

  /** The Java exceptions raised by the modelled code. */
  datatype Exception =
    | BufferUnderflow                  // ByteBuffer.get past the limit
    | NegativeArraySize                // new byte[n] with n < 0
    | IndexOutOfBounds                 // array access outside its bounds
    | NullPointer                      // a field read before it was set
    | IllegalState(message: string)
    | IllegalArgument(message: string)
    | Arithmetic                       // integer division by zero
    | NoSuchElement                    // Iterator.next past the end

  /** The result type of every operation that may throw. */
  type Outcome<+T> = Result<T, Exception>
}
