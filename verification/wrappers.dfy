/** Null-able references and the invalid-argument error that the stream
    operators raise when a required argument is null. */
module Wrappers {

  /** A Java reference argument: either `null` or a present value. */
  datatype Ref<+T> = NullRef | Ref(value: T)

  /** The only error the construction and terminal operations raise
      before any traversal: an IllegalArgumentException with its message. */
  datatype Error = IllegalArgument(message: string)

  /** Either the operation's result or the exception it throws. */
  datatype Result<+T> = Success(value: T) | Failure(error: Error) {

    predicate IsFailure() {
      Failure?
    }

    function PropagateFailure<U>(): Result<U>
      requires Failure?
    {
      Failure(error)
    }

    function Extract(): T
      requires Success?
    {
      value
    }
  }
}
