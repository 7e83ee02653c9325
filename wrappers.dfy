/** Failure-carrying results shared by every module of the model, and the
    exceptions of the Java code they stand for. */
module Wrappers {

  datatype Option<+T> = None | Some(value: T)

  datatype Result<+T, +E> = Ok(value: T) | Err(error: E) {
    predicate IsFailure() { Err? }

    function PropagateFailure<U>(): Result<U, E>
      requires Err?
    {
      Err(error)
    }

    function Extract(): T
      requires Ok?
    {
      value
    }
  }

  /** The exceptions the modelled Java code throws, by class. */
  datatype JavaException =
    | StorageManagerException
    | PackageEncodeException
    | IllegalArgumentException
    | NumberFormatException
    | NegativeArraySizeException
    | BufferUnderflowException
    | NullPointerException
    | IndexOutOfBoundsException
}
