/** Values shared by the closure strategy and the repository utilities:
    optional values, the exceptions the library raises, and the two
    shapes in which an operation reports them. */
module Common {

  /** A value that may be absent (PHP `null`). */
  datatype Option<+T> = None | Some(value: T)

  /** The exception classes raised by the tree code, with their messages. */
  datatype Exception =
    | RuntimeException(message: string)
      /** "Cannot set child as parent to node: <node>" */
    | UnexpectedValueException(node: nat)
    | InvalidArgumentException(message: string)

  /** Outcome of an operation that returns nothing but may throw. */
  datatype Outcome = Pass | Fail(error: Exception)

  /** Outcome of an operation that returns a value or throws. */
  datatype Result<+T> = Success(value: T) | Failure(error: Exception)

  const InsertFailedMessage: string := "Failed to insert new Closure record"
  const NotManagedMessage: string := "Node is not managed by UnitOfWork"
  const NoRepresentationFieldMessage: string := "Cannot find any representation field"
  const MoreAssociationMessage: string := "More association on field "
}
