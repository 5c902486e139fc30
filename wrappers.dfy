/** Option and Result, the failure-compatible wrappers the rest of the model uses
    for C#'s nullable references and for the exceptions the pipeline throws. */
module Wrappers {

  datatype Option<+T> = None | Some(value: T)

  datatype Result<+T, +E> = Ok(value: T) | Err(error: E) {

    predicate IsFailure() {
      Err?
    }

    function PropagateFailure<U>(): Result<U, E>
      requires Err?
    {
      Err(error)
    }

    function Extract(): T
      requires Ok?
    {
      value
    }
  }
}

/** The exceptions the reconciliation core can raise, one constructor per
    exception site. */
module Errors {

  datatype Error =
    | NotImplemented(shape: string)   // GetNameString on a type shape it does not handle
    | TypeNotFound(name: string)      // "Type not found: <name>" for a fault contract
    | TypeCollision(name: string)     // "Type collision: <name>" while building the index
    | EmptySequence                   // First() or Single() over no element
    | MoreThanOneElement              // Single() over several elements
    | InvalidCast                     // a fault-contract argument that is not a typeof expression
    | NullReference                   // dereferencing a missing attribute argument list
    | ArgumentNull(parameter: string) // ArgumentNullException from a constructor
    | EmptyOldValue                   // string.Replace with an empty string to replace
    | FileNotFound                    // the file to parse does not exist
}
