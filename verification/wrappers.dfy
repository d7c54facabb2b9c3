/** Failure-carrying wrappers shared by every module of the model.

    `Error` names the exceptions and error exits of the Python program that the
    model keeps: a failed `assert`, a dictionary or list lookup that raises, a
    failed `int()` conversion, and the user-visible error exits. */
module Wrappers {

  datatype Option<+T> = None | Some(value: T) {
    predicate IsFailure() { None? }

    function PropagateFailure<U>(): Option<U>
      requires None?
    {
      None
    }

    function Extract(): T
      requires Some?
    {
      value
    }
  }

  /** The exceptions (and `exit(1)` paths) of the program that the model keeps. */
  datatype Error =
    | InvalidId(id: int)              // `assert i>0` in DictAccumulator.add
    | KeyError(key: string)           // dict lookup of a missing key
    | IndexError                      // list or string index out of range
    | ValueError(what: string)        // failed int(), bad member type, bad unpacking
    | TypeError(what: string)         // a value of the wrong kind (not a dict, None row)
    | AssertionFailed(what: string)   // the other `assert` statements
    | BoundaryNotFound(code: string)  // regions lookup found no row, exit(1)
    | NoBoundaryProvided              // no boundary form given: the intended exit(1)
    | NameError(name: string)         // a name that is never defined (`l` in settings.py)

  datatype Result<+T> = Success(value: T) | Failure(error: Error) {
    predicate IsFailure() { Failure? }

    function PropagateFailure<U>(): Result<U>
      requires Failure?
    {
      Failure(error)
    }

    function Extract(): T
      requires Success?
    {
      value
    }
  }
}
