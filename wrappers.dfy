/** Option and Result, the failure-compatible wrappers used throughout the model. */
module Wrappers {

  /** A value that may be absent, standing for Python's `None`. */
  datatype Option<+T> = None | Some(value: T)

  /** The outcome of an operation that either yields a value or raises. */
  datatype Result<+R, +E> = Success(value: R) | Failure(error: E) {

    predicate IsFailure() {
      Failure?
    }

    function PropagateFailure<U>(): Result<U, E>
      requires Failure?
    {
      Failure(error)
    }

    function Extract(): R
      requires Success?
    {
      value
    }
  }
}

/** The exceptions the serializer and the file-command constructors raise. */
module Failures {
  import opened Wrappers

  datatype Error =
    | IllegalPath(path: Option<seq<char>>)  // `ValueError` from `check_path`
    | UnknownMode(mode: nat)                // `AssertionError` from `_format_mode`
    | MissingInlineData                     // `len(None)` on an inline modify without data
}
