/** Failure-compatible result type used for the errors the deduplicator raises. */
module Wrappers {

  /** Either a computed value or the error that aborted the computation. */
  datatype Result<+R, +E> = Success(value: R) | Failure(error: E) {

    predicate IsFailure() {
      Failure?
    }

    function PropagateFailure<U>(): Result<U, E>
      requires Failure?
    {
      Failure(error)
    }

    function Extract(): R
      requires Success?
    {
      value
    }
  }
}

/** The exceptions the deduplication core can raise, one constructor per raise site. */
module Errors {

  datatype Error =
      /** A criteria entry has no "method" key (the KeyError of the resolver). */
    | MissingMethod
      /** A criteria entry names a method that is not supported (the ValueError). */
    | UnknownMethod(name: string)
      /** A criteria column does not occur in a data row (the KeyError of row tracking). */
    | MissingColumn(column: string)
}
