/** Optional values and success-or-error results shared by the ledger modules. */
module Wrappers {

  datatype Option<+T> = None | Some(value: T)

  /** The outcome of a ledger operation: the created record, or the reason it was refused. */
  datatype Result<+T, +E> = Success(value: T) | Failure(error: E)
}
