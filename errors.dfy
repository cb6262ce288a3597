/** Error values and result wrappers shared by the repositories, the
    transaction manager and the composite coordinator. */
module Errors {

  datatype Option<+T> = None | Some(value: T)

  /** What the storage backend can do to a single statement besides
      answering it: the three-second per-query deadline elapsing, or any
      other driver- or server-side failure. */
  datatype Fault = DeadlineExceeded | BackendFailure(code: int)

  /** The errors a repository or the transaction manager hands back.
      RecordNotFound is the package's own ErrRecordNotFound; NoRows is the
      driver's sql.ErrNoRows, which Update passes through unmapped; TxDone is
      sql.ErrTxDone, returned for any use of an already finalised scope. */
  datatype Error = RecordNotFound | NoRows | TxDone | Storage(fault: Fault)

  /** A Go `error` return: nil (Pass) or an error. */
  datatype Outcome = Pass | Fail(error: Error)

  /** A Go `(value, error)` return. */
  datatype Result<+T> = Success(value: T) | Failure(error: Error)
}
