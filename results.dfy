/** Errors and error-or-value results, standing for Go's `(T, error)` return pairs. */
module Results {

  /** The errors the analysis layer can return. */
  datatype Error =
      /** An error returned by a collaborator whose code is not modelled
          (script parsing, address extraction, payload decoding, the transaction store). */
    | CollaboratorError(message: string)
      /** A previous output index that the referenced transaction does not have
          (a run-time index panic in the Go code). */
    | IndexOutOfRange(index: int)

  /** Either a value (`err == nil`) or an error (the value is then irrelevant). */
  datatype Result<T> = Success(value: T) | Failure(error: Error)
}
