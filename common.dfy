/** Shared value types: optional values, HTTP-style errors and results. */
module Common {

  datatype Option<+T> = None | Some(value: T)

  /** An error carried as an HTTP status code and a detail message, as FastAPI's
      HTTPException carries them. */
  datatype HttpError = HttpError(status: int, detail: string)

  /** A call that either produced a value or raised an HTTP error. */
  datatype Result<+T> = Ok(value: T) | Err(error: HttpError)

  /** True when no element occurs twice in `s`. */
  predicate NoDuplicates<T(==)>(s: seq<T>)
  {
    forall i, j :: 0 <= i < j < |s| ==> s[i] != s[j]
  }
}
