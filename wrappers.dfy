/** Optional values and the outcome of a route handler: a value, or the
    HTTP error the handler raises. */
module Wrappers {

  datatype Option<+T> = None | Some(value: T)

  /** An `HTTPException` as raised by a handler: status code and detail text. */
  datatype HttpError = HttpError(status: int, detail: string)

  datatype Result<+T> = Success(value: T) | Failure(error: HttpError)
}
