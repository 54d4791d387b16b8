/** Optional values and success/failure results, used for lookups and for
    the error returns of the handlers and the ingestion pipeline. */
module Outcomes {

  datatype Option<+T> = None | Some(value: T)

  datatype Result<+T, +E> = Success(value: T) | Failure(error: E)
}
