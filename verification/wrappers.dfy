/** Failure-carrying result types shared by the backend routers and the
    browser client. */
module Wrappers {

  datatype Option<+T> = None | Some(value: T) {
    function GetOr(default: T): T {
      match this
      case Some(v) => v
      case None => default
    }
  }

  /** An HTTP error as raised by a FastAPI `HTTPException` or reported by the
      client's `HTTP error! status: N` exception. */
  datatype HttpError = HttpError(status: int, detail: string)

  /** The outcome of a request handler or of one awaited remote call. */
  datatype Result<+T> = Ok(value: T) | Err(error: HttpError) {
    predicate IsFailure() {
      Err?
    }
  }

  const NotFound := 404
  const BadRequest := 400
  const Unprocessable := 422
}
