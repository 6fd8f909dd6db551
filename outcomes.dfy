/** Result types shared by the catalogue: an optional value and the outcome
    of a request handler, which is either a value or an HTTP error. */
module Outcomes {

  datatype Option<T> = None | Some(value: T)

  /** The two `HTTPException`s the handlers raise. */
  datatype HttpError = NotFound | BadRequest
  {
    /** The status code the error is answered with. */
    function Code(): (code: int)
    {
      match this
      case NotFound => 404
      case BadRequest => 400
    }
  }

  /** What a handler returns: its response value, or the exception it raised. */
  datatype Outcome<T> = Ok(value: T) | Fail(error: HttpError)
}
