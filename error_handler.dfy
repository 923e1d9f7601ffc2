/** The application-wide error middleware of backend/user/src/middlewares/errorHandler.ts. */
module ErrorHandler {
  import opened Wrappers
  import opened Http

  const InternalServerError: string := "Internal Server Error"

  /**
   * An `HttpError` is answered with its own status code and message; anything
   * else becomes a generic 500. The body carries `status` and `message` only.
   */
  function HandleError<D>(e: Error): (r: Response<D>)
    ensures r.status == Some(r.code)
    ensures r.data == None && r.cookie == CookieUntouched
    ensures e.HttpError? ==> r.code == e.statusCode && r.message == e.message
    ensures e.Unexpected? ==> r.code == 500 && r.message == InternalServerError
  {
    match e
    case HttpError(code, message) => Response(code, Some(code), message, None, CookieUntouched)
    case Unexpected(_) => Response(500, Some(500), InternalServerError, None, CookieUntouched)
  }

  /** The answer to an unexpected error does not depend on what went wrong. */
  lemma NoDetailLeaks<D>(a: Fault, b: Fault)
    ensures HandleError<D>(Unexpected(a)) == HandleError<D>(Unexpected(b))
  {
  }
}
