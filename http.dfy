/**
 * What a request handler can throw and what it answers. An `HttpError` is
 * what the http-errors package builds (`createHttpError.Forbidden(...)` and
 * the like); every other thrown value is `Unexpected`, with the kind of
 * database failure that caused it.
 */
module Http {
  import opened Wrappers

  datatype Fault =
    | ValidationFailed   // Mongoose ValidationError (required, minlength, a cast inside a document)
    | DuplicateKey       // MongoDB E11000 from a unique index
    | CastFailed         // Mongoose CastError on a query or update value
    | BadObjectId        // BSONError from `new ObjectId(s)` on a malformed string

  datatype Error = HttpError(statusCode: nat, message: string) | Unexpected(cause: Fault)

  /** What a handler does to the `jwt` cookie. */
  datatype Cookie = CookieUntouched | SetSession(userId: nat) | ClearSession

  /**
   * An answer: the HTTP status code, then the JSON body's `status` field
   * (absent in some answers), `message` and `data`, and the cookie action.
   */
  datatype Response<D> = Response(code: nat, status: Option<nat>, message: string, data: Option<D>, cookie: Cookie)
}
