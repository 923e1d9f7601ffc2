/**
 * The Express middlewares of backend/src/middlewares/validators/user.ts: each
 * either passes the request on (calls `next` once, writes no response) or
 * answers 400 itself (and does not call `next`).
 */
module Validators {
  import opened Wrappers
  import opened Http
  import opened UserSchema

  /** The parts of an Express request the validators read or write. */
  class Request {
    var body: map<string, string>
    var query: map<string, string>

    constructor (body: map<string, string>, query: map<string, string>)
      ensures this.body == body && this.query == query
    {
      this.body := body;
      this.query := query;
    }
  }

  /** What a middleware does with the request: hand it on, or answer it. */
  datatype Outcome = CallNext | Reply(response: Response<()>)

  const InputValidationError: Response<()> := Response(400, Some(400), "Input Validation Error", None, CookieUntouched)

  /**
   * `validateCreateUser`: a body the schema accepts is replaced by the
   * parsed body (unknown keys gone, pan normalised) and handed on; any other
   * body is answered with 400 and left as it was.
   */
  method ValidateCreateUser(req: Request) returns (o: Outcome)
    modifies req
    ensures req.query == old(req.query)
    ensures ParseCreateBody(old(req.body)).Some? ==> o == CallNext && req.body == ParseCreateBody(old(req.body)).value
    ensures ParseCreateBody(old(req.body)).None? ==> o == Reply(InputValidationError) && req.body == old(req.body)
  {
    var parsed := ParseCreateBody(req.body);
    if parsed.None? {
      return Reply(InputValidationError);
    }
    req.body := parsed.value;
    o := CallNext;
  }

  /**
   * `validateGetUsers`: the request is handed on exactly when the schema
   * accepts the query. The parse result is dropped, so the query reaches the
   * controller as it came, without the default limit.
   */
  method ValidateGetUsers(req: Request) returns (o: Outcome)
    ensures o.CallNext? <==> ParseUsersQuery(req.query).Some?
    ensures o.Reply? ==> o.response == InputValidationError
  {
    var parsed := ParseUsersQuery(req.query);
    if parsed.None? {
      return Reply(InputValidationError);
    }
    o := CallNext;
  }

  /** A body the create validator wrote back is accepted again unchanged. */
  method RevalidateCreateUser(req: Request) returns (first: Outcome, second: Outcome)
    modifies req
    ensures old(ParseCreateBody(req.body)).Some? ==>
      first == CallNext && second == CallNext && req.body == old(ParseCreateBody(req.body)).value
  {
    first := ValidateCreateUser(req);
    if first == CallNext {
      ParseCreateBodyIdempotent(old(req.body));
    }
    second := ValidateCreateUser(req);
  }
}
