/**
 * The route handlers of backend/user/src/controllers/user.ts.
 *
 * The authenticated principal is the record the authentication middleware
 * loaded, as a default read returns it (aadhaar and pan hidden). On success a
 * handler answers `{status, message, data}`; any thrown error goes to the
 * error handler.
 */
module UserController {
  import opened Wrappers
  import opened Text
  import opened Http
  import opened ErrorHandler
  import opened UserModel
  import opened UserService
  import opened UserSchema
  import Dates

  /** A success answer carries its own status in the body; a failure goes through the error handler. */
  function Answer<D>(r: Result<D, Error>, code: nat, message: string): (reply: Response<D>)
    ensures reply.status == Some(reply.code) && reply.cookie == CookieUntouched
    ensures r.Success? ==> reply.code == code && reply.message == message && reply.data == Some(r.value)
    ensures r.Failure? ==> reply == HandleError(r.error)
  {
    if r.Success? then Response(code, Some(code), message, Some(r.value), CookieUntouched)
    else HandleError(r.error)
  }

  /**
   * `req.user` as `authenticate` sets it: `findOne({ _id })` of a stored
   * record, so aadhaar and pan are not selected.
   */
  predicate SignedIn(docs: seq<User>, principal: User) {
    exists i :: 0 <= i < |docs| && DefaultRead(docs[i]) == principal
  }

  // ---------------------------------------------------------------------
  // createUserController

  /** `{ ...req.body, email }`: the principal's email replaces whatever email the body held. */
  function CreateInputFor(body: CreateUserInput, principal: User): (data: CreateUserInput)
    ensures data.email == principal.email
    ensures data.(email := body.email) == body
  {
    body.(email := principal.email)
  }

  /**
   * The principal was read from the store, so its email is already taken:
   * the existence check refuses every create made after logging in.
   */
  lemma CreateAfterLoginRefused(docs: seq<User>, nextId: nat, principal: User, body: CreateUserInput)
    requires StoreInvariant(docs, nextId) && SignedIn(docs, principal)
    ensures AlreadyExists(docs, CreateInputFor(body, principal))
  {
    var i :| 0 <= i < |docs| && DefaultRead(docs[i]) == principal;
    NormaliseEmailIdempotent(principal.email);
    assert docs[i].email == NormaliseEmail(CreateInputFor(body, principal).email);
  }

  method CreateUserController(db: UserCollection, principal: User, body: CreateUserInput, now: int)
    returns (reply: Response<Profile>)
    requires db.Valid()
    modifies db
    ensures db.Valid()
    ensures SignedIn(old(db.docs), principal) ==> reply == HandleError(UserAlreadyExists) && db.docs == old(db.docs)
    ensures AlreadyExists(old(db.docs), CreateInputFor(body, principal)) ==>
      reply.code == 403 && db.docs == old(db.docs)
    ensures !AlreadyExists(old(db.docs), CreateInputFor(body, principal)) ==>
      var built := Build(CreatePayload(CreateInputFor(body, principal)), old(db.nextId), now);
      if built.Success? then
        reply == Answer(Success(ProfileOf(built.value)), 201, "User created successfully")
        && db.docs == old(db.docs) + [built.value]
      else reply.code == 500 && db.docs == old(db.docs)
  {
    if SignedIn(db.docs, principal) {
      CreateAfterLoginRefused(db.docs, db.nextId, principal, body);
    }
    var user := CreateUser(db, CreateInputFor(body, principal), now);
    reply := Answer(user, 201, "User created successfully");
  }

  // ---------------------------------------------------------------------
  // Ownership: updateUserController and deleteUserController

  /** `req.user?._id.toString() === req.params.id`: a comparison of the printed id with the path text. */
  predicate OwnsPath(principal: User, pathId: string) {
    ObjectIdText(principal.id) == pathId
  }

  /** The principal owns its own printed id and nobody else's. */
  lemma OwnershipExclusive(principal: User, other: User)
    requires principal.id < ObjectIdSpace && other.id < ObjectIdSpace
    ensures OwnsPath(principal, ObjectIdText(other.id)) <==> principal.id == other.id
  {
    ObjectIdTextInjective(principal.id, other.id);
  }

  /** The path must be printed as `toString` prints: the same id in upper case is refused. */
  lemma UpperCasePathRefused(principal: User)
    requires principal.id < ObjectIdSpace && !HasNoLower(ObjectIdText(principal.id))
    ensures !OwnsPath(principal, UpperCase(ObjectIdText(principal.id)))
    ensures ParseObjectId(UpperCase(ObjectIdText(principal.id))) == Some(principal.id)
  {
    var s := ObjectIdText(principal.id);
    UpperCaseFixed(s);
    ObjectIdRoundTrip(principal.id);
    var u := UpperCase(s);
    assert AllHex(u) by {
      forall i | 0 <= i < |u|
        ensures IsHexChar(u[i])
      {
        assert IsHexChar(s[i]);
      }
    }
    assert HexValue(u) == HexValue(s) by {
      HexValueIgnoresCase(s);
    }
  }

  /** Upper-casing hexadecimal digits does not change their value. */
  lemma {:induction false} HexValueIgnoresCase(s: string)
    requires AllHex(s)
    ensures AllHex(UpperCase(s)) && HexValue(UpperCase(s)) == HexValue(s)
  {
    var u := UpperCase(s);
    assert AllHex(u) by {
      forall i | 0 <= i < |u|
        ensures IsHexChar(u[i])
      {
        assert IsHexChar(s[i]);
      }
    }
    if s != [] {
      var pre := s[..|s| - 1];
      HexValueIgnoresCase(pre);
      assert u[..|u| - 1] == UpperCase(pre);
      assert HexCharValue(u[|u| - 1]) == HexCharValue(s[|s| - 1]);
    }
  }

  const NotAuthorizedToUpdate: Response<Profile> :=
    Response(403, Some(403), "You are not authorized to update this user", None, CookieUntouched)
  const NotAuthorizedToDelete: Response<Profile> :=
    Response(403, Some(403), "You are not authorized to delete this user", None, CookieUntouched)

  /**
   * The principal's own path always names a stored record, so the service's
   * 404 cannot be reached through the update handler.
   */
  lemma OwnPathIsFound(docs: seq<User>, principal: User, pathId: string, body: UpdateUserInput, now: int)
    requires SignedIn(docs, principal) && principal.id < ObjectIdSpace && OwnsPath(principal, pathId)
    ensures ParseObjectId(pathId) == Some(principal.id)
    ensures IndexOfId(docs, principal.id).Some?
    ensures UpdateOutcome(docs, pathId, body, now).answer != Failure(UserNotFound)
  {
    ObjectIdRoundTrip(principal.id);
    var i :| 0 <= i < |docs| && DefaultRead(docs[i]) == principal;
    assert docs[i].id == principal.id;
  }

  /**
   * `updateUserController`: someone else's path answers 403 without calling
   * the service; the principal's own path is updated by the service.
   */
  method UpdateUserController(db: UserCollection, principal: User, pathId: string, body: UpdateUserInput, now: int)
    returns (reply: Response<Profile>)
    requires db.Valid()
    modifies db
    ensures db.Valid()
    ensures !OwnsPath(principal, pathId) ==> reply == NotAuthorizedToUpdate && db.docs == old(db.docs)
    ensures OwnsPath(principal, pathId) ==>
      && reply == Answer(UpdateOutcome(old(db.docs), pathId, body, now).answer, 200, "User updated successfully")
      && db.docs == UpdateOutcome(old(db.docs), pathId, body, now).docs
    ensures OwnsPath(principal, pathId) && SignedIn(old(db.docs), principal) && principal.id < ObjectIdSpace ==>
      reply.code != 404
  {
    if !OwnsPath(principal, pathId) {
      return NotAuthorizedToUpdate;
    }
    if SignedIn(db.docs, principal) && principal.id < ObjectIdSpace {
      OwnPathIsFound(db.docs, principal, pathId, body, now);
    }
    var updatedUser := UpdateUser(db, pathId, body, now);
    reply := Answer(updatedUser, 200, "User updated successfully");
  }

  /**
   * `deleteUserController` up to its service call: 403 for someone else's
   * path, otherwise the request goes on to `deleteUserService` (None here).
   */
  function DeleteDecision(principal: User, pathId: string): (r: Option<Response<Profile>>)
    ensures r.Some? <==> !OwnsPath(principal, pathId)
    ensures r.Some? ==> r.value.code == 403 && r.value == NotAuthorizedToDelete
  {
    if !OwnsPath(principal, pathId) then Some(NotAuthorizedToDelete) else None
  }

  // ---------------------------------------------------------------------
  // getUsersController

  /**
   * The input the list handler builds from the raw query: `Number(limit)`
   * and the strings under `next`, `name`, `email`, `mobile` and `dob`. None
   * when the limit is not a non-negative integer (`Number` of an absent
   * limit is NaN).
   */
  function ListArgsOf(query: map<string, string>): (r: Option<GetUsersInput>)
    ensures r.Some? <==> "limit" in query && JsNumber(query["limit"]).Some? && JsNumber(query["limit"]).value >= 0
    ensures r.Some? ==> r.value.limit == JsNumber(query["limit"]).value
    ensures r.Some? ==> r.value.next == Lookup(query, "next") && r.value.name == Lookup(query, "name")
    ensures r.Some? ==> r.value.email == Lookup(query, "email") && r.value.mobile == Lookup(query, "mobile")
    ensures r.Some? ==> r.value.dob == Lookup(query, "dob")
  {
    var limit := if "limit" in query then JsNumber(query["limit"]) else None;
    if limit.Some? && limit.value >= 0 then
      Some(GetUsersInput(limit.value, Lookup(query, "next"), Lookup(query, "name"), Lookup(query, "email"),
                         Lookup(query, "mobile"), Lookup(query, "dob")))
    else None
  }

  /** A limit sent as a decimal number reaches the service as that number. */
  lemma LimitPassedThrough(query: map<string, string>, n: nat)
    ensures ListArgsOf(query["limit" := Decimal(n)]).Some?
    ensures ListArgsOf(query["limit" := Decimal(n)]).value.limit == n
  {
    JsNumberOfDecimal(n);
  }

  /**
   * The schema checks `cursor` and defaults the limit to 5, but the handler
   * reads `next` from the untouched query: the cursor key is ignored and a
   * query without a limit gives the handler no number at all.
   */
  lemma SchemaAndHandlerDisagree(query: map<string, string>, v: string)
    ensures "limit" !in query ==> ParseUsersQuery(query).Some? && ParseUsersQuery(query).value.limit == DefaultLimit
    ensures "limit" !in query ==> ListArgsOf(query).None?
    ensures ListArgsOf(query["cursor" := v]) == ListArgsOf(query - {"cursor"})
  {
    var a, b := query["cursor" := v], query - {"cursor"};
    assert forall k :: k != "cursor" ==> Lookup(a, k) == Lookup(b, k);
    assert ("limit" in a) == ("limit" in b);
    if "limit" in a {
      assert a["limit"] == b["limit"];
    }
  }

  /** A cursor printed by a page and sent back as `next` filters below that same id. */
  lemma CursorTextRoundTrip(input: GetUsersInput, id: nat)
    requires id < ObjectIdSpace
    requires BuildQuery(input.(next := Some(ObjectIdText(id)))).Success?
    ensures BuildQuery(input.(next := Some(ObjectIdText(id)))).value.below == Some(id)
  {
    ObjectIdRoundTrip(id);
  }

  method GetUsersController(db: UserCollection, query: map<string, string>) returns (reply: Response<Page>)
    requires db.Valid()
    requires ListArgsOf(query).Some?
    ensures var q := BuildQuery(ListArgsOf(query).value);
      if q.Failure? then reply == HandleError(Unexpected(q.error))
      else
        var w := PageWindow(db.docs, q.value, ListArgsOf(query).value.limit);
        reply == Answer(Success(Page(Listings(w.records), ListArgsOf(query).value.limit, w.hasNextPage, w.nextCursor)),
                        200, "Users fetched successfully")
  {
    var input := ListArgsOf(query).value;
    var users := GetUsers(db, input);
    reply := Answer(users, 200, "Users fetched successfully");
  }

  // ---------------------------------------------------------------------
  // Where the request schema and the record schema disagree

  /**
   * The request schema admits addresses of 5 characters, the record schema
   * wants 10: such a create passes validation and then fails inside `create`.
   */
  lemma ShortAddressRefusedByRecord(data: CreateUserInput, id: nat, now: int)
    requires 5 <= |data.currentAddress| < 10
    ensures Build(CreatePayload(data), id, now).Failure?
  {
  }

  /**
   * The unanchored date pattern admits a word after the date, which the
   * record's date cast then refuses: `new Date` rejects a word that follows
   * the number.
   */
  lemma DecoratedDateRefusedByRecord(date: string)
    requires |date| == 10 && DateShapeAt(date, 0)
    ensures HasDateShape(date + " on") && Dates.ParseIsoDate(date + " on").None?
  {
    DateShapeUnanchored("", date, " on");
    assert "" + date + " on" == date + " on";
  }
}
