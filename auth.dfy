/**
 * Passwordless login of backend/user/src/controllers/auth.ts. `OtpService`
 * holds what the two handlers touch: the Redis key space (values with an
 * expiry instant, read against a clock in seconds), the RabbitMQ messages
 * published so far, whether the channel exists, and the user collection.
 */
module Auth {
  import opened Wrappers
  import opened Text
  import opened Http
  import opened UserModel

  const RateLimitTtl: int := 60
  const OtpTtl: int := 300
  const MailQueue: string := "send-mail"
  const OtpSubject: string := "OTP for Login"

  /** `${email}` for the `email` of a JSON body: the string itself, or "undefined" when absent. */
  function Interpolate(email: Option<string>): string {
    if email.Some? then email.value else "undefined"
  }

  function RateLimitKey(email: string): string { "otp:ratelimit:" + email }

  function OtpKey(email: string): string { "otp:" + email }

  /** The two key families overlap: the marker of `e` is the code key of "ratelimit:" + `e`. */
  lemma KeyFamiliesOverlap(email: string)
    ensures RateLimitKey(email) == OtpKey("ratelimit:" + email)
  {
  }

  /** JavaScript truthiness of a stored or submitted string: present and not empty. */
  predicate IsTruthy(v: Option<string>) {
    v.Some? && v.value != ""
  }

  /** A code as `Math.floor(100000 + Math.random() * 900000).toString()` renders it. */
  function OtpText(n: nat): string
    requires 100000 <= n <= 999999
  {
    Decimal(n)
  }

  /** Every issued code is six decimal digits whose value is the number drawn. */
  lemma OtpTextShape(n: nat)
    requires 100000 <= n <= 999999
    ensures |OtpText(n)| == 6 && AllDigits(OtpText(n))
    ensures DecimalValue(OtpText(n)) == n
  {
    assert Pow(10, 5) == 100000 && Pow(10, 6) == 1000000 by {
      assert Pow(10, 2) == 100;
      assert Pow(10, 4) == 10000;
    }
    DecimalLength(n, 6);
    DecimalRoundTrip(n);
  }

  function OtpBody(code: string): (body: string)
    ensures Contains(body, code)
  {
    var prefix := "Your OTP is ";
    var body := prefix + code + ". It is valid for 5 minutes";
    assert OccursAt(body, code, |prefix|);
    body
  }

  datatype Entry = Entry(value: string, expiresAt: int)

  /** The JSON message the mail service consumes; `to` is left out when the email was absent. */
  datatype Mail = Mail(to: Option<string>, subject: string, body: string)

  datatype Published = Published(queue: string, message: Mail)

  function OtpMail(email: Option<string>, code: string): (m: Mail)
    ensures m.to == email && m.subject == OtpSubject && Contains(m.body, code)
  {
    Mail(email, OtpSubject, OtpBody(code))
  }

  // The answers of the two handlers.

  const TooManyRequests: Response<User> :=
    Response(429, None, "Too may requests. Please wait before requesting new opt", None, CookieUntouched)
  const OtpSent: Response<User> := Response(200, None, "OTP sent to your mail", None, CookieUntouched)
  const OtpRequired: Response<User> := Response(400, None, "Email and OTP Required", None, CookieUntouched)
  const InvalidOtp: Response<User> := Response(400, None, "Invalid or expired OTP", None, CookieUntouched)
  const InternalError: Response<User> := Response(500, Some(500), "Internal Server Error", None, CookieUntouched)

  /**
   * The success answer: the user record under `user` and a `jwt` cookie for
   * its id. The body's `token` is the return value of `generateToken`, which
   * returns nothing, so the body has no token.
   */
  function Verified(u: User): (r: Response<User>)
    ensures r.code == 200 && r.data == Some(u) && r.cookie == SetSession(u.id)
  {
    Response(200, None, "User Verified", Some(u), SetSession(u.id))
  }

  /** `logout`: answers 200 and clears the `jwt` cookie; nothing else changes. */
  function Logout(): (r: Response<User>)
    ensures r.code == 200 && r.cookie == ClearSession && r.data == None
  {
    Response(200, None, "Logged out successfully", None, ClearSession)
  }

  /** The document `verifyUser` creates for an unseen email. */
  function FirstLoginRecord(email: string): Payload {
    NoFields.(email := Some(email), isVerified := Some(true))
  }

  class OtpService {
    var store: map<string, Entry>
    var clock: int
    var outbox: seq<Published>
    var channelReady: bool
    const users: UserCollection

    ghost predicate Valid()
      reads this, users
    {
      users.Valid()
    }

    constructor (users: UserCollection, channelReady: bool)
      requires users.Valid()
      ensures Valid() && this.users == users && this.channelReady == channelReady
      ensures store == map[] && outbox == [] && clock == 0
    {
      this.users := users;
      this.channelReady := channelReady;
      store, outbox, clock := map[], [], 0;
    }

    /** Redis GET: the value of a key whose time to live has not run out. */
    function Get(key: string): (r: Option<string>)
      reads this
      ensures r.Some? <==> key in store && clock < store[key].expiresAt
      ensures r.Some? ==> r.value == store[key].value
    {
      if key in store && clock < store[key].expiresAt then Some(store[key].value) else None
    }

    /** Time passes; keys whose time to live runs out read as absent from then on. */
    method Tick(seconds: nat)
      modifies this
      ensures clock == old(clock) + seconds
      ensures store == old(store) && outbox == old(outbox) && channelReady == old(channelReady)
    {
      clock := clock + seconds;
    }

    /**
     * `loginUser`: a live rate-limit marker for the email answers 429 and
     * changes nothing. Otherwise the marker is set for 60 s, a code drawn from
     * 100000..999999 is stored under `otp:<email>` for 300 s, replacing any
     * earlier code, and one mail carrying the code is published to
     * "send-mail" (or silently dropped when there is no channel).
     */
    method Login(email: Option<string>) returns (r: Response<User>, ghost code: nat)
      requires Valid()
      modifies this
      ensures Valid() && clock == old(clock) && channelReady == old(channelReady)
      ensures IsTruthy(old(Get(RateLimitKey(Interpolate(email))))) ==>
        r == TooManyRequests && store == old(store) && outbox == old(outbox)
      ensures !IsTruthy(old(Get(RateLimitKey(Interpolate(email))))) ==>
        && r == OtpSent
        && 100000 <= code <= 999999
        && store == old(store)[RateLimitKey(Interpolate(email)) := Entry("true", clock + RateLimitTtl)]
                              [OtpKey(Interpolate(email)) := Entry(OtpText(code), clock + OtpTtl)]
        && outbox == old(outbox) + (if channelReady then [Published(MailQueue, OtpMail(email, OtpText(code)))] else [])
    {
      var rateLimitKey := RateLimitKey(Interpolate(email));
      var rateLimit := Get(rateLimitKey);
      if IsTruthy(rateLimit) {
        r, code := TooManyRequests, 0;
        return;
      }
      store := store[rateLimitKey := Entry("true", clock + RateLimitTtl)];
      var n :| 100000 <= n <= 999999;
      var otp := OtpText(n);
      store := store[OtpKey(Interpolate(email)) := Entry(otp, clock + OtpTtl)];
      if channelReady {
        outbox := outbox + [Published(MailQueue, OtpMail(email, otp))];
      }
      r, code := OtpSent, n;
    }

    /**
     * `verifyUser`: without both an email and a code, 400 before any store
     * access. Without a live code, or with a different one, 400 and nothing
     * changes. On a match the code key is deleted (only it), then the user
     * with that email is found or created with the email alone; the answer
     * carries the record and a session cookie for its id. A create the
     * collection refuses ends in 500, after the code was deleted.
     */
    method Verify(email: Option<string>, otp: Option<string>) returns (r: Response<User>)
      requires Valid()
      modifies this, users
      ensures Valid() && clock == old(clock) && outbox == old(outbox) && channelReady == old(channelReady)
      ensures !IsTruthy(email) || !IsTruthy(otp) ==>
        r == OtpRequired && store == old(store) && users.docs == old(users.docs) && users.nextId == old(users.nextId)
      ensures IsTruthy(email) && IsTruthy(otp) && !(IsTruthy(old(Get(OtpKey(email.value)))) && old(Get(OtpKey(email.value))).value == otp.value) ==>
        r == InvalidOtp && store == old(store) && users.docs == old(users.docs) && users.nextId == old(users.nextId)
      ensures IsTruthy(email) && IsTruthy(otp) && IsTruthy(old(Get(OtpKey(email.value)))) && old(Get(OtpKey(email.value))).value == otp.value ==>
        && store == old(store) - {OtpKey(email.value)}
        && var found := FindByEmail(old(users.docs), email.value);
           var built := Build(FirstLoginRecord(email.value), old(users.nextId), clock * 1000);
           if found.Some? then
             r == Verified(DefaultRead(found.value)) && users.docs == old(users.docs) && users.nextId == old(users.nextId)
           else if built.Success? && AdmittedBy(old(users.docs), built.value) then
             r == Verified(built.value) && users.docs == old(users.docs) + [built.value]
             && users.nextId == old(users.nextId) + 1
           else
             r == InternalError && users.docs == old(users.docs) && users.nextId == old(users.nextId)
    {
      if !IsTruthy(email) || !IsTruthy(otp) {
        return OtpRequired;
      }
      var otpKey := OtpKey(email.value);
      var storedOtp := Get(otpKey);
      if !IsTruthy(storedOtp) || storedOtp.value != otp.value {
        return InvalidOtp;
      }
      store := store - {otpKey};
      var userData := FindByEmail(users.docs, email.value);
      if userData.Some? {
        return Verified(DefaultRead(userData.value));
      }
      var created := users.Insert(FirstLoginRecord(email.value), clock * 1000);
      if created.Failure? {
        return InternalError;
      }
      r := Verified(created.value);
    }
  }

  /**
   * A code works once: a verify that matched it deleted it, whether it then
   * answered 200 or failed to create the record with 500, so the same code
   * is refused right after.
   */
  method VerifyTwice(svc: OtpService, email: Option<string>, otp: Option<string>) returns (first: Response<User>, second: Response<User>)
    requires svc.Valid()
    modifies svc, svc.users
    ensures first.code == 200 || first.code == 500 ==> second == InvalidOtp
  {
    first := svc.Verify(email, otp);
    second := svc.Verify(email, otp);
  }

  /** Within 60 seconds of an issued code, a second login is refused and publishes nothing. */
  method LoginTwice(svc: OtpService, email: Option<string>, wait: nat) returns (first: Response<User>, second: Response<User>)
    requires svc.Valid() && wait < RateLimitTtl
    modifies svc
    ensures first == OtpSent ==> second == TooManyRequests
    ensures |svc.outbox| <= |old(svc.outbox)| + 1
  {
    ghost var code;
    first, code := svc.Login(email);
    svc.Tick(wait);
    second, code := svc.Login(email);
  }

  /**
   * The overlapping key families in action: a login for "ratelimit:" + `e`
   * stores its code under the rate-limit marker of `e`, so `e` cannot log in
   * for the code's 300 seconds instead of the marker's 60.
   */
  method OverlapBlocksLogin(svc: OtpService, e: string, wait: nat) returns (first: Response<User>, second: Response<User>)
    requires svc.Valid() && wait < OtpTtl
    modifies svc
    ensures first == OtpSent ==> second == TooManyRequests
  {
    ghost var code;
    first, code := svc.Login(Some("ratelimit:" + e));
    KeyFamiliesOverlap(e);
    svc.Tick(wait);
    second, code := svc.Login(Some(e));
  }

  /** The record created at first login has no secret fields, so its default read is itself. */
  lemma FirstLoginRecordHasNoSecrets(email: string, id: nat, now: int)
    requires Build(FirstLoginRecord(email), id, now).Success?
    ensures DefaultRead(Build(FirstLoginRecord(email), id, now).value) == Build(FirstLoginRecord(email), id, now).value
    ensures Build(FirstLoginRecord(email), id, now).value.primaryMobile.None?
  {
  }
}
