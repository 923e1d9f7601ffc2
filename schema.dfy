/**
 * The zod schemas of backend/src/middlewares/schemas/user.schema.ts as
 * predicates on strings, with the normalisation the schemas apply and the
 * value a successful parse produces. A request body or query is a map from
 * keys to strings.
 */
module UserSchema {
  import opened Wrappers
  import opened Text

  // ---------------------------------------------------------------------
  // Field predicates of createUserSchema

  /** `/^\+[1-9]\d{1,14}$/`: a plus sign, a non-zero digit, then 1 to 14 digits. */
  predicate IsMobile(s: string) {
    3 <= |s| <= 16 && s[0] == '+' && '1' <= s[1] <= '9' && AllDigits(s[2..])
  }

  /** `/^\d{12}$/`. */
  predicate IsAadhaar(s: string) {
    |s| == 12 && AllDigits(s)
  }

  /** `.trim().toUpperCase()` on the pan before it is checked. */
  function NormalisePan(s: string): (r: string)
    ensures exists t :: IsTrimOf(s, t) && r == UpperCase(t)
    ensures HasNoLower(r) && IsTrimmed(r)
  {
    var t := Trim(s);
    UpperCaseKeepsTrimmed(t);
    UpperCase(t)
  }

  /** `/^[A-Z]{5}[0-9]{4}[A-Z]$/`. */
  predicate IsPanShape(s: string) {
    && |s| == 10
    && (forall i :: 0 <= i < 5 ==> IsUpper(s[i]))
    && (forall i :: 5 <= i < 9 ==> IsDigit(s[i]))
    && IsUpper(s[9])
  }

  predicate DateShapeAt(s: string, i: int) {
    && 0 <= i <= |s| - 10
    && AllDigits(s[i..i + 4]) && s[i + 4] == '-'
    && AllDigits(s[i + 5..i + 7]) && s[i + 7] == '-'
    && AllDigits(s[i + 8..i + 10])
  }

  /** `/\d{4}-\d{2}-\d{2}/` without anchors: the shape may occur anywhere in the string. */
  predicate HasDateShape(s: string) {
    exists i :: 0 <= i <= |s| - 10 && DateShapeAt(s, i)
  }

  /** The date pattern is unanchored: anything may surround a well-shaped date. */
  lemma DateShapeUnanchored(prefix: string, date: string, suffix: string)
    requires |date| == 10 && DateShapeAt(date, 0)
    ensures HasDateShape(prefix + date + suffix)
  {
    var s := prefix + date + suffix;
    var p := |prefix|;
    assert s[p..p + 10] == date;
    assert s[p..p + 4] == date[0..4];
    assert s[p + 5..p + 7] == date[5..7];
    assert s[p + 8..p + 10] == date[8..10];
    assert DateShapeAt(s, |prefix|);
  }

  // `z.string().email()`:
  //   ^(?!\.)(?!.*\.\.)([A-Za-z0-9_'+\-\.]*)[A-Za-z0-9_+-]@([A-Za-z0-9][A-Za-z0-9\-]*\.)+[A-Za-z]{2,}$

  predicate IsAlnum(c: char) { IsLetter(c) || IsDigit(c) }

  predicate IsLocalChar(c: char) { IsAlnum(c) || c == '_' || c == '\'' || c == '+' || c == '-' || c == '.' }

  /** The part before `@`: allowed characters, not starting with a dot, ending in neither a dot nor a quote. */
  predicate IsLocalPart(s: string) {
    && |s| >= 1
    && (forall i :: 0 <= i < |s| ==> IsLocalChar(s[i]))
    && s[0] != '.'
    && s[|s| - 1] != '.' && s[|s| - 1] != '\''
  }

  predicate IsDomainChar(c: char) { IsAlnum(c) || c == '-' || c == '.' }

  /**
   * The part after `@`: one or more labels, each starting with a letter or
   * digit and followed by a dot, then a top-level name of two or more letters.
   */
  predicate IsDomain(s: string) {
    && (forall i :: 0 <= i < |s| ==> IsDomainChar(s[i]))
    && |s| >= 1 && IsAlnum(s[0])
    && (forall i :: 0 <= i < |s| - 1 && s[i] == '.' ==> IsAlnum(s[i + 1]))
    && exists j :: 0 < j < |s| - 2 && IsTopLevelAt(s, j)
  }

  /** `s[j]` is the last dot and only letters follow it. */
  predicate IsTopLevelAt(s: string, j: int) {
    0 <= j < |s| && s[j] == '.' && forall k :: j < k < |s| ==> IsLetter(s[k])
  }

  predicate HasDoubleDot(s: string) {
    exists i :: 0 <= i < |s| - 1 && s[i] == '.' && s[i + 1] == '.'
  }

  predicate IsEmail(s: string) {
    && !HasDoubleDot(s)
    && exists i :: 0 <= i < |s| && s[i] == '@' && IsLocalPart(s[..i]) && IsDomain(s[i + 1..])
  }

  /** An accepted email has no surrounding white space, so the model's email setter only lower-cases it. */
  lemma EmailIsTrimmed(s: string)
    requires IsEmail(s)
    ensures IsTrimmed(s) && |s| >= 5
  {
    var i :| 0 <= i < |s| && s[i] == '@' && IsLocalPart(s[..i]) && IsDomain(s[i + 1..]);
    assert s[0] == s[..i][0];
    assert s[|s| - 1] == s[i + 1..][|s| - i - 2];
  }

  // ---------------------------------------------------------------------
  // createUserSchema

  /** The ten keys of the create body, all required; `secondaryMobile` too. */
  const CreateKeys: set<string> := {"name", "email", "primaryMobile", "secondaryMobile", "aadhaar", "pan",
                                     "dateOfBirth", "placeOfBirth", "currentAddress", "permanentAddress"}

  predicate CreateBodyValid(body: map<string, string>) {
    && CreateKeys <= body.Keys
    && |body["name"]| >= 2
    && IsEmail(body["email"])
    && IsMobile(body["primaryMobile"])
    && IsMobile(body["secondaryMobile"])
    && IsAadhaar(body["aadhaar"])
    && IsPanShape(NormalisePan(body["pan"]))
    && HasDateShape(body["dateOfBirth"])
    && |body["placeOfBirth"]| >= 2
    && |body["currentAddress"]| >= 5
    && |body["permanentAddress"]| >= 5
  }

  /**
   * `createUserSchema.parse`: on success, the schema's keys only (unknown
   * keys are stripped), each as given except the pan, which is trimmed and
   * upper-cased.
   */
  function ParseCreateBody(body: map<string, string>): (r: Option<map<string, string>>)
    ensures r.Some? <==> CreateBodyValid(body)
    ensures r.Some? ==> r.value.Keys == CreateKeys
    ensures r.Some? ==> r.value["pan"] == NormalisePan(body["pan"])
    ensures r.Some? ==> forall k :: k in CreateKeys && k != "pan" ==> r.value[k] == body[k]
  {
    if CreateBodyValid(body) then
      Some(map k | k in CreateKeys :: if k == "pan" then NormalisePan(body[k]) else body[k])
    else None
  }

  /** A well-shaped pan is its own normal form. */
  lemma PanShapeNormal(s: string)
    requires IsPanShape(s)
    ensures NormalisePan(s) == s
  {
    TrimFixed(s);
    UpperCaseFixed(s);
  }

  /** What a successful parse produces passes the schema again. */
  lemma ParsedBodyValid(body: map<string, string>)
    requires ParseCreateBody(body).Some?
    ensures CreateBodyValid(ParseCreateBody(body).value)
  {
    var out := ParseCreateBody(body).value;
    PanShapeNormal(NormalisePan(body["pan"]));
    assert NormalisePan(out["pan"]) == out["pan"];
  }

  /** Parsing is idempotent: what the validator writes back parses to itself. */
  lemma ParseCreateBodyIdempotent(body: map<string, string>)
    requires ParseCreateBody(body).Some?
    ensures ParseCreateBody(ParseCreateBody(body).value) == ParseCreateBody(body)
  {
    var out := ParseCreateBody(body).value;
    ParsedBodyValid(body);
    PanShapeNormal(NormalisePan(body["pan"]));
    var again := ParseCreateBody(out).value;
    forall k | k in CreateKeys
      ensures again[k] == out[k]
    {
      if k == "pan" {
        assert again[k] == NormalisePan(out["pan"]);
      }
    }
    SameEntries(again, out);
  }

  lemma SameEntries(a: map<string, string>, b: map<string, string>)
    requires a.Keys == b.Keys && forall k :: k in a.Keys ==> a[k] == b[k]
    ensures a == b
  {
  }

  // ---------------------------------------------------------------------
  // Number() on a query string, as z.coerce.number() and the list controller apply it

  /** `Number(s)` for the forms modelled: blank is 0, an optionally signed run of digits is its value, the rest is NaN (None). */
  function JsNumber(s: string): (r: Option<int>)
    ensures Trim(s) == "" ==> r == Some(0)
  {
    var t := Trim(s);
    if t == "" then Some(0)
    else if (t[0] == '+' || t[0] == '-') && |t| > 1 && AllDigits(t[1..]) then
      var magnitude: int := DecimalValue(t[1..]);
      Some(if t[0] == '-' then -magnitude else magnitude)
    else if AllDigits(t) then Some(DecimalValue(t))
    else None
  }

  /** `Number(n.toString())` is `n` for every natural number. */
  lemma JsNumberOfDecimal(n: nat)
    ensures JsNumber(Decimal(n)) == Some(n)
  {
    var s := Decimal(n);
    assert IsTrimmed(s) by {
      assert IsDigit(s[0]) && IsDigit(s[|s| - 1]);
    }
    TrimFixed(s);
    DecimalRoundTrip(n);
  }

  // ---------------------------------------------------------------------
  // getUsersSchema

  const DefaultLimit: nat := 5

  /** The parsed query: the page size (5 when absent) and the optional strings. */
  datatype UsersQuery = UsersQuery(
    limit: nat,
    cursor: Option<string>,
    name: Option<string>,
    email: Option<string>,
    mobile: Option<string>,
    dob: Option<string>)

  function Lookup(query: map<string, string>, key: string): Option<string> {
    if key in query then Some(query[key]) else None
  }

  /**
   * `getUsersSchema.parse`: an absent limit defaults to 5; a present one must
   * coerce to an integer from 1 to 100. The other keys are optional strings;
   * `next` is not one of them.
   */
  function ParseUsersQuery(query: map<string, string>): (r: Option<UsersQuery>)
    ensures r.Some? <==> "limit" !in query || (JsNumber(query["limit"]).Some? && 1 <= JsNumber(query["limit"]).value <= 100)
    ensures r.Some? ==> 1 <= r.value.limit <= 100
    ensures r.Some? && "limit" !in query ==> r.value.limit == DefaultLimit
    ensures r.Some? ==> r.value.cursor == Lookup(query, "cursor") && r.value.dob == Lookup(query, "dob")
  {
    var limit := if "limit" in query then JsNumber(query["limit"]) else Some(DefaultLimit);
    if limit.Some? && 1 <= limit.value <= 100 then
      Some(UsersQuery(limit.value, Lookup(query, "cursor"), Lookup(query, "name"), Lookup(query, "email"),
                      Lookup(query, "mobile"), Lookup(query, "dob")))
    else None
  }

  /** Whatever `next` holds, the schema neither checks nor keeps it. */
  lemma NextIsNotValidated(query: map<string, string>, v: string)
    ensures ParseUsersQuery(query["next" := v]) == ParseUsersQuery(query - {"next"})
  {
    var a, b := query["next" := v], query - {"next"};
    assert forall k :: k != "next" ==> Lookup(a, k) == Lookup(b, k);
  }
}
