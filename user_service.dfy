/**
 * The user directory service of backend/user/src/services/user.ts: creating
 * a profile, listing profiles a page at a time with a keyset cursor, and
 * updating a profile. Each operation answers with a value or with the error
 * it throws, which the controllers hand to the error handler.
 */
module UserService {
  import opened Wrappers
  import opened Text
  import opened Http
  import opened UserModel
  import Cipher
  import Dates

  // ---------------------------------------------------------------------
  // What the service answers with

  /** The fields create and update copy into their answer: no aadhaar, pan, isDeleted or deletedAt. */
  datatype Profile = Profile(
    id: nat,
    name: Option<string>,
    email: string,
    primaryMobile: Option<string>,
    secondaryMobile: Option<string>,
    dateOfBirth: Option<int>,
    placeOfBirth: Option<string>,
    currentAddress: Option<string>,
    permanentAddress: Option<string>,
    createdAt: int,
    updatedAt: int)

  function ProfileOf(u: User): Profile {
    Profile(u.id, u.name, u.email, u.primaryMobile, u.secondaryMobile, u.dateOfBirth,
            u.placeOfBirth, u.currentAddress, u.permanentAddress, u.createdAt, u.updatedAt)
  }

  /** A listed record: the listing's projection also drops `permanentAddress`. */
  datatype Listing = Listing(
    id: nat,
    name: Option<string>,
    email: string,
    primaryMobile: Option<string>,
    secondaryMobile: Option<string>,
    dateOfBirth: Option<int>,
    placeOfBirth: Option<string>,
    currentAddress: Option<string>,
    createdAt: int,
    updatedAt: int)

  function ListingOf(u: User): Listing {
    Listing(u.id, u.name, u.email, u.primaryMobile, u.secondaryMobile, u.dateOfBirth,
            u.placeOfBirth, u.currentAddress, u.createdAt, u.updatedAt)
  }

  function Listings(s: seq<User>): (r: seq<Listing>)
    ensures |r| == |s|
    ensures forall i :: 0 <= i < |s| ==> r[i] == ListingOf(s[i])
  {
    seq(|s|, i requires 0 <= i < |s| => ListingOf(s[i]))
  }

  /** Neither answer depends on the hidden fields: changing them changes nothing visible. */
  lemma AnswersHideSecrets(u: User, aadhaar: Option<string>, pan: Option<string>, isDeleted: bool, deletedAt: Option<int>)
    ensures var v := u.(aadhaar := aadhaar, pan := pan, isDeleted := isDeleted, deletedAt := deletedAt);
      ProfileOf(v) == ProfileOf(u) && ListingOf(v) == ListingOf(u)
  {
  }

  /** The two answers show the same record alike, apart from the address the listing drops. */
  lemma ListingIsProfileWithoutPermanentAddress(u: User)
    ensures var p := ProfileOf(u);
      ListingOf(u) == Listing(p.id, p.name, p.email, p.primaryMobile, p.secondaryMobile,
                              p.dateOfBirth, p.placeOfBirth, p.currentAddress, p.createdAt, p.updatedAt)
  {
  }

  // ---------------------------------------------------------------------
  // createUserService

  /** `CreateUserInput`: every field a string, `secondaryMobile` optional, the date as sent. */
  datatype CreateUserInput = CreateUserInput(
    name: string,
    email: string,
    primaryMobile: string,
    secondaryMobile: Option<string>,
    aadhaar: string,
    pan: string,
    dateOfBirth: string,
    placeOfBirth: string,
    currentAddress: string,
    permanentAddress: string)

  /** `findOne({ $or: [{ email }, { primaryMobile }] })` finds a record; the email goes through its setters. */
  predicate AlreadyExists(docs: seq<User>, data: CreateUserInput) {
    exists i :: 0 <= i < |docs| && (docs[i].email == NormaliseEmail(data.email) || docs[i].primaryMobile == Some(data.primaryMobile))
  }

  /** The document handed to `create`: aadhaar and pan encrypted, secondaryMobile only when supplied. */
  function CreatePayload(data: CreateUserInput): (p: Payload)
    ensures p.aadhaar == Some(Cipher.Encrypt(data.aadhaar)) && p.pan == Some(Cipher.Encrypt(data.pan))
    ensures p.secondaryMobile == data.secondaryMobile && p.isVerified.None?
  {
    Payload(Some(data.name), Some(data.email), Some(data.primaryMobile), data.secondaryMobile,
            Some(Cipher.Encrypt(data.aadhaar)), Some(Cipher.Encrypt(data.pan)), Some(data.dateOfBirth),
            Some(data.placeOfBirth), Some(data.currentAddress), Some(data.permanentAddress), None)
  }

  /**
   * What a created record holds in place of the identity numbers: the aadhaar
   * ciphertext, which decrypts to the number, and the pan ciphertext after the
   * `uppercase` setter, which is neither the number nor decryptable.
   */
  lemma CreateStoresCiphertext(data: CreateUserInput, id: nat, now: int)
    requires Build(CreatePayload(data), id, now).Success?
    ensures var u := Build(CreatePayload(data), id, now).value;
      && u.aadhaar == Some(Cipher.Encrypt(data.aadhaar))
      && u.aadhaar.value != data.aadhaar
      && Cipher.Decrypt(u.aadhaar.value) == data.aadhaar
      && u.pan == Some(UpperCase(Cipher.Encrypt(data.pan)))
      && u.pan.value != data.pan
      && Cipher.Decrypt(u.pan.value) == ""
  {
    Cipher.EncryptNeverPlain(data.aadhaar);
    Cipher.DecryptEncrypt(data.aadhaar);
    Cipher.UpperCasedCiphertextUnreadable(data.pan);
    assert |UpperCase(Cipher.Encrypt(data.pan))| > |data.pan|;
  }

  /** Input that passed the existence check cannot hit either unique index. */
  lemma FreshInputAdmitted(docs: seq<User>, data: CreateUserInput, id: nat, now: int)
    requires !AlreadyExists(docs, data) && Build(CreatePayload(data), id, now).Success?
    ensures AdmittedBy(docs, Build(CreatePayload(data), id, now).value)
  {
    var u := Build(CreatePayload(data), id, now).value;
    forall i | 0 <= i < |docs|
      ensures !Collides(docs[i], u)
    {
      assert !(docs[i].email == NormaliseEmail(data.email) || docs[i].primaryMobile == Some(data.primaryMobile));
    }
  }

  const UserAlreadyExists: Error := HttpError(403, "User already exists")

  /**
   * `createUserService`: 403 with no write when the email or the primary
   * mobile is taken; otherwise the record is stored and its profile returned,
   * unless the schema refuses it, which surfaces as an unexpected error.
   */
  method CreateUser(db: UserCollection, data: CreateUserInput, now: int) returns (r: Result<Profile, Error>)
    requires db.Valid()
    modifies db
    ensures db.Valid()
    ensures AlreadyExists(old(db.docs), data) ==> r == Failure(UserAlreadyExists) && db.docs == old(db.docs)
    ensures !AlreadyExists(old(db.docs), data) ==>
      var built := Build(CreatePayload(data), old(db.nextId), now);
      if built.Success? then r == Success(ProfileOf(built.value)) && db.docs == old(db.docs) + [built.value]
      else r == Failure(Unexpected(ValidationFailed)) && db.docs == old(db.docs)
  {
    if AlreadyExists(db.docs, data) {
      return Failure(UserAlreadyExists);
    }
    var built := Build(CreatePayload(data), db.nextId, now);
    if built.Success? {
      FreshInputAdmitted(db.docs, data, db.nextId, now);
    }
    var created := db.Insert(CreatePayload(data), now);
    if created.Failure? {
      return Failure(Unexpected(created.error));
    }
    r := Success(ProfileOf(created.value));
  }

  // ---------------------------------------------------------------------
  // getUsersService: the filter

  /** `GetUsersInput`: the page size and the optional query strings. */
  datatype GetUsersInput = GetUsersInput(
    limit: nat,
    next: Option<string>,
    name: Option<string>,
    email: Option<string>,
    mobile: Option<string>,
    dob: Option<string>)

  /** The filter the service builds; an absent part places no constraint. */
  datatype Filter = Filter(
    name: Option<string>,
    email: Option<string>,
    mobile: Option<string>,
    dayStart: Option<int>,
    below: Option<nat>)

  /** JavaScript truthiness of an optional query string. */
  predicate IsGiven(v: Option<string>) {
    v.Some? && v.value != ""
  }

  /**
   * The conditional building of `query`: a part only for a given string. A
   * cursor that is not an ObjectId throws while the query is built; a date
   * that does not parse throws when the query is cast.
   */
  function BuildQuery(input: GetUsersInput): (r: Result<Filter, Fault>)
    ensures r.Success? <==>
      && (IsGiven(input.next) ==> ParseObjectId(input.next.value).Some?)
      && (IsGiven(input.dob) ==> Dates.ParseIsoDate(input.dob.value).Some?)
    ensures IsGiven(input.next) && ParseObjectId(input.next.value).None? ==> r == Failure(BadObjectId)
    ensures r.Failure? && r.error == CastFailed ==> IsGiven(input.dob) && Dates.ParseIsoDate(input.dob.value).None?
    ensures r.Failure? && !(IsGiven(input.next) && ParseObjectId(input.next.value).None?) ==> r.error == CastFailed
    ensures r.Success? ==>
      && (r.value.name.Some? <==> IsGiven(input.name))
      && (r.value.email.Some? <==> IsGiven(input.email))
      && (r.value.mobile.Some? <==> IsGiven(input.mobile))
      && (r.value.dayStart.Some? <==> IsGiven(input.dob))
      && (r.value.below.Some? <==> IsGiven(input.next))
    ensures r.Success? ==>
      && (IsGiven(input.name) ==> r.value.name == input.name)
      && (IsGiven(input.email) ==> r.value.email == input.email)
      && (IsGiven(input.mobile) ==> r.value.mobile == input.mobile)
      && (IsGiven(input.dob) ==> r.value.dayStart == Dates.ParseIsoDate(input.dob.value))
      && (IsGiven(input.next) ==> r.value.below == ParseObjectId(input.next.value))
  {
    var below := if IsGiven(input.next) then ParseObjectId(input.next.value) else None;
    var day := if IsGiven(input.dob) then Dates.ParseIsoDate(input.dob.value) else None;
    if IsGiven(input.next) && below.None? then Failure(BadObjectId)
    else if IsGiven(input.dob) && day.None? then Failure(CastFailed)
    else
      Success(Filter(
        if IsGiven(input.name) then input.name else None,
        if IsGiven(input.email) then input.email else None,
        if IsGiven(input.mobile) then input.mobile else None,
        day,
        below))
  }

  /**
   * A record satisfies every part of the filter: name and email contain the
   * text ignoring case, one of the two mobiles contains the number, the birth
   * date lies in [day start, next day start), the id lies below the cursor.
   */
  predicate Matches(u: User, f: Filter) {
    && (f.name.Some? ==> u.name.Some? && ContainsIgnoringCase(u.name.value, f.name.value))
    && (f.email.Some? ==> ContainsIgnoringCase(u.email, f.email.value))
    && (f.mobile.Some? ==>
          (u.primaryMobile.Some? && Contains(u.primaryMobile.value, f.mobile.value))
          || (u.secondaryMobile.Some? && Contains(u.secondaryMobile.value, f.mobile.value)))
    && (f.dayStart.Some? ==> u.dateOfBirth.Some? && Dates.InDay(f.dayStart.value, u.dateOfBirth.value))
    && (f.below.Some? ==> u.id < f.below.value)
  }

  /** The listing never looks at the soft-delete flag: a deleted record is listed like a live one. */
  lemma SoftDeletedStillListed(u: User, f: Filter, at: int)
    ensures Matches(u.(isDeleted := true, deletedAt := Some(at)), f) <==> Matches(u, f)
  {
  }

  // ---------------------------------------------------------------------
  // getUsersService: order and pages

  predicate Ascending(docs: seq<User>) {
    forall i, j :: 0 <= i < j < |docs| ==> docs[i].id < docs[j].id
  }

  predicate StrictlyDescending(s: seq<User>) {
    forall i, j :: 0 <= i < j < |s| ==> s[i].id > s[j].id
  }

  /** `find(query).sort({ _id: -1 })` over a collection stored in id order: the matches, latest first. */
  function MatchDesc(docs: seq<User>, f: Filter): (r: seq<User>)
    ensures |r| <= |docs|
    ensures forall x :: x in r ==> x in docs && Matches(x, f)
    ensures forall x :: x in docs && Matches(x, f) ==> x in r
  {
    if docs == [] then []
    else
      var last := docs[|docs| - 1];
      var rest := MatchDesc(docs[..|docs| - 1], f);
      assert docs == docs[..|docs| - 1] + [last];
      if Matches(last, f) then [last] + rest else rest
  }

  lemma {:induction false} MatchDescDescending(docs: seq<User>, f: Filter)
    requires Ascending(docs)
    ensures StrictlyDescending(MatchDesc(docs, f))
  {
    if docs != [] {
      var pre, last := docs[..|docs| - 1], docs[|docs| - 1];
      MatchDescDescending(pre, f);
      var rest := MatchDesc(pre, f);
      forall x | x in rest
        ensures x.id < last.id
      {
        var k :| 0 <= k < |pre| && pre[k] == x;
      }
    }
  }

  function Min(a: nat, b: nat): nat { if a < b then a else b }

  /** One page in terms of the whole answer: the records shown, whether more follow, the cursor. */
  datatype Window = Window(records: seq<User>, hasNextPage: bool, nextCursor: Option<nat>)

  /**
   * The page `getUsersService` returns: at most `limit` records, the first of
   * the latest-first matches; more follow exactly when more than `limit`
   * matched; the cursor is the last shown id, absent only for an empty page.
   */
  function PageWindow(docs: seq<User>, f: Filter, limit: nat): (w: Window)
    ensures var all := MatchDesc(docs, f);
      && |w.records| == Min(limit, |all|)
      && w.records == all[..Min(limit, |all|)]
      && (w.hasNextPage <==> |all| > limit)
      && (w.nextCursor.Some? <==> |w.records| > 0)
      && (w.nextCursor.Some? ==> w.nextCursor.value == w.records[|w.records| - 1].id)
  {
    var all := MatchDesc(docs, f);
    var shown := all[..Min(limit, |all|)];
    Window(shown, |all| > limit, if |shown| > 0 then Some(shown[|shown| - 1].id) else None)
  }

  /** Every listed record satisfies the filter, they come latest first, and all lie below the cursor. */
  lemma PageWindowOrdered(docs: seq<User>, f: Filter, limit: nat)
    requires Ascending(docs)
    ensures var w := PageWindow(docs, f, limit);
      && StrictlyDescending(w.records)
      && (forall i :: 0 <= i < |w.records| ==> w.records[i] in docs && Matches(w.records[i], f))
      && (f.below.Some? ==> forall i :: 0 <= i < |w.records| ==> w.records[i].id < f.below.value)
  {
    var all := MatchDesc(docs, f);
    MatchDescDescending(docs, f);
    var w := PageWindow(docs, f, limit);
    forall i | 0 <= i < |w.records|
      ensures w.records[i] in docs && Matches(w.records[i], f)
    {
      assert w.records[i] == all[i];
    }
  }

  /** The JSON the service answers with: the listed records and the pagination block. */
  datatype Page = Page(users: seq<Listing>, limit: nat, hasNextPage: bool, nextCursor: Option<nat>)

  /**
   * `getUsersService`: fetch `limit + 1` latest-first matches, set
   * `hasNextPage` when the extra one came back, drop it, and take the id of
   * the last remaining record as the next cursor.
   */
  method GetUsers(db: UserCollection, input: GetUsersInput) returns (r: Result<Page, Error>)
    requires db.Valid()
    ensures BuildQuery(input).Failure? ==> r == Failure(Unexpected(BuildQuery(input).error))
    ensures BuildQuery(input).Success? ==>
      var w := PageWindow(db.docs, BuildQuery(input).value, input.limit);
      r == Success(Page(Listings(w.records), input.limit, w.hasNextPage, w.nextCursor))
  {
    var q := BuildQuery(input);
    if q.Failure? {
      return Failure(Unexpected(q.error));
    }
    var all := MatchDesc(db.docs, q.value);
    var users := all[..Min(input.limit + 1, |all|)];
    var hasNextPage := |users| > input.limit;
    if hasNextPage {
      users := users[..|users| - 1];
    }
    assert users == all[..Min(input.limit, |all|)];
    var nextCursor := if |users| > 0 then Some(users[|users| - 1].id) else None;
    r := Success(Page(Listings(users), input.limit, hasNextPage, nextCursor));
  }

  // ---------------------------------------------------------------------
  // Following the cursor

  /** Records with ids all below `b`, and `b` within the old bound: the new bound removes nothing. */
  lemma {:induction false} BoundBeyondAll(docs: seq<User>, f: Filter, b: nat)
    requires forall i :: 0 <= i < |docs| ==> docs[i].id < b
    requires f.below.None? || b <= f.below.value
    ensures MatchDesc(docs, f.(below := Some(b))) == MatchDesc(docs, f)
  {
    if docs != [] {
      BoundBeyondAll(docs[..|docs| - 1], f, b);
    }
  }

  /**
   * Restarting below the id of the `k`-th latest match gives exactly the
   * matches after it: the next page starts where the previous one ended.
   */
  lemma {:induction false} CursorSplit(docs: seq<User>, f: Filter, k: nat)
    requires Ascending(docs)
    requires k < |MatchDesc(docs, f)|
    ensures MatchDesc(docs, f.(below := Some(MatchDesc(docs, f)[k].id))) == MatchDesc(docs, f)[k + 1..]
  {
    var all := MatchDesc(docs, f);
    var b := all[k].id;
    var pre, last := docs[..|docs| - 1], docs[|docs| - 1];
    var rest := MatchDesc(pre, f);
    var g := f.(below := Some(b));
    assert Ascending(pre);
    if Matches(last, f) {
      assert all == [last] + rest;
      if k == 0 {
        forall i | 0 <= i < |pre|
          ensures pre[i].id < b
        {
          assert pre[i] == docs[i];
        }
        BoundBeyondAll(pre, f, b);
        assert MatchDesc(pre, g) == all[k + 1..];
      } else {
        assert all[k] == rest[k - 1] && all[k + 1..] == rest[k..];
        CursorSplit(pre, f, k - 1);
        LastIsHighest(docs, all[k]);
      }
    } else {
      CursorSplit(pre, f, k);
      LastIsHighest(docs, all[k]);
    }
    MatchDescDropsLast(docs, g);
  }

  /** In ascending order, no stored record has an id above the last one's. */
  lemma LastIsHighest(docs: seq<User>, x: User)
    requires Ascending(docs) && x in docs
    ensures x.id <= docs[|docs| - 1].id
  {
  }

  /** A last record that does not match adds nothing to the matches. */
  lemma MatchDescDropsLast(docs: seq<User>, f: Filter)
    requires docs != [] && !Matches(docs[|docs| - 1], f)
    ensures MatchDesc(docs, f) == MatchDesc(docs[..|docs| - 1], f)
  {
  }

  /**
   * What a client gets by asking for the first page and then, while
   * `hasNextPage` holds, passing each `nextCursor` back: all the pages
   * concatenated.
   */
  ghost function Walk(docs: seq<User>, f: Filter, limit: nat, cursor: Option<nat>): seq<User>
    requires Ascending(docs) && limit >= 1
    decreases |MatchDesc(docs, f.(below := cursor))|
  {
    var g := f.(below := cursor);
    var w := PageWindow(docs, g, limit);
    if !w.hasNextPage then w.records
    else
      CursorSplit(docs, g, limit - 1);
      w.records + Walk(docs, f, limit, w.nextCursor)
  }

  /**
   * Paging through with any positive page size yields every match exactly
   * once, latest first: nothing is skipped and no record appears twice.
   */
  lemma {:induction false} WalkListsEverything(docs: seq<User>, f: Filter, limit: nat, cursor: Option<nat>)
    requires Ascending(docs) && limit >= 1
    ensures Walk(docs, f, limit, cursor) == MatchDesc(docs, f.(below := cursor))
    ensures StrictlyDescending(Walk(docs, f, limit, cursor))
    decreases |MatchDesc(docs, f.(below := cursor))|
  {
    var g := f.(below := cursor);
    var all := MatchDesc(docs, g);
    var w := PageWindow(docs, g, limit);
    MatchDescDescending(docs, g);
    if w.hasNextPage {
      CursorSplit(docs, g, limit - 1);
      assert g.(below := w.nextCursor) == f.(below := w.nextCursor);
      WalkListsEverything(docs, f, limit, w.nextCursor);
      assert all == all[..limit] + all[limit..];
    }
  }

  // ---------------------------------------------------------------------
  // updateUserService

  /** `UpdateUserInput`: every field optional. */
  datatype UpdateUserInput = UpdateUserInput(
    name: Option<string>,
    email: Option<string>,
    primaryMobile: Option<string>,
    secondaryMobile: Option<string>,
    aadhaar: Option<string>,
    pan: Option<string>,
    dateOfBirth: Option<string>,
    placeOfBirth: Option<string>,
    currentAddress: Option<string>,
    permanentAddress: Option<string>)

  /** `{ ...data }` with a truthy aadhaar and pan replaced by their ciphertexts. */
  function UpdatePayload(data: UpdateUserInput): (p: Payload)
    ensures IsGiven(data.aadhaar) ==> p.aadhaar == Some(Cipher.Encrypt(data.aadhaar.value))
    ensures !IsGiven(data.aadhaar) ==> p.aadhaar == data.aadhaar
    ensures IsGiven(data.pan) ==> p.pan == Some(Cipher.Encrypt(data.pan.value))
    ensures !IsGiven(data.pan) ==> p.pan == data.pan
    ensures p.name == data.name && p.email == data.email && p.primaryMobile == data.primaryMobile
    ensures p.secondaryMobile == data.secondaryMobile && p.dateOfBirth == data.dateOfBirth
    ensures p.placeOfBirth == data.placeOfBirth && p.currentAddress == data.currentAddress
    ensures p.permanentAddress == data.permanentAddress && p.isVerified.None?
  {
    var spread := Payload(data.name, data.email, data.primaryMobile, data.secondaryMobile, data.aadhaar,
                          data.pan, data.dateOfBirth, data.placeOfBirth, data.currentAddress,
                          data.permanentAddress, None);
    var withAadhaar := if IsGiven(data.aadhaar) then spread.(aadhaar := Some(Cipher.Encrypt(data.aadhaar.value))) else spread;
    if IsGiven(data.pan) then withAadhaar.(pan := Some(Cipher.Encrypt(data.pan.value))) else withAadhaar
  }

  /** An update changes only what it supplies, and a supplied aadhaar is stored as its ciphertext. */
  lemma UpdateChangesOnlySupplied(u: User, data: UpdateUserInput, now: int)
    requires Merge(u, UpdatePayload(data), now).Success?
    ensures var m := Merge(u, UpdatePayload(data), now).value;
      && (data.name.None? ==> m.name == u.name)
      && (data.email.None? ==> m.email == u.email)
      && (data.primaryMobile.None? ==> m.primaryMobile == u.primaryMobile)
      && (data.secondaryMobile.None? ==> m.secondaryMobile == u.secondaryMobile)
      && (data.aadhaar.None? ==> m.aadhaar == u.aadhaar)
      && (data.pan.None? ==> m.pan == u.pan)
      && (data.dateOfBirth.None? ==> m.dateOfBirth == u.dateOfBirth)
      && (data.placeOfBirth.None? ==> m.placeOfBirth == u.placeOfBirth)
      && (data.currentAddress.None? ==> m.currentAddress == u.currentAddress)
      && (data.permanentAddress.None? ==> m.permanentAddress == u.permanentAddress)
      && (IsGiven(data.aadhaar) ==> m.aadhaar == Some(Cipher.Encrypt(data.aadhaar.value)))
      && m.id == u.id && m.isDeleted == u.isDeleted && m.deletedAt == u.deletedAt && m.createdAt == u.createdAt
  {
    MergeKeepsUnsupplied(u, UpdatePayload(data), now);
  }

  const UserNotFound: Error := HttpError(404, "User not found")

  /** What `updateUserService` answers and the collection it leaves behind. */
  datatype Updated = Updated(answer: Result<Profile, Error>, docs: seq<User>)

  /**
   * `updateUserService` on the collection `docs`: an id that is not an
   * ObjectId fails its cast; an id with no record answers 404; otherwise the
   * merged record replaces the stored one in place and its profile is the
   * answer, unless the date does not cast or a unique index refuses the
   * change. A failure writes nothing.
   */
  function UpdateOutcome(docs: seq<User>, id: string, data: UpdateUserInput, now: int): (o: Updated)
    ensures o.answer.Failure? ==> o.docs == docs
    ensures o.answer.Failure? ==> o.answer.error == UserNotFound || o.answer.error.Unexpected?
    ensures ParseObjectId(id).None? ==> o.answer == Failure(Unexpected(CastFailed))
    ensures o.answer == Failure(UserNotFound) <==>
      ParseObjectId(id).Some? && IndexOfId(docs, ParseObjectId(id).value).None?
    ensures o.answer == Failure(Unexpected(CastFailed)) <==>
      || ParseObjectId(id).None?
      || (IndexOfId(docs, ParseObjectId(id).value).Some? &&
          Merge(docs[IndexOfId(docs, ParseObjectId(id).value).value], UpdatePayload(data), now).Failure?)
    ensures o.answer == Failure(Unexpected(DuplicateKey)) <==>
      && ParseObjectId(id).Some? && IndexOfId(docs, ParseObjectId(id).value).Some?
      && var i := IndexOfId(docs, ParseObjectId(id).value).value;
         var m := Merge(docs[i], UpdatePayload(data), now);
         m.Success? && !AdmittedBy(docs[..i] + docs[i + 1..], m.value)
    ensures o.answer.Success? <==>
      && ParseObjectId(id).Some? && IndexOfId(docs, ParseObjectId(id).value).Some?
      && var i := IndexOfId(docs, ParseObjectId(id).value).value;
         var m := Merge(docs[i], UpdatePayload(data), now);
         m.Success? && AdmittedBy(docs[..i] + docs[i + 1..], m.value)
    ensures o.answer.Success? ==>
      && ParseObjectId(id).Some? && IndexOfId(docs, ParseObjectId(id).value).Some?
      && var i := IndexOfId(docs, ParseObjectId(id).value).value;
      && Merge(docs[i], UpdatePayload(data), now).Success?
      && o.docs == docs[i := Merge(docs[i], UpdatePayload(data), now).value]
      && o.answer.value == ProfileOf(o.docs[i])
  {
    var key := ParseObjectId(id);
    if key.None? then Updated(Failure(Unexpected(CastFailed)), docs)
    else
      var found := IndexOfId(docs, key.value);
      if found.None? then Updated(Failure(UserNotFound), docs)
      else
        var i := found.value;
        var m := Merge(docs[i], UpdatePayload(data), now);
        if m.Failure? then Updated(Failure(Unexpected(m.error)), docs)
        else if !AdmittedBy(docs[..i] + docs[i + 1..], m.value) then Updated(Failure(Unexpected(DuplicateKey)), docs)
        else Updated(Success(ProfileOf(m.value)), docs[i := m.value])
  }

  /**
   * `updateUserService`: look the record up, then `findByIdAndUpdate` it and
   * answer with the new profile.
   */
  method UpdateUser(db: UserCollection, id: string, data: UpdateUserInput, now: int) returns (r: Result<Profile, Error>)
    requires db.Valid()
    modifies db
    ensures db.Valid() && db.nextId == old(db.nextId)
    ensures r == UpdateOutcome(old(db.docs), id, data, now).answer
    ensures db.docs == UpdateOutcome(old(db.docs), id, data, now).docs
  {
    ghost var outcome := UpdateOutcome(db.docs, id, data, now);
    var key := ParseObjectId(id);
    if key.None? {
      return Failure(Unexpected(CastFailed));
    }
    var findUser := IndexOfId(db.docs, key.value);
    if findUser.None? {
      return Failure(UserNotFound);
    }
    var payload := UpdatePayload(data);
    ghost var m := Merge(db.docs[findUser.value], payload, now);
    var updated := db.UpdateById(key.value, payload, now);
    if updated.Failure? {
      return Failure(Unexpected(updated.error));
    }
    if updated.value.None? {
      return Failure(UserNotFound);
    }
    assert updated.value.value == m.value;
    assert outcome.answer == Success(ProfileOf(m.value));
    r := Success(ProfileOf(updated.value.value));
  }
}
