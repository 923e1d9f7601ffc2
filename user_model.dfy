/**
 * The `User` collection of backend/user/src/models/userModel.ts: the stored
 * record, what the schema does to a value on its way in (setters, casts,
 * defaults, validators), the two unique indexes, and the collection itself as
 * an object whose document list the database operations replace.
 */
module UserModel {
  import opened Wrappers
  import opened Text
  import opened Http
  import Dates

  // ---------------------------------------------------------------------
  // Object ids

  /** An ObjectId is a 96-bit number; `_id.toString()` prints 24 lower-case hexadecimal digits. */
  const ObjectIdSpace: nat := Pow(16, 24)

  function ObjectIdText(id: nat): (s: string)
    ensures |s| == 24 && AllHex(s) && HasNoUpper(s)
  {
    Hex(id, 24)
  }

  /** `new ObjectId(s)` for a string: 24 hexadecimal digits of either case, anything else throws. */
  function ParseObjectId(s: string): (r: Option<nat>)
    ensures r.Some? ==> r.value < ObjectIdSpace
  {
    if |s| == 24 && AllHex(s) then Some(HexValue(s)) else None
  }

  /** The printed form of an id reads back as the same id. */
  lemma ObjectIdRoundTrip(id: nat)
    requires id < ObjectIdSpace
    ensures ParseObjectId(ObjectIdText(id)) == Some(id)
  {
    HexRoundTrip(id, 24);
    DivModUnique(id, ObjectIdSpace, 0, id);
  }

  /** Two ids print alike exactly when they are the same id. */
  lemma ObjectIdTextInjective(a: nat, b: nat)
    requires a < ObjectIdSpace && b < ObjectIdSpace
    ensures ObjectIdText(a) == ObjectIdText(b) <==> a == b
  {
    ObjectIdRoundTrip(a);
    ObjectIdRoundTrip(b);
  }

  // ---------------------------------------------------------------------
  // The stored record

  /**
   * A stored user. Dates are milliseconds since the epoch. `isVerified`,
   * declared on the TypeScript interface, has no schema path and is never
   * stored, so it is not a field here.
   */
  datatype User = User(
    id: nat,
    name: Option<string>,
    email: string,
    primaryMobile: Option<string>,
    secondaryMobile: Option<string>,
    aadhaar: Option<string>,
    pan: Option<string>,
    dateOfBirth: Option<int>,
    placeOfBirth: Option<string>,
    currentAddress: Option<string>,
    permanentAddress: Option<string>,
    isDeleted: bool,
    deletedAt: Option<int>,
    createdAt: int,
    updatedAt: int)

  /**
   * A document handed to `create` or a change handed to `findByIdAndUpdate`:
   * each field present or absent. `isVerified` can be passed but is dropped.
   */
  datatype Payload = Payload(
    name: Option<string>,
    email: Option<string>,
    primaryMobile: Option<string>,
    secondaryMobile: Option<string>,
    aadhaar: Option<string>,
    pan: Option<string>,
    dateOfBirth: Option<string>,
    placeOfBirth: Option<string>,
    currentAddress: Option<string>,
    permanentAddress: Option<string>,
    isVerified: Option<bool>)

  const NoFields: Payload := Payload(None, None, None, None, None, None, None, None, None, None, None)

  // ---------------------------------------------------------------------
  // Setters: what the schema does to a value on every write

  /** `email`: `lowercase: true, trim: true`; also applied to `findOne({email})` filters. */
  function NormaliseEmail(s: string): (r: string)
    ensures exists t :: IsTrimOf(s, t) && r == LowerCase(t)
    ensures IsNormalEmail(r)
  {
    LowerCaseKeepsTrimmed(Trim(s));
    LowerCase(Trim(s))
  }

  predicate IsNormalEmail(s: string) {
    HasNoUpper(s) && IsTrimmed(s)
  }

  /** A normal email is its own normal form, so normalising twice changes nothing. */
  lemma NormaliseEmailIdempotent(s: string)
    requires IsNormalEmail(s)
    ensures NormaliseEmail(s) == s
  {
    TrimFixed(s);
    LowerCaseFixed(s);
  }

  function TrimField(o: Option<string>): Option<string> {
    if o.Some? then Some(Trim(o.value)) else None
  }

  /** `pan`: `uppercase: true`, whatever the string is. */
  function UpperField(o: Option<string>): Option<string> {
    if o.Some? then Some(UpperCase(o.value)) else None
  }

  /** Casting a `Date` path: absent and the empty string cast to no date, any other string must parse. */
  function CastDate(o: Option<string>): Result<Option<int>, Fault> {
    if o.None? || o.value == "" then Success(None)
    else
      var t := Dates.ParseIsoDate(o.value);
      if t.Some? then Success(Some(t.value)) else Failure(CastFailed)
  }

  /** The setters have been applied: what every stored record satisfies. */
  predicate Normalised(u: User) {
    && IsNormalEmail(u.email)
    && (u.name.Some? ==> IsTrimmed(u.name.value))
    && (u.pan.Some? ==> HasNoLower(u.pan.value))
    && (u.placeOfBirth.Some? ==> IsTrimmed(u.placeOfBirth.value))
  }

  /** The schema validators, run by `create` (not by `findByIdAndUpdate`). */
  predicate PassesValidators(u: User) {
    && |u.email| > 0
    && (u.name.Some? ==> |u.name.value| >= 1)
    && (u.currentAddress.Some? ==> |u.currentAddress.value| >= 10)
    && (u.permanentAddress.Some? ==> |u.permanentAddress.value| >= 10)
  }

  /**
   * The record `create` would store under id `id` at time `now`: setters
   * applied, `isDeleted` defaulted to false, no `deletedAt`, both timestamps
   * `now`; refused with a validation error when a non-empty date does not cast, the
   * email is missing or empty after trimming, the name trims to nothing, or a
   * given address is shorter than 10 characters.
   */
  function Build(p: Payload, id: nat, now: int): (r: Result<User, Fault>)
    ensures r.Success? <==>
      && p.email.Some? && Trim(p.email.value) != ""
      && (p.dateOfBirth.Some? && p.dateOfBirth.value != "" ==> Dates.ParseIsoDate(p.dateOfBirth.value).Some?)
      && (p.name.Some? ==> Trim(p.name.value) != "")
      && (p.currentAddress.Some? ==> |p.currentAddress.value| >= 10)
      && (p.permanentAddress.Some? ==> |p.permanentAddress.value| >= 10)
    ensures r.Success? ==> Normalised(r.value) && PassesValidators(r.value)
    ensures r.Success? ==> r.value.email == NormaliseEmail(p.email.value)
    ensures r.Success? ==> r.value.name == TrimField(p.name) && r.value.placeOfBirth == TrimField(p.placeOfBirth)
    ensures r.Success? ==> r.value.currentAddress == p.currentAddress && r.value.permanentAddress == p.permanentAddress
    ensures r.Success? ==>
      r.value.dateOfBirth == if p.dateOfBirth.Some? && p.dateOfBirth.value != "" then Dates.ParseIsoDate(p.dateOfBirth.value) else None
    ensures r.Success? ==> r.value.createdAt == now && r.value.updatedAt == now
    ensures r.Success? ==> r.value.id == id && !r.value.isDeleted && r.value.deletedAt.None?
    ensures r.Success? ==> r.value.aadhaar == p.aadhaar && r.value.pan == UpperField(p.pan)
    ensures r.Success? ==> r.value.primaryMobile == p.primaryMobile && r.value.secondaryMobile == p.secondaryMobile
    ensures p.email.None? ==> r == Failure(ValidationFailed)
    ensures r.Failure? ==> r.error == ValidationFailed
  {
    if p.email.None? then Failure(ValidationFailed)
    else
      var dob := CastDate(p.dateOfBirth);
      if dob.Failure? then Failure(ValidationFailed)
      else
        var u := User(id, TrimField(p.name), NormaliseEmail(p.email.value), p.primaryMobile,
                      p.secondaryMobile, p.aadhaar, UpperField(p.pan), dob.value,
                      TrimField(p.placeOfBirth), p.currentAddress, p.permanentAddress,
                      false, None, now, now);
        if PassesValidators(u) then Success(u) else Failure(ValidationFailed)
  }

  /**
   * A change applied by `findByIdAndUpdate` with `{ new: true }`: every
   * supplied field is set through its setter, `updatedAt` becomes `now`,
   * validators do not run, and a date that does not cast throws.
   */
  function Merge(u: User, p: Payload, now: int): (r: Result<User, Fault>)
    ensures r.Failure? <==>
      p.dateOfBirth.Some? && p.dateOfBirth.value != "" && Dates.ParseIsoDate(p.dateOfBirth.value).None?
    ensures r.Failure? ==> r.error == CastFailed
    ensures r.Success? ==> r.value.id == u.id && r.value.createdAt == u.createdAt && r.value.updatedAt == now
    ensures r.Success? && Normalised(u) ==> Normalised(r.value)
    ensures r.Success? ==> var m := r.value;
      && (p.name.Some? ==> m.name == Some(Trim(p.name.value)))
      && (p.email.Some? ==> m.email == NormaliseEmail(p.email.value))
      && (p.primaryMobile.Some? ==> m.primaryMobile == p.primaryMobile)
      && (p.secondaryMobile.Some? ==> m.secondaryMobile == p.secondaryMobile)
      && (p.aadhaar.Some? ==> m.aadhaar == p.aadhaar)
      && (p.pan.Some? ==> m.pan == Some(UpperCase(p.pan.value)))
      && (p.dateOfBirth.Some? ==>
            m.dateOfBirth == if p.dateOfBirth.value == "" then None else Dates.ParseIsoDate(p.dateOfBirth.value))
      && (p.placeOfBirth.Some? ==> m.placeOfBirth == Some(Trim(p.placeOfBirth.value)))
      && (p.currentAddress.Some? ==> m.currentAddress == p.currentAddress)
      && (p.permanentAddress.Some? ==> m.permanentAddress == p.permanentAddress)
  {
    var dob := CastDate(p.dateOfBirth);
    if dob.Failure? then Failure(CastFailed)
    else
      Success(User(
        u.id,
        Pick(TrimField(p.name), u.name),
        if p.email.Some? then NormaliseEmail(p.email.value) else u.email,
        Pick(p.primaryMobile, u.primaryMobile),
        Pick(p.secondaryMobile, u.secondaryMobile),
        Pick(p.aadhaar, u.aadhaar),
        Pick(UpperField(p.pan), u.pan),
        if p.dateOfBirth.Some? then dob.value else u.dateOfBirth,
        Pick(TrimField(p.placeOfBirth), u.placeOfBirth),
        Pick(p.currentAddress, u.currentAddress),
        Pick(p.permanentAddress, u.permanentAddress),
        u.isDeleted, u.deletedAt, u.createdAt, now))
  }

  /** The supplied value if there is one, else the stored one. */
  function Pick<T>(supplied: Option<T>, stored: Option<T>): Option<T> {
    if supplied.Some? then supplied else stored
  }

  /** A field the change does not supply keeps its stored value. */
  lemma MergeKeepsUnsupplied(u: User, p: Payload, now: int)
    requires Merge(u, p, now).Success?
    ensures var m := Merge(u, p, now).value;
      && (p.name.None? ==> m.name == u.name)
      && (p.email.None? ==> m.email == u.email)
      && (p.primaryMobile.None? ==> m.primaryMobile == u.primaryMobile)
      && (p.secondaryMobile.None? ==> m.secondaryMobile == u.secondaryMobile)
      && (p.aadhaar.None? ==> m.aadhaar == u.aadhaar)
      && (p.pan.None? ==> m.pan == u.pan)
      && (p.dateOfBirth.None? ==> m.dateOfBirth == u.dateOfBirth)
      && (p.placeOfBirth.None? ==> m.placeOfBirth == u.placeOfBirth)
      && (p.currentAddress.None? ==> m.currentAddress == u.currentAddress)
      && (p.permanentAddress.None? ==> m.permanentAddress == u.permanentAddress)
      && m.isDeleted == u.isDeleted && m.deletedAt == u.deletedAt
  {
  }

  /** `aadhaar` and `pan` are `select: false`: a default read leaves them out. */
  function DefaultRead(u: User): (r: User)
    ensures r.aadhaar.None? && r.pan.None?
    ensures r.(aadhaar := u.aadhaar, pan := u.pan) == u
  {
    u.(aadhaar := None, pan := None)
  }

  // ---------------------------------------------------------------------
  // Unique indexes

  /**
   * `email` and `primaryMobile` carry `unique: true` indexes, which are not
   * sparse: a record without a `primaryMobile` is indexed under null, so two
   * such records collide just like two with the same number.
   */
  predicate Collides(a: User, b: User) {
    a.email == b.email || a.primaryMobile == b.primaryMobile
  }

  predicate AdmittedBy(docs: seq<User>, u: User) {
    forall i :: 0 <= i < |docs| ==> !Collides(docs[i], u)
  }

  /** Everything the stored collection satisfies between operations. */
  ghost predicate StoreInvariant(docs: seq<User>, nextId: nat) {
    && (forall i, j :: 0 <= i < j < |docs| ==> docs[i].id < docs[j].id)
    && (forall i :: 0 <= i < |docs| ==> docs[i].id < nextId)
    && (forall i :: 0 <= i < |docs| ==> Normalised(docs[i]))
    && (forall i, j :: 0 <= i < j < |docs| ==> !Collides(docs[i], docs[j]))
  }

  lemma AppendKeepsInvariant(docs: seq<User>, nextId: nat, u: User)
    requires StoreInvariant(docs, nextId) && u.id == nextId && Normalised(u) && AdmittedBy(docs, u)
    ensures StoreInvariant(docs + [u], nextId + 1)
  {
  }

  lemma ReplaceKeepsInvariant(docs: seq<User>, nextId: nat, i: nat, u: User)
    requires StoreInvariant(docs, nextId) && i < |docs| && u.id == docs[i].id && Normalised(u)
    requires forall k :: 0 <= k < |docs| && k != i ==> !Collides(docs[k], u)
    ensures StoreInvariant(docs[i := u], nextId)
  {
    var d := docs[i := u];
    forall a, b | 0 <= a < b < |d|
      ensures d[a].id < d[b].id && !Collides(d[a], d[b])
    {
      if a == i {
        assert !Collides(docs[b], u);
      } else if b == i {
        assert !Collides(docs[a], u);
      }
    }
  }

  // ---------------------------------------------------------------------
  // Reads

  /** `findOne({ email })`: the query value goes through the same setters as a write. */
  function FindByEmail(docs: seq<User>, email: string): (r: Option<User>)
    ensures r.Some? ==> r.value in docs && r.value.email == NormaliseEmail(email)
    ensures r.None? ==> forall i :: 0 <= i < |docs| ==> docs[i].email != NormaliseEmail(email)
  {
    FirstWithEmail(docs, NormaliseEmail(email))
  }

  function FirstWithEmail(docs: seq<User>, email: string): (r: Option<User>)
    ensures r.Some? ==> r.value in docs && r.value.email == email
    ensures r.None? ==> forall i :: 0 <= i < |docs| ==> docs[i].email != email
  {
    if docs == [] then None
    else if docs[0].email == email then Some(docs[0])
    else FirstWithEmail(docs[1..], email)
  }

  /** `findById(id)`: the position of the record with that id. */
  function IndexOfId(docs: seq<User>, id: nat): (r: Option<nat>)
    ensures r.Some? ==> r.value < |docs| && docs[r.value].id == id
    ensures r.None? ==> forall i :: 0 <= i < |docs| ==> docs[i].id != id
  {
    if docs == [] then None
    else if docs[0].id == id then Some(0)
    else
      var rest := IndexOfId(docs[1..], id);
      if rest.Some? then Some(rest.value + 1) else None
  }

  // ---------------------------------------------------------------------
  // The collection

  class UserCollection {
    var docs: seq<User>
    var nextId: nat

    ghost predicate Valid()
      reads this
    {
      StoreInvariant(docs, nextId)
    }

    constructor ()
      ensures Valid() && docs == []
    {
      docs, nextId := [], 0;
    }

    /**
     * `create(doc)`: build the record under a fresh id, larger than every id
     * so far, and store it unless a unique index already holds its email or
     * primary mobile.
     */
    method Insert(p: Payload, now: int) returns (r: Result<User, Fault>)
      requires Valid()
      modifies this
      ensures Valid()
      ensures Build(p, old(nextId), now).Failure? ==> r == Build(p, old(nextId), now) && docs == old(docs)
      ensures Build(p, old(nextId), now).Success? && !AdmittedBy(old(docs), Build(p, old(nextId), now).value)
        ==> r == Failure(DuplicateKey) && docs == old(docs)
      ensures Build(p, old(nextId), now).Success? && AdmittedBy(old(docs), Build(p, old(nextId), now).value)
        ==> r == Build(p, old(nextId), now) && docs == old(docs) + [r.value]
      ensures nextId == if r.Success? then old(nextId) + 1 else old(nextId)
    {
      var built := Build(p, nextId, now);
      if built.Failure? {
        return built;
      }
      if !AdmittedBy(docs, built.value) {
        return Failure(DuplicateKey);
      }
      AppendKeepsInvariant(docs, nextId, built.value);
      docs := docs + [built.value];
      nextId := nextId + 1;
      r := built;
    }

    /**
     * `findByIdAndUpdate(id, change, { new: true })`: no record, no write and
     * no result; otherwise the merged record replaces the old one in place
     * unless a unique index refuses it.
     */
    method UpdateById(id: nat, p: Payload, now: int) returns (r: Result<Option<User>, Fault>)
      requires Valid()
      modifies this
      ensures Valid() && nextId == old(nextId)
      ensures IndexOfId(old(docs), id).None? ==> r == Success(None) && docs == old(docs)
      ensures IndexOfId(old(docs), id).Some? ==>
        var i := IndexOfId(old(docs), id).value;
        var m := Merge(old(docs)[i], p, now);
        if m.Failure? then r == Failure(m.error) && docs == old(docs)
        else if !AdmittedBy(old(docs)[..i] + old(docs)[i + 1..], m.value) then r == Failure(DuplicateKey) && docs == old(docs)
        else r == Success(Some(m.value)) && docs == old(docs)[i := m.value]
    {
      var found := IndexOfId(docs, id);
      if found.None? {
        return Success(None);
      }
      var i := found.value;
      var m := Merge(docs[i], p, now);
      if m.Failure? {
        return Failure(m.error);
      }
      var others := docs[..i] + docs[i + 1..];
      if !AdmittedBy(others, m.value) {
        return Failure(DuplicateKey);
      }
      forall k | 0 <= k < |docs| && k != i
        ensures !Collides(docs[k], m.value)
      {
        if k < i {
          assert others[k] == docs[k];
        } else {
          assert others[k - 1] == docs[k];
        }
      }
      ReplaceKeepsInvariant(docs, nextId, i, m.value);
      docs := docs[i := m.value];
      r := Success(Some(m.value));
    }
  }

  // ---------------------------------------------------------------------
  // Properties of the collection

  /**
   * The record created at OTP verification has only an email. Because the
   * primary-mobile index is not sparse, a second such record collides with
   * the first one and the insert is refused with a duplicate key.
   */
  lemma SecondMobilelessRecordRefused(docs: seq<User>, first: User, email: string, id: nat, now: int)
    requires first in docs && first.primaryMobile.None?
    requires Build(NoFields.(email := Some(email), isVerified := Some(true)), id, now).Success?
    ensures !AdmittedBy(docs, Build(NoFields.(email := Some(email), isVerified := Some(true)), id, now).value)
  {
    var i :| 0 <= i < |docs| && docs[i] == first;
    assert Collides(docs[i], Build(NoFields.(email := Some(email), isVerified := Some(true)), id, now).value);
  }

  /**
   * Only the email is required: a record with nothing but an email is stored
   * exactly when the email is not blank, with every optional field absent.
   */
  lemma EmailOnlyRecordValid(email: string, id: nat, now: int)
    ensures Build(NoFields.(email := Some(email)), id, now).Success? <==> NormaliseEmail(email) != ""
    ensures Build(NoFields.(email := Some(email)), id, now).Success? ==>
      Build(NoFields.(email := Some(email)), id, now).value
        == User(id, None, NormaliseEmail(email), None, None, None, None, None, None, None, None, false, None, now, now)
  {
  }

  /** `isVerified` reaches no stored field: passing it or not stores the same record. */
  lemma IsVerifiedNotStored(p: Payload, id: nat, now: int)
    ensures Build(p.(isVerified := Some(true)), id, now) == Build(p.(isVerified := None), id, now)
  {
  }

  /** `findByIdAndUpdate` skips the validators: a stored address can end up shorter than 10 characters. */
  lemma UpdateSkipsValidators(u: User, now: int)
    ensures Merge(u, NoFields.(currentAddress := Some("short")), now).Success?
    ensures Merge(u, NoFields.(currentAddress := Some("short")), now).value.currentAddress == Some("short")
  {
  }

  /**
   * The `Date` cast turns an empty string into no date: a create stores the
   * record without one, and an update succeeds and clears the stored date.
   */
  lemma EmptyDateIsNoDate(u: User, p: Payload, id: nat, now: int)
    ensures Build(p.(dateOfBirth := Some("")), id, now) == Build(p.(dateOfBirth := None), id, now)
    ensures Merge(u, p.(dateOfBirth := Some("")), now) == Merge(u.(dateOfBirth := None), p.(dateOfBirth := None), now)
    ensures Merge(u, p.(dateOfBirth := Some("")), now).Success?
    ensures Merge(u, p.(dateOfBirth := Some("")), now).value.dateOfBirth.None?
  {
  }
}
