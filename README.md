# User service model

This Dafny project models the `backend/user` service of the openHearing backend.
That service is a Node/Express application over MongoDB (Mongoose), Redis and RabbitMQ. It provides:

- **Passwordless login.** `loginUser` issues a six-digit code, keeps it in Redis for five minutes and queues a mail carrying it. A per-email marker blocks a new code for a minute. `verifyUser` checks the code and deletes it, finds or creates the user, and sets the session cookie.
- **A user directory.** `createUserService` refuses a taken email or primary mobile and stores aadhaar and PAN encrypted. `getUsersService` lists users with a conjunctive filter and a keyset cursor (id descending, `limit + 1` fetched, one popped). `updateUserService` merges the supplied fields.
- **The code around them.** This covers the ownership checks and input mapping of the user controllers, the error handler, the Mongoose schema of the `User` record (setters, validators, unique indexes, hidden fields), and the zod request schemas with their validating middlewares.

| file | module | what it holds |
|---|---|---|
| `wrappers.dfy` | `Wrappers` | `Option`, `Result` |
| `text.dfy` | `Text` | ASCII case mapping, `String.prototype.trim`, substring search, decimal and hexadecimal numbers |
| `cipher.dfy` | `Cipher` | `encrypt`/`decrypt` as a header-prefixing cipher |
| `dates.dfy` | `Dates` | `YYYY-MM-DD` dates as UTC milliseconds, the one-day window |
| `http.dfy` | `Http` | errors, cookies, responses |
| `error_handler.dfy` | `ErrorHandler` | `errorHandler` |
| `user_model.dfy` | `UserModel` | the `User` record, its setters and validators, and the collection as a class whose document list `create` and `findByIdAndUpdate` replace |
| `auth.dfy` | `Auth` | `OtpService`, a class over the TTL key space, a clock, the outbox and the user collection; `Login`, `Verify` and `Logout` |
| `user_service.dfy` | `UserService` | create, list (the filter, the pages and the cursor walk), update |
| `schema.dfy` | `UserSchema` | `createUserSchema` and `getUsersSchema` as predicates and parse functions |
| `validators.dfy` | `Validators` | the two middlewares over a `Request` object |
| `user_controller.dfy` | `UserController` | the four handlers and the properties that span several files |

The model's conventions:

- Stored ids are natural numbers. An id prints as 24 lower-case hexadecimal digits and parses back from 24 hexadecimal digits of either case.
- Dates are milliseconds since the epoch.
- The Redis clock counts seconds. Record timestamps are that clock times 1000.
- Request bodies and queries seen by the schemas are maps from keys to strings.

## Model

| member | source | states |
|---|---|---|
| Cipher.Encrypt | backend/user/src/utils/encrypt.ts:7-9 | every ciphertext starts with the salted-ciphertext header |
| Cipher.Decrypt | backend/user/src/utils/encrypt.ts:11-14 | text that is not a ciphertext decrypts to the empty string |
| Cipher.DecryptEncrypt | backend/tests/unit/utils/encrypt.test.ts:14-25 | decrypting an encryption gives the plaintext back |
| Cipher.EncryptNeverPlain | backend/tests/unit/utils/encrypt.test.ts:21 | a ciphertext never equals its plaintext |
| Cipher.EmptyAmbiguous | backend/tests/unit/utils/encrypt.test.ts:27-33 | an encrypted empty string and garbage decrypt alike, to "" |
| Cipher.UpperCasedCiphertextUnreadable | backend/user/src/models/userModel.ts:55-60 | an upper-cased ciphertext (what the pan setter stores) no longer decrypts |
| Dates.ParseIsoDate | backend/user/src/services/user.ts:105-106 | a string parses exactly when it is `YYYY-MM-DD` with month 1-12 and day 1-31; the result is the UTC midnight of that day, counted with the proleptic Gregorian calendar from the epoch |
| Dates.EpochIsDayZero | backend/user/src/services/user.ts:105 | 1970-01-01 is day 0 |
| Dates.MarchToMarch | backend/user/src/services/user.ts:105 | consecutive 1 March day numbers are one year length apart (366 days when the later year is a leap year) |
| Dates.NextDateIsNextDay | backend/user/src/services/user.ts:107 | the calendar day after a date has the next day number, across month and year ends |
| Dates.DayOverflowRollsOver | backend/user/src/services/user.ts:105 | a day of month beyond the month's length counts on into the next month |
| Dates.CalendarOrder | backend/user/src/services/user.ts:109-112 | an earlier calendar date has a smaller day number |
| Dates.DaysFromCivilInjective | backend/user/src/services/user.ts:109-112 | two calendar dates with the same day number are the same date |
| Dates.NextDayOneDayLater | backend/user/src/services/user.ts:105-107 | the string of the next day parses exactly one day (86400000 ms) later |
| Dates.CanonicalDatesParseApart | backend/user/src/services/user.ts:105-106 | strings naming existing days parse, and parse to the same instant exactly when they are the same string |
| Dates.FebruaryThirtiethIsMarchSecond | backend/user/src/services/user.ts:105 | "2023-02-30" parses, to the same instant as "2023-03-02" |
| Dates.InDayIsSameDay | backend/user/src/services/user.ts:104-113 | the window [day start, next day start) holds exactly the instants of that calendar day |
| ErrorHandler.HandleError | backend/user/src/middlewares/errorHandler.ts:4-23 | an HttpError answers with its own status code and message, anything else with 500 "Internal Server Error"; the body status always equals the HTTP status and carries no data |
| ErrorHandler.NoDetailLeaks | backend/user/src/middlewares/errorHandler.ts:19-22 | all non-HTTP failures produce the identical answer, so no internal detail leaks |
| UserModel.ObjectIdRoundTrip | backend/user/src/services/user.ts:115-119 | a printed id parses back to the same id |
| UserModel.ObjectIdTextInjective | backend/user/src/controllers/user.ts:61-64 | two ids print alike exactly when they are equal |
| Text.Trim | backend/user/src/models/userModel.ts:27 | the result is a slice of the input with only white space before and after it, and starts and ends with a non-space character |
| Text.TrimOfUnique | backend/user/src/models/userModel.ts:36 | a trimmed slice with only white space around it is the `trim` of the string: the trimmed form is unique |
| UserModel.NormaliseEmail | backend/user/src/models/userModel.ts:31-38 | a stored email is the input with its surrounding white space removed, then lower-cased; it is trimmed and has no upper-case letter |
| UserModel.NormaliseEmailIdempotent | backend/user/src/models/userModel.ts:35-36 | an already normal email is left unchanged by the setters |
| UserModel.Build | backend/user/src/models/userModel.ts:23-91 | a record is accepted exactly when the email is given and not blank, a given non-empty date casts, a given name is not blank and every given address has at least 10 characters; the accepted record holds the normalised email, the trimmed name and place of birth, the addresses and mobiles as given, the cast date (none for an empty string), aadhaar as given and pan upper-cased, `createdAt` and `updatedAt` equal to now, `isDeleted` false and no `deletedAt` |
| UserModel.Merge | backend/user/src/services/user.ts:181-183 | an update fails exactly when a supplied non-empty date does not cast; otherwise each supplied field holds its setter's value (trimmed name and place of birth, normalised email, upper-cased pan, cast date, no date for an empty string, other fields as given), `updatedAt` is now, the id and `createdAt` are kept and the record stays normalised |
| UserModel.MergeKeepsUnsupplied | backend/user/src/services/user.ts:181-183 | every field the change does not supply keeps its stored value, and the soft-delete fields are never touched |
| UserModel.DefaultRead | backend/user/src/models/userModel.ts:50-60 | a default read hides aadhaar and pan and changes nothing else |
| UserModel.AppendKeepsInvariant | backend/user/src/models/userModel.ts:31-44 | adding a normalised record under a fresh id that collides with no stored email or primary mobile keeps the store invariant (ascending ids, normalised records, both indexes unique) |
| UserModel.ReplaceKeepsInvariant | backend/user/src/models/userModel.ts:31-44 | replacing a record in place under the same id keeps the store invariant when the new record collides with no other record |
| UserModel.FindByEmail | backend/user/src/controllers/auth.ts:75 | `findOne({ email })` finds a stored record whose email is the normalised query, or reports that none has it |
| UserModel.IndexOfId | backend/user/src/services/user.ts:165 | `findById` finds the record with that id, or reports that none has it |
| UserModel.UserCollection.Insert | backend/user/src/services/user.ts:50 | `create` stores the built record under a fresh id unless the record is refused or a unique index already holds its email or primary mobile; otherwise nothing changes; the id counter advances exactly on a stored record |
| UserModel.UserCollection.UpdateById | backend/user/src/services/user.ts:181-183 | `findByIdAndUpdate` with `{ new: true }`: no record gives no result and no write; otherwise the merged record replaces the old one in place, unless the cast fails or an index refuses it |
| UserModel.SecondMobilelessRecordRefused | backend/user/src/models/userModel.ts:40-44 | the primary-mobile index is not sparse, so a second record without a mobile (every record made at first login) is refused as a duplicate |
| UserModel.EmailOnlyRecordValid | backend/user/src/models/userModel.ts:31-38 | only the email is required: an email-only record is accepted exactly when the email is not blank, with all other fields absent |
| UserModel.IsVerifiedNotStored | backend/user/src/models/userModel.ts:16 | `isVerified` has no schema path: passing it stores the same record as leaving it out |
| UserModel.UpdateSkipsValidators | backend/user/src/models/userModel.ts:70-77 | updates do not run the validators, so an address shorter than 10 characters can be stored |
| UserModel.EmptyDateIsNoDate | backend/user/src/models/userModel.ts:62-64 | the `Date` cast turns an empty string into no date: a create stores the record as if no date were given, and an update succeeds and clears the stored date |
| Auth.KeyFamiliesOverlap | backend/user/src/controllers/auth.ts:11-26 | the rate-limit key of `e` is the code key of "ratelimit:" + `e` |
| Auth.OtpTextShape | backend/user/src/controllers/auth.ts:24 | an issued code is six decimal digits whose value is the number drawn from 100000..999999 |
| Auth.OtpBody | backend/user/src/controllers/auth.ts:34 | the mail body contains the code |
| Auth.OtpMail | backend/user/src/controllers/auth.ts:31-35 | the mail goes to the given email, with subject "OTP for Login", and its body contains the code |
| Auth.Verified | backend/user/src/controllers/auth.ts:82-89 | the success answer is 200 with the user and a session cookie for that user's id |
| Auth.Logout | backend/user/src/controllers/auth.ts:100-107 | logout answers 200 and clears the session cookie |
| Auth.OtpService.Get | backend/user/src/controllers/auth.ts:12 | a key reads as present exactly while its expiry lies in the future |
| Auth.OtpService.Tick | backend/user/src/controllers/auth.ts:20-29 | time passes and nothing else changes, so entries expire by their TTL |
| Auth.OtpService.Login | backend/user/src/controllers/auth.ts:7-48 | a live marker gives 429 with no write and no publish; otherwise exactly two keys are written (marker "true" for 60 s, then the code for 300 s, replacing any earlier one), one mail is published to "send-mail" when a channel exists, and the answer is 200 |
| Auth.OtpService.Verify | backend/user/src/controllers/auth.ts:51-98 | the clock, the outbox and the channel never change; a missing email or code gives 400 "Email and OTP Required" with the store, the records and the id counter untouched; a missing or different code gives 400 "Invalid or expired OTP" with the same three unchanged; a match deletes only the code key, then returns the existing user with the records and counter unchanged, or creates `{email}` under the next id; a refused create gives 500 after the key was deleted, with the records and counter unchanged |
| Auth.VerifyTwice | backend/user/src/controllers/auth.ts:73 | after a verify that matched the code (answered 200, or 500 on a refused create), the same code is refused |
| Auth.LoginTwice | backend/user/src/controllers/auth.ts:11-22 | a second login within 60 s of an issued code gets 429, and at most one mail is published |
| Auth.OverlapBlocksLogin | backend/user/src/controllers/auth.ts:11-29 | a login for "ratelimit:" + `e` blocks logins for `e` for up to 300 s |
| Auth.FirstLoginRecordHasNoSecrets | backend/user/src/controllers/auth.ts:78 | the record created at first login has no mobile and nothing hidden, so the reply shows it whole |
| UserService.AnswersHideSecrets | backend/user/src/services/user.ts:52-64 | create, update and list answers do not depend on aadhaar, pan, `isDeleted` or `deletedAt` |
| UserService.ListingIsProfileWithoutPermanentAddress | backend/user/src/services/user.ts:126 | a listed record shows the same fields as a profile except `permanentAddress` |
| UserService.CreatePayload | backend/user/src/services/user.ts:32-48 | the created document holds `encrypt(aadhaar)` and `encrypt(pan)`, and `secondaryMobile` only when supplied |
| UserService.CreateStoresCiphertext | backend/user/src/services/user.ts:32-50 | the stored aadhaar and pan are never the plaintext; the aadhaar decrypts back, the upper-cased pan decrypts to "" |
| UserService.FreshInputAdmitted | backend/user/src/services/user.ts:21-30 | input that passes the existence check never hits a unique index |
| UserService.CreateUser | backend/user/src/services/user.ts:20-65 | a taken email or primary mobile gives 403 "User already exists" and no write; otherwise the record is stored and its profile returned, or the failed validation surfaces as an unexpected error with no write |
| UserService.BuildQuery | backend/user/src/services/user.ts:87-119 | the filter is built exactly when a given cursor is an ObjectId and a given date casts; each part is present exactly when its query string is truthy and holds that string, the date's midnight or the cursor's id; a bad cursor fails as a malformed ObjectId, and any other failure is a cast failure of the date |
| UserService.SoftDeletedStillListed | backend/user/src/services/user.ts:87-119 | the filter ignores the soft-delete fields |
| UserService.MatchDesc | backend/user/src/services/user.ts:122-124 | the fetched records are exactly the stored records that match every filter part |
| UserService.MatchDescDescending | backend/user/src/services/user.ts:124 | the fetched records come in strictly descending id order |
| UserService.PageWindow | backend/user/src/services/user.ts:122-136 | a page holds the first min(limit, matches) matches; `hasNextPage` holds exactly when more than `limit` matched; `nextCursor` is the last shown id even on the final page, and absent only for an empty page |
| UserService.PageWindowOrdered | backend/user/src/services/user.ts:89-125 | listed records are stored, match every filter part, are strictly descending, and lie below the cursor |
| UserService.GetUsers | backend/user/src/services/user.ts:79-146 | the method that fetches `limit + 1` and pops returns exactly the page of `PageWindow`, in the listing projection; a query that cannot be built surfaces as an unexpected error |
| UserService.BoundBeyondAll | backend/user/src/services/user.ts:115-119 | a cursor above every id (and within any earlier cursor) removes nothing |
| UserService.CursorSplit | backend/user/src/services/user.ts:115-136 | restarting below the k-th match's id yields exactly the matches after it |
| UserService.WalkListsEverything | backend/user/src/services/user.ts:115-136 | following `nextCursor` while `hasNextPage` holds, with any positive limit, yields every match exactly once, latest first |
| UserService.UpdatePayload | backend/user/src/services/user.ts:171-179 | the change is the body with a truthy aadhaar and pan replaced by their ciphertexts; everything else is passed as given |
| UserService.UpdateChangesOnlySupplied | backend/user/src/services/user.ts:171-183 | an update changes only the supplied fields, stores a truthy aadhaar encrypted, and keeps the id and the soft-delete fields |
| UserService.UpdateOutcome | backend/user/src/services/user.ts:163-202 | the outcome is exactly one of: a cast failure when the id is malformed or the merge does not cast; 404 "User not found" when the id parses and no record has it; a duplicate-key failure when the merge succeeds but collides with another record; or success, exactly when the record is found, the merge succeeds and no other record collides. Every failure leaves the records unchanged; a success replaces the found record in place by its merge and answers that record's profile |
| UserService.UpdateUser | backend/user/src/services/user.ts:163-202 | the method that finds, encrypts and calls `findByIdAndUpdate` answers and writes exactly what `UpdateOutcome` states |
| UserSchema.NormalisePan | backend/src/middlewares/schemas/user.schema.ts:12 | the pan is the input with its surrounding white space removed, then upper-cased; the shape test applies to that result |
| UserSchema.DateShapeUnanchored | backend/src/middlewares/schemas/user.schema.ts:13 | any text may surround the date shape and still pass |
| UserSchema.EmailIsTrimmed | backend/src/middlewares/schemas/user.schema.ts:8 | an accepted email has no surrounding white space |
| UserSchema.ParseCreateBody | backend/src/middlewares/schemas/user.schema.ts:5-18 | a body parses exactly when all ten fields (`secondaryMobile` included) pass their checks; the result has exactly the ten keys, the normalised pan and every other value as given |
| UserSchema.PanShapeNormal | backend/src/middlewares/schemas/user.schema.ts:12 | a well-shaped pan is left unchanged by the normalisation |
| UserSchema.ParsedBodyValid | backend/src/middlewares/schemas/user.schema.ts:5-18 | a parsed body passes the schema again |
| UserSchema.ParseCreateBodyIdempotent | backend/src/middlewares/schemas/user.schema.ts:5-18 | parsing a parsed body gives it back unchanged |
| UserSchema.JsNumber | backend/src/middlewares/schemas/user.schema.ts:50 | `Number` of a blank string is 0 |
| UserSchema.JsNumberOfDecimal | backend/src/middlewares/schemas/user.schema.ts:50 | `Number` of a printed natural number is that number |
| UserSchema.ParseUsersQuery | backend/src/middlewares/schemas/user.schema.ts:48-57 | a query parses exactly when the limit is absent or an integer in 1..100; an absent limit becomes 5; cursor and dob are kept as given |
| UserSchema.NextIsNotValidated | backend/src/middlewares/schemas/user.schema.ts:51 | the schema neither checks nor keeps `next` |
| Validators.ValidateCreateUser | backend/src/middlewares/validators/user.ts:5-22 | an accepted body is replaced by the parsed body and the request is passed on once; a rejected one gets 400 "Input Validation Error" and is left as it was |
| Validators.ValidateGetUsers | backend/src/middlewares/validators/user.ts:25-39 | the request is passed on exactly when the query parses, otherwise it gets 400; the query is never changed |
| Validators.RevalidateCreateUser | backend/src/middlewares/validators/user.ts:12 | a body the validator wrote back passes it again unchanged |
| UserController.Answer | backend/user/src/controllers/user.ts:11-15 | a success answer is `{status, message, data}` with status equal to the HTTP status; a failure goes to the error handler |
| UserController.CreateInputFor | backend/user/src/controllers/user.ts:8-9 | the principal's email overrides the body's email, and nothing else changes |
| UserController.CreateAfterLoginRefused | backend/user/src/middlewares/authenticate.ts:25-32 | the authenticated principal is the default read of a stored record, so the existence check refuses every create it makes |
| UserController.CreateUserController | backend/user/src/controllers/user.ts:6-21 | a signed-in principal (the default read of a stored record) always gets 403 with no write; otherwise the answer is 403, 201 with the profile and the record appended, or 500 |
| UserController.OwnershipExclusive | backend/user/src/controllers/user.ts:60-64 | a principal owns its own printed id and no one else's |
| UserController.UpperCasePathRefused | backend/user/src/controllers/user.ts:60-64 | the comparison is textual: one's own id in upper case is refused, though it names the same record |
| UserController.OwnPathIsFound | backend/user/src/services/user.ts:165-169 | the own path of a signed-in principal parses to its id, names a stored record, and never gives 404 |
| UserController.UpdateUserController | backend/user/src/controllers/user.ts:54-80 | someone else's path gives 403 with no write; one's own path answers and writes what `UpdateOutcome` states, with 200 "User updated successfully" on success, and never 404 for a signed-in principal |
| UserController.DeleteDecision | backend/user/src/controllers/user.ts:89-96 | 403 "You are not authorized to delete this user" exactly when the path is not the principal's |
| UserController.ListArgsOf | backend/user/src/controllers/user.ts:31-40 | the service gets `Number(limit)` and the strings under `next`, `name`, `email`, `mobile` and `dob` |
| UserController.LimitPassedThrough | backend/user/src/controllers/user.ts:34 | a limit sent as a decimal number reaches the service unchanged |
| UserController.SchemaAndHandlerDisagree | backend/user/src/controllers/user.ts:31 | the schema accepts a missing limit as 5, but the handler then has no number; the handler ignores `cursor` |
| UserController.CursorTextRoundTrip | backend/user/src/services/user.ts:115-119 | a cursor printed by one page and sent back as `next` filters below that same id |
| UserController.GetUsersController | backend/user/src/controllers/user.ts:25-52 | 200 "Users fetched successfully" with the service's page, or the service's failure through the error handler |
| UserController.ShortAddressRefusedByRecord | backend/src/middlewares/schemas/user.schema.ts:15-16 | an address of 5 to 9 characters passes the request schema but is refused by the record schema |
| UserController.DecoratedDateRefusedByRecord | backend/src/middlewares/schemas/user.schema.ts:13 | a date followed by a word passes the request schema but does not cast, since `new Date` refuses a word after the number |

## Left out

- AES and its random salt (backend/user/src/utils/encrypt.ts). `Cipher.Encrypt` is deterministic and prefixes the plaintext with the `U2FsdGVkX1` header that every CryptoJS ciphertext starts with. This is enough for the round trip, for "not a ciphertext decrypts to the empty string", and for the upper-casing quirk. Secrecy and salt randomness are not modelled.
- JWT signing and verification, and cookie attributes (generateToken.ts, authenticate.ts). The session cookie is modelled as "set for this user id" and "cleared". `generateToken` returns nothing, so the verify reply has no token. The authentication middleware is represented only by its result: the principal is the default read of a stored record (`findOne` by the token's user id, with aadhaar and pan hidden).
- The Redis, MongoDB and RabbitMQ clients are abstracted:
  - Redis is a key map with expiry instants;
  - the collection is an ordered document list under a fresh-id counter;
  - the queue is an outbox that drops messages when no channel exists, as `publishToQueue` does.
  - Connection failures, which answer 500, are not modelled.
- Concurrency. Two verifies racing between the read and the delete of the code, and parallel creates racing past the existence check, are not modelled; the model is sequential.
- Math.random: the code is a nondeterministic choice in 100000..999999.
- Regular expressions. Filters from query strings are case-insensitive (name, email) or case-sensitive (mobile) literal substring tests. The source passes user text as a raw regular expression, so metacharacters are not modelled.
- Text encoding:
  - case mapping is ASCII-only;
  - lengths count code points, not UTF-16 units;
  - `toUpperCase` expansions such as "ß" to "SS" are not modelled.
- UserSchema.JsNumber: only blank strings and optionally signed decimal integers are modelled. Other forms `Number` accepts (fractions, exponents, hexadecimal, `Infinity`) are treated as NaN.
- UserController.GetUsersController: requires a non-negative integer limit. With a missing or non-numeric limit the handler passes NaN, and with a negative one a negative limit, to the driver. That behaviour belongs to the MongoDB driver and is not modelled.
- Dates:
  - only `YYYY-MM-DD` strings parse (month 1-12, day 1-31, rolling over into the next month as `Date` does); other formats `new Date` accepts are treated as cast failures; an empty string casts to no date, as the `Date` cast of the record does;
  - the day window assumes the server runs in UTC (`setDate` works in local time).
- `deleteUserService` is imported by the delete handler but not defined in the service file. `UserController.DeleteDecision` models the handler up to that call.
- Update bodies are modelled with the ten `UpdateUserInput` fields. Other keys are not modelled. The validators that the `backend/user` routes import are not part of this model; the modelled ones are those of `backend/src/middlewares`.
- JSON bodies whose values are not strings, `null` values and repeated query keys are not modelled.
- The older copy of the service under `backend/src` (controllers, model, routes) is not part of this model. Only its zod schemas and validators are modelled.
- The mail consumer (`backend/mail`), the process wiring and routes, `rateLimit.ts` and `cors.ts` are not part of this model.
- ObjectId structure (timestamp, counter) and the 12-byte string form of `new ObjectId` are not modelled. Ids are natural numbers printed as 24 hexadecimal digits.
- The second "User not found" check after `findByIdAndUpdate` is reachable only through a concurrent delete. Sequentially it never fires, and the model keeps it only as a dead branch of the update method.
