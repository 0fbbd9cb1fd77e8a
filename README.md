# Account routes of the recipes server, modelled in Dafny

This project models the account service of a meal-tracking backend: the
Express router in `routes/user.js` that registers users, logs them in,
refreshes a session token, lists users and lets a user delete their own
record. The Mongo `User` collection is a class holding the documents in
natural order plus the counter new ids come from. Each handler is a chain
of early returns that ends in one `(status, body)` response. The model
states, for every input, which status and body come back and what
happens to the collection.

Modules:

- `Wrappers` (`wrappers.dfy`): `Option`, for absent fields and `null` query results.
- `Crypto` (`crypto.dfy`): stand-ins for bcryptjs (`Hash`, `Verify`) and
  jsonwebtoken (`Sign`), plus the `"Bearer "` token they produce. The
  bcrypt cost 7 and the one-hour lifetime are constants.
- `Users` (`users.dfy`): the documents `{ _id, login, password }`, the
  public view `{ id, login }` and the queries the routes send: `find()`
  (the whole sequence), `findOne({ login })`, `findById` and
  `findByIdAndDelete`. `save()` is `UserStore.Save`, an append. Also the
  collection invariant: unique ids, unique logins, and every id below the
  counter.
- `UserRoutes` (`user_routes.dfy`): the handlers' decisions as pure
  functions, lemmas about them, and the class `UserStore` whose methods
  run the handlers against the collection. `Register` and `DeleteSelf`
  change the collection. `Login`, `Auth` and `List` have no `modifies`
  clause, so they only read it. `AccountLifeCycle` walks one account
  through every route.

Collaborators that are parameters or stand-ins:

- the salt bcrypt draws is a parameter of `Register`;
- the clock `jwt.sign` reads for `iat`/`exp` is a parameter `now`;
- the auth middleware's verified claim `req.user` is the `Claim` argument of `Auth` and `DeleteSelf`;
- the document id `new User` assigns is drawn from the store's counter, so an id is never reused.

Four behaviours of the code that a client may not expect are kept as written:

- `/auth` for a claim whose document has been deleted answers 500, not
  404. `findById` returns `null` and `user._id` throws; the `catch`
  turns that into 500 (`DeleteThenAuth`).
- A failed bcrypt comparison on `/login` answers 400, not 401.
- `GET /` needs no token and returns full documents, password hashes
  included (`ListExposesHashes`). This is a data exposure in the source,
  kept as written.
- `DELETE /` answers with the whole deleted document, password hash
  included (`DeleteReturnsRecord`), the same exposure for the caller's
  own record.

## Model

| member | source | states |
|---|---|---|
| `Crypto.Hash` | routes/user.js:30 | `hashSync` gives a hash that the hashed password verifies against, whatever salt is drawn, recording cost 7 and that salt |
| `Crypto.Verify` | routes/user.js:62 | `compareSync`; what it accepts is stated by `Crypto.Hash` (the hashed password) and `Crypto.VerifyOnlyHashedPassword` (nothing else, for the stand-in) |
| `Crypto.VerifyOnlyHashedPassword` | routes/user.js:62 | for the stand-in hash, `compareSync` accepts exactly the password that was hashed |
| `Crypto.BearerToken` | routes/user.js:37 | the `` `Bearer ${jwt.sign(...)}` `` template shared by :37, :66 and :83; what a token determines is stated by `Crypto.TokenIdentifiesClaim` |
| `Crypto.Sign` | routes/user.js:37 | `jwt.sign({ id, login })` with `iat` and an `exp` one hour later; that a token names its id and differs per issue time is stated by `Crypto.TokenIdentifiesClaim` |
| `Crypto.TokenIdentifiesClaim` | routes/user.js:66 | two equal tokens were issued for the same id, and two tokens for the same id and login issued at different clock times differ |
| `Users.FindByLogin` | routes/user.js:26 | `findOne({ login })` returns a stored document holding that login, and `null` exactly when no document holds it |
| `Users.FindById` | routes/user.js:81 | `findById` returns a stored document with that id, and `null` exactly when no document has it |
| `Users.DeleteById` | routes/user.js:108 | `findByIdAndDelete` removes exactly the document `findById` finds (as a multiset, the result plus that document is the old collection) and nothing when the id is absent; it keeps every document with another id |
| `Users.FindByLoginUnique` | routes/user.js:58 | with unique logins, the document `findOne` returns is the one holding the login |
| `Users.FindByLoginAppend` | routes/user.js:39 | a document saved under an unused login is what a later `findOne` returns for it |
| `Users.DeleteByIdRemovesId` | routes/user.js:108 | with unique ids, no document with the deleted id is left |
| `Users.DeleteByIdKeepsValid` | routes/user.js:108 | deleting keeps ids and logins unique and below the counter |
| `Users.AppendKeepsValid` | routes/user.js:32-39 | saving a document with a fresh id and an unused login keeps the invariant |
| `UserRoutes.Truthy` | routes/user.js:17 | JavaScript's `!x` on a string field: sent and non-empty; its effect on the handlers is stated by `RegisterMissingField` and `LoginFailures` |
| `UserRoutes.RegisterValidation` | routes/user.js:17-24 | the body checks pass exactly when all fields are present, the passwords match and the password has at least 5 characters |
| `UserRoutes.Issue` | routes/user.js:40-44 | the `{ token, user: { id, login } }` body of the three successful answers (also :68-71 and :85-88), with no hash; what it holds per handler is stated by `UserStore.Register`, `LoginSucceedsIff`, `RegisterThenLogin` and `AuthOutcome` |
| `UserRoutes.NewRecord` | routes/user.js:30-35 | the new document has the drawn id, the login as sent, and a hash the sent password verifies against |
| `UserRoutes.LoginResponse` | routes/user.js:55-71 | login answers 200, 400 or 404; a 200 carries `"Bearer " + Sign(id, login)` and `{ id, login }` of a stored document holding the login whose hash the password verifies against |
| `UserRoutes.AuthResponse` | routes/user.js:80-91 | `/auth` answers 200 or 500, and 200 exactly when a document has the claim's id |
| `UserRoutes.ListResponse` | routes/user.js:97-98 | `GET /`; its answer is stated by `ListExposesHashes` |
| `UserRoutes.DeleteResponse` | routes/user.js:107-109 | `DELETE /`'s answer; stated by `DeleteReturnsRecord` |
| `UserRoutes.RegisterRejection` | routes/user.js:17-28 | a request that passes every check has all three fields present and non-empty |
| `UserRoutes.RegisterMissingField` | routes/user.js:17-18 | a missing or empty `login`, `password` or `passwordCheck` gives the fill-all-fields rejection, whatever the collection holds |
| `UserRoutes.RegisterCheckOrder` | routes/user.js:17-24 | once the fields are present, a mismatch is reported before length; a too-short password after that; while a body check fails the outcome does not depend on the collection |
| `UserRoutes.RegisterLengthBoundary` | routes/user.js:23-24 | a four-character password is rejected as too short; a five-character one passes the body checks |
| `UserRoutes.RegisterLoginTaken` | routes/user.js:26-28 | once the body checks pass, a login that a document already holds is rejected as taken |
| `UserRoutes.RegisterAcceptedIff` | routes/user.js:17-28 | registration goes ahead if and only if all fields are present, the passwords match, the password has at least 5 characters and no document holds the login |
| `UserRoutes.RegisterThenLogin` | routes/user.js:51-71 | after a successful registration, logging in with the same credentials answers 200 with a token and public view for the new id |
| `UserRoutes.RegisterThenWrongPassword` | routes/user.js:62-64 | after a successful registration, logging in with any other password answers 400 wrong-password |
| `UserRoutes.LoginFailures` | routes/user.js:55-64 | missing or empty field gives 400; an unknown login gives 404; a password that does not verify gives 400 |
| `UserRoutes.LoginSucceedsIff` | routes/user.js:58-71 | with unique logins, login answers 200 iff the password verifies against the document holding the login, and then issues `"Bearer " + Sign(id, login)` and `{ id, login }` |
| `UserRoutes.AuthOutcome` | routes/user.js:80-91 | with the claim's document present, `/auth` answers 200 with a new token for the claim and `{ id, login }`; with it absent, it answers 500 |
| `UserRoutes.ListExposesHashes` | routes/user.js:97-98 | `GET /` answers 200 with every stored document, hash included |
| `UserRoutes.DeleteReturnsRecord` | routes/user.js:107-109 | `DELETE /` answers 200 with the stored document that has the claim's id, or `null` exactly when none has it |
| `UserRoutes.DeleteThenAuth` | routes/user.js:81-91 | after the caller's document is deleted, `/auth` with the same claim answers 500 |
| `UserRoutes.DeleteThenLogin` | routes/user.js:58-60 | after the caller's document is deleted, logging in with its login answers 404 |
| `UserRoutes.UserStore.constructor` | routes/user.js:6 | the collection starts empty and satisfies its invariant |
| `UserRoutes.UserStore.FreshId` | routes/user.js:32 | `new User` draws the counter's value as the id and moves the counter on |
| `UserRoutes.UserStore.Save` | routes/user.js:39 | `save` appends the document and changes nothing else |
| `UserRoutes.UserStore.Register` | routes/user.js:13-49 | a rejection answers 400 with its message and leaves the collection alone; otherwise the collection gains exactly one document `{ id, login, Hash(password) }`, every earlier one unchanged, and the answer is 200 with `"Bearer " + Sign(id, login)`, `{ id, login }` and the registered message; the invariant is kept |
| `UserRoutes.UserStore.Login` | routes/user.js:51-76 | answers with the login decision for the current collection and changes nothing |
| `UserRoutes.UserStore.Auth` | routes/user.js:78-93 | answers with the `/auth` decision for the current collection and changes nothing |
| `UserRoutes.UserStore.List` | routes/user.js:95-103 | answers with every document and changes nothing |
| `UserRoutes.UserStore.DeleteSelf` | routes/user.js:105-114 | removes the first document with the claim's id, keeps every other one, answers 200 with the removed document or `null`, and keeps the invariant |

## Left out

- `index.js`: process start-up only (Mongo connection, middleware, router mounting, `listen`); it makes no decisions.
- The auth middleware: header parsing and token verification are not part of this model. `Auth` and `DeleteSelf` take the verified claim as an argument.
- bcrypt internals: salting, the cost factor's effect and timing-safe comparison. The 72-byte input limit is not modelled either. `Hash` and `Verify` are stand-ins. The route lemmas use only the contract of `Hash`, except `RegisterThenWrongPassword`, which also uses the stand-in's `VerifyOnlyHashedPassword`.
- RegisterThenWrongPassword: holds for the stand-in only. bcryptjs compares only the first 72 UTF-8 bytes of a password, so under the real library a different password that shares those 72 bytes logs in with 200.
- jsonwebtoken internals: HMAC with the configured `jwtKey`, base64url encoding, and expiry checks against a wall clock. `Sign` writes out the payload and its `iat`/`exp` claims, without a signature.
- Crypto.TokenIdentifiesClaim: is proved for the stand-in payload only. A real token base64url-encodes the same `{ id, login, iat, exp }` and adds a signature, and that encoding is not modelled. Its clock is in whole seconds, as `iat` is, so two refreshes within the same second give the same token.
- Concurrent registrations racing on the same login, and Mongo's unique-index enforcement. Requests are modelled one at a time.
- The 500 for unexpected I/O errors: a failing `findOne`, `save` or `findByIdAndDelete`, or a malformed id cast. The only 500 modelled is the `null` dereference in `/auth`.
- `console.log` output and the Russian message texts. Each message text is one `Message` constructor.
- Request fields that are JSON values but not strings (numbers, objects). Fields are absent or strings.
- RegisterValidation: `password.length` is counted in Unicode scalar values, but JavaScript counts UTF-16 code units. A character outside the Basic Multilingual Plane counts once here and twice in the source. So a password of three such characters is rejected here as too short, while the source accepts it (length 6).
- RegisterRejection, RegisterAcceptedIff, RegisterCheckOrder, RegisterLengthBoundary and UserStore.Register all inherit that measure of length from RegisterValidation.
- The meal, favorites and own-items routers are not part of this model.
