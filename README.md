# Account core of the helgehub API, in Dafny

This project models the account-management core of an Express/Mongoose
backend: the user controllers (register, login, logout, update, delete),
the `authenticateUser` middleware that guards requests with a JWT session
cookie or `Bearer` header, and the `USer` schema whose field constraints
the user table must keep.

The user table is a `map<Id, User>` held by the class
`UserController.UserStore`; `Register`, `Update` and `Delete` change it in
place and state the whole new table in terms of the old one, and every one
of them keeps the schema invariant `UserSchema.TableValid` (names present
and at most 50 characters, emails present, valid, lower-cased and unique,
stored passwords at least 6 characters; every length is JavaScript's
`length`, which counts UTF-16 units, so a character beyond U+FFFF counts
twice, as `Text.JsLength` does). `Login` and the gate only read
the table. Each controller answers with a `Response`: status code, body,
and what it does to the `token` cookie. The gate answers with an
`Outcome` that is either `Next(id, user)` (`req.user` set, `next()`
called) or `Unauthorized(error)` (401), so exactly one of the two happens.

bcrypt, `jsonwebtoken`, `validator.isEmail`, the symbol class of
`validator.isStrongPassword` and the process configuration (`NODE_ENV`,
`JWT_COOKIE_EXPIRES_IN`) are fields of the `Oracles.Env` value handed to
the model; the current time is a parameter. Properties that need an
assumption about a library say so in their `requires`
(`Oracles.HashVerifies`, `Oracles.TokenAccepted`,
`UserSchema.DigestsLongEnough`).

Behaviour of the code worth knowing, all proved below:

- The login cookie expires `JWT_COOKIE_EXPIRES_IN × 24 × 60 × 1000` ms after
  login, i.e. in units of 24 minutes, not days (`SessionCookieLifetime`).
- `updateUser` never sets `passwordChangedAt`, so changing the password
  does not invalidate existing sessions (`UpdateKeepsSessions`).
- `isVerified` is read by the gate but not declared by the schema and set by
  no operation here, so a freshly registered user is refused by the gate
  with the "not verified" message (`RegisteredUserRejected`). Since no
  stored user ever carries the flag (part of `UserStore.Valid()`), the gate
  admits no request at all against any table the controllers can build
  (`StoreAdmitsNobody`); the lemmas about the admit path describe documents
  whose flag was set outside this code.
- The gate uses one message for "no such user" and "not verified", and
  checks verification before staleness.
- The 50-character limit on update is checked on the untrimmed name, while
  the trimmed name is stored.
- Updating an id that is not in the table answers 200 with a `null` user and
  changes nothing.

The model follows the code as written: there is no token purpose check,
no distinct "account not verified" failure, no password-change epoch
update, and `isVerified` has no default.

## Model

| member | source | states |
|---|---|---|
| `UserController.ValidateStrongPassword` | Backend/controllers/userController.js:7-15 | a strong password has at least 6 UTF-16 units and is never blank, so `updateUser` always counts it as a field |
| `UserController.StrongPasswordIff` | Backend/controllers/userController.js:7-15 | a password is accepted exactly when it has at least 6 UTF-16 units and contains a lowercase letter, an uppercase letter, a digit and a symbol, where a letter or digit never counts as a symbol |
| `UserController.CountPositiveIff` | Backend/controllers/userController.js:10-13 | a class count of at least one (the library's minimum) is the same as the class occurring in the password |
| `UserController.UserStore.Register` | Backend/controllers/userController.js:17-58 | rejects in order: missing/empty name (400), name over 50 UTF-16 units (400), missing password (thrown, 500), weak password (400), email already stored after lower-casing (forwarded 400), document failing the schema (500); every rejection leaves table and id counter unchanged; success adds exactly one user under a fresh id, storing the given name, the lower-cased email, `hash(password)` (never the plaintext), the request time and no verification flag or password epoch, and answers 201 with the user minus the password; the invariant is kept |
| `UserController.UserStore.Login` | Backend/controllers/userController.js:60-100 | missing email, invalid email or missing password gives 400; an unknown email and a wrong password give the identical 401 with no cookie; 200 exactly when some stored user has the lower-cased email and its digest accepts the password, and then the `token` cookie carries `sign(id, now/1000)` and the body the user without its password |
| `UserController.SessionCookieLifetime` | Backend/controllers/userController.js:82-87 | the session cookie expires `N × 1 440 000` ms after login, which for positive `N` is before `N` days |
| `UserController.ClearedCookieReplacesSession` | Backend/controllers/userController.js:103-108 | the clearing cookie has the session cookie's name, HttpOnly, Secure-iff-production and SameSite Strict, an empty value and epoch-0 expiry |
| `UserController.Logout` | Backend/controllers/userController.js:102-110 | always 200 and always the clearing cookie |
| `UserController.UpdateFor` | Backend/controllers/userController.js:116-134 | the update carries a name exactly when the name is usable, and then the trimmed name, which is non-empty and no longer than the given name; a password exactly when the password is usable, and then its digest; it is empty exactly when neither is usable |
| `UserController.ApplyUpdate` | Backend/controllers/userController.js:140-143 | every field present in the update is replaced by its value, every absent one is kept; email, timestamp, verification flag and password epoch never change |
| `UserController.UpdateKeepsUserValid` | Backend/controllers/userController.js:119-134 | an accepted update (trimmed name non-empty, untrimmed name at most 50, strong password hashed) keeps a valid document valid |
| `UserController.UserStore.Update` | Backend/controllers/userController.js:112-154 | name over 50 UTF-16 units (untrimmed) gives 400 first, then a weak usable password 400, then no usable field 400 "No fields to update", all with the table unchanged; otherwise 200 and only that user changes: its name becomes the trimmed name when the name is usable, its password the digest of the password when that is usable, and each other field keeps its value; an absent id gives 200 with no user and no change; the invariant is kept |
| `UserController.UserStore.Delete` | Backend/controllers/userController.js:156-181 | an absent id gives 404, no cookie, no change; a present id removes exactly that user, clears the cookie and answers 200; the invariant is kept |
| `UserController.RegisterThenLogin` | Backend/controllers/userController.js:17-100 | after a successful registration, logging in with the same email and password succeeds and issues the session cookie for the new id |
| `UserSchema.UserValid` | Backend/models/userSchema.js:4-27 | a document passes the schema when its name is present and at most 50 UTF-16 units, its email present, valid and lower-cased, its password at least 6 units; a valid stored email is unchanged by lower-casing |
| `UserSchema.TableValid` | Backend/models/userSchema.js:13-19 | in a valid table (every document valid, `unique` emails) an address names at most one user |
| `UserSchema.NewUserValidIff` | Backend/models/userSchema.js:4-27 | `User.create` accepts a new document exactly when the name is non-empty and at most 50 units, the email is non-empty and valid after lower-casing, and the digest has at least 6 units |
| `UserSchema.ForResponse` | Backend/controllers/userController.js:47-48 | the response copy keeps the id and every field but the password: putting the digest back gives the stored document |
| `UserSchema.FindByEmail` | Backend/controllers/userController.js:35 | the lookup finds a user exactly when one holds the address, and every user holding it is the one found |
| `UserSchema.InsertKeepsTableValid` | Backend/models/userSchema.js:4-27 | inserting a valid document with an unused address under a fresh id keeps every document valid and emails unique, and adds one user |
| `UserSchema.ReplaceKeepsTableValid` | Backend/models/userSchema.js:4-27 | replacing a document by a valid one with the same address keeps the table valid |
| `UserSchema.RemoveKeepsTableValid` | Backend/models/userSchema.js:4-27 | removing a document keeps the table valid and drops one user |
| `Text.Trim` | Backend/controllers/userController.js:119-123 | `trim` keeps no leading or trailing whitespace and never lengthens |
| `Text.TrimCutsWhitespace` | Backend/controllers/userController.js:119-123 | what `trim` cuts off before and after the kept piece is whitespace only |
| `Text.TrimEmptyIff` | Backend/controllers/userController.js:119 | a trimmed string is empty exactly when the original is all whitespace |
| `Text.TrimIsInfix` | Backend/controllers/userController.js:123 | the trimmed name is a contiguous piece of the given name |
| `Text.TrimIdempotent` | Backend/controllers/userController.js:123 | trimming twice equals trimming once |
| `Text.ToLower` | Backend/models/userSchema.js:13 | lower-casing keeps the length, turns every ASCII capital into its small letter and keeps every other character |
| `Text.SameUpToCaseLowerEqual` | Backend/models/userSchema.js:13 | addresses differing only in letter case are stored and looked up as one address |
| `Text.JsLength` | Backend/models/userSchema.js:8 | a string's UTF-16 length lies between its character count and twice that, and equals the count when no character is beyond U+FFFF |
| `Text.JsLengthParts` | Backend/controllers/userController.js:123 | neither part of a string cut in two is longer than the whole in UTF-16 units |
| `Text.TrimJsLength` | Backend/controllers/userController.js:119-123 | trimming never makes a name longer in UTF-16 units, so the checked untrimmed length bounds the stored one |
| `Text.LowerCasedFixed` | Backend/models/userSchema.js:13 | lower-casing a lower-cased address changes nothing |
| `Text.SplitFirst` | Backend/utils/authenticateUser.js:9 | the first piece of a split is what precedes the first separator |
| `Text.TakeUntil` | Backend/utils/authenticateUser.js:9 | the piece before a separator is a prefix free of it, ended by the separator or the end of the string |
| `Text.Split` | Backend/utils/authenticateUser.js:9 | a split yields at least one piece and no piece contains the separator |
| `Text.SplitSecond` | Backend/utils/authenticateUser.js:9 | behind a separator-free prefix and one separator, the second piece is what follows up to the next separator |
| `AuthenticateUser.TokenCandidate` | Backend/utils/authenticateUser.js:6-10 | a non-empty cookie token is used regardless of the header |
| `AuthenticateUser.BearerTokenIsSecondPiece` | Backend/utils/authenticateUser.js:8-9 | without a cookie, `Bearer <rest>` yields `rest` up to its first space |
| `AuthenticateUser.NoBearerNoToken` | Backend/utils/authenticateUser.js:8-15 | without a cookie and without a `Bearer ` header there is no token and the answer is 401 "Authentication required" |
| `AuthenticateUser.DoubleSpaceBearerIsNoToken` | Backend/utils/authenticateUser.js:9-15 | `Bearer` followed by two spaces yields the empty token, answered as no token |
| `AuthenticateUser.Authenticate` | Backend/utils/authenticateUser.js:4-38 | `next` is called only with a truthy token that verifies, naming a stored, verified user whose password epoch the token does not predate, and with that user; every refusal is one of the four 401 messages |
| `AuthenticateUser.NoTokenRejected` | Backend/utils/authenticateUser.js:12-15 | no token gives 401 "Authentication required" |
| `AuthenticateUser.VerifyFailureRejected` | Backend/utils/authenticateUser.js:17-37 | a token `jwt.verify` rejects gives 401 "Authentication failed" |
| `AuthenticateUser.UnknownOrUnverifiedRejected` | Backend/utils/authenticateUser.js:18-24 | an unknown subject and an unverified user get the same message, even when the token is also stale |
| `AuthenticateUser.StaleIff` | Backend/utils/authenticateUser.js:26-30 | for a verified user with a password epoch, the refusal happens exactly when `iat × 1000` is strictly below it; equality passes |
| `AuthenticateUser.IsStale` | Backend/utils/authenticateUser.js:26 | a token is stale exactly when the user has a password epoch and the token's issue second is before that epoch rounded up to a whole second, so a token issued later in the same second as the change is refused |
| `AuthenticateUser.CeilSecondsBound` | Backend/utils/authenticateUser.js:26 | a second `s` starts before the instant `ms` exactly when `s` is below `ms` rounded up to a whole second |
| `AuthenticateUser.NoEpochAdmitted` | Backend/utils/authenticateUser.js:26-33 | a verified user without a password epoch is admitted whenever `jwt.verify` accepts the token |
| `AuthenticateUser.AcceptIff` | Backend/utils/authenticateUser.js:12-33 | `next` is called exactly when every check passes |
| `AuthenticateUser.StoreAdmitsNobody` | Backend/utils/authenticateUser.js:20-24 | no document the controllers store carries `isVerified`, so against any table they reach the gate refuses every request |
| `AuthenticateUser.RegisteredUserRejected` | Backend/utils/authenticateUser.js:20-24 | a user as register creates it is always refused with the verification message |
| `AuthenticateUser.LoginCookiePassesGate` | Backend/utils/authenticateUser.js:6-33 | the cookie login issues opens the gate for a verified user whose password epoch is not after the login second, while `jwt.verify` accepts the token |
| `AuthenticateUser.UpdateKeepsSessions` | Backend/controllers/userController.js:126-143 | an update never changes whether the gate admits a request, so a password change leaves old sessions valid |
| `AuthenticateUser.DeletedUserRejected` | Backend/controllers/userController.js:160 | after a delete, every token naming the deleted user is refused |

## Left out

- Network, database and process I/O: the server setup, CORS, logging, the database connection and shutdown are not modelled; database failures (a rejected query or write) are not modelled either.
- Route wiring is not modelled: `updateUser` and `deleteUser` take the caller id that the gate would resolve, although the routes mount no gate before them (without it, reading `req.user._id` throws before the `try`). The server mounts no cookie parser either, so `req.cookies` is undefined in the shipped app and only the `Bearer` header can supply a token; the model keeps the cookie path the gate is written for.
- bcrypt internals, its random salt and cost factor: `hash` and `compare` are opaque functions, so two hashes of one password are equal in the model.
- JWT signing, the secret and the token lifetime: `sign` and `verify` are opaque; expiry is whatever `verify` decides at the moment of the request.
- `validator.isEmail` and the symbol class of `isStrongPassword` are opaque predicates; ASCII letters and digits are never counted as symbols, as validator checks the letter and digit classes first.
- AuthenticateUser.Authenticate: reads `isVerified` and `passwordChangedAt` as the stored values. The schema declares neither path, and with Mongoose's default `strict` mode a loaded document has accessors only for declared paths, so in the code as written `user.isVerified` and `user.passwordChangedAt` read `undefined` whatever the database holds; then every request with a valid token is refused with the verification message. The admit-path lemmas (`NoEpochAdmitted`, `LoginCookiePassesGate`, the admitting side of `StaleIff` and `AcceptIff`) hold for the model's reading, not for such a document.
- Text.ToLower: maps only the ASCII letters; the full Unicode case mapping of `toLowerCase` is not modelled.
- Queries on `email` are taken to pass through the schema's `lowercase` setter, as Mongoose casts query filters.
- An absent `email` in a register request is treated like the empty string: it matches no stored user and fails the schema's `required` check.
- Request fields are strings or absent; other JSON types (which make `trim` or the validators throw) are not modelled.
- UserController.UserStore.Register: a thrown error (from the password validator on a missing password, or a schema `ValidationError`) is reduced to a generic 500; its text is not modelled. The `createError` helper is not part of this model; an error built with it is taken to carry the given status.
- UserController.UserStore.Register: the success body's misspelt `messsage` key and Mongoose's `__v` field are not modelled.
- Mongoose ids are stood in for by a counter; a concurrent duplicate registration resolved by the unique index is not modelled, as every operation runs to completion one at a time.
- `parseInt` returning `NaN` for a missing `JWT_COOKIE_EXPIRES_IN` is not modelled; the setting is an integer.
- The unused CMS schema, email verification, password reset and rate limiting have no code in the modelled files.
