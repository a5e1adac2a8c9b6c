# Account registration and sign-in, modelled in Dafny

This project models the authentication core of the `accusitions` Express
service. It covers three things:

- the account service (`src/services/auth.service.js`): the users table,
  `hashPassword`, `comparePassword`, `createUser` and `authenticateUser`;
- the request handlers (`src/controller/auth.controller.js`): `signup`,
  `signin` and `signout`;
- the proofs of what these promise: unique emails, the error kinds, a table
  left unchanged on failure, passwords stripped from every result, the
  status-code mapping, and a sign-in that succeeds after a sign-up.

Files:

- `wrappers.dfy` (module `Wrappers`): `Option` stands for an `undefined`
  argument. `Result` stands for a call that returns or throws.
- `auth_service.dfy` (module `AuthService`):
  - the hashing library is a `Hasher` value holding two functions,
    `hash(password, salt)` and `compare(password, digest)`;
  - either function may throw (`HashThrew`, `CompareThrew`);
  - `Sound(h)` is the one law assumed of it, and only where a lemma asks for
    it: a password matches a digest made from it;
  - the users table is the class `UserStore`. It holds its rows in insertion
    order (`rows: seq<Account>`) and the next id. Its invariant `Valid()` says
    that no two rows share an email (exact string comparison) and that ids
    are distinct;
  - `CreateUser` is a method on the table. `AuthenticateUser` is a pure
    function of the rows, because it never changes the table.
- `auth_controller.dfy` (module `AuthController`): the handlers.
  - Each handler answers with a `Reply`. A reply is either a response
    (status, JSON body, action on the `token` cookie) or `Forward(e)`, which
    stands for `next(e)`.
  - `signup` changes the table, so it is a method on a `UserStore`.
    `signin` and `signout` are functions.
  - As in the source, the handlers recognise an error by its message text.
    `MessageInjective` is what makes that equal to matching on the error kind.

Collaborators and how they are modelled:

- The schema check (`safeParse`) is an input `Validation<T>`: `Parsed(data)`
  or `Invalid(details)`. `details` is opaque.
- Token signing is a parameter `sign: Claims -> string`. Token verification
  is a parameter `verify: string -> Verification`.
- The salt drawn by the hashing library is a parameter.
- The database clock (`created_at`) is a parameter.
- Ids come from a counter that starts at 1 and grows by one per insert. The
  table schema (`#models/user.model.js`) is not part of this model, so a
  serial id column is an assumption.

## Model

| member | source | states |
|---|---|---|
| `AuthService.HashPassword` | src/services/auth.service.js:8-15 | Gives the library digest when hashing succeeds. Any library failure becomes `HashingFailed` (message 'Error Hashing.'). |
| `AuthService.ComparePassword` | src/services/auth.service.js:17-24 | Gives the library verdict. A mismatch is a `false` verdict, not an error. A library failure becomes `CompareFailed` (message 'Error comparing password.'), which is distinct from a mismatch. |
| `AuthService.HashedPasswordVerifies` | src/services/auth.service.js:8-24 | Under the hashing law, comparing a password with a digest hashed from it succeeds with `true`. |
| `AuthService.MessageInjective` | src/services/auth.service.js:13-69 | The five thrown messages are pairwise distinct, so testing the message text identifies the error kind. |
| `AuthService.WithoutPasswordForgetsOnlyPassword` | src/services/auth.service.js:49-53 | Two rows give the same password-free copy exactly when they differ in nothing but `password`: only that column is removed. |
| `AuthService.NewAccount` | src/services/auth.service.js:60-83 | The inserted row holds the given name and email and the digest as `password`. Its role is the given one, or `'user'` when none was given. |
| `AuthService.FindByEmail` | src/services/auth.service.js:29-33 | The lookup finds nothing exactly when no row has that email. What it finds is a row of the table with that email. The query fixes no order; with unique emails there is only one such row. |
| `AuthService.FindByEmailUnique` | src/services/auth.service.js:63-69 | When emails are unique, the lookup of a stored email returns exactly the row holding it. |
| `AuthService.AppendFreshEmail` | src/services/auth.service.js:63-90 | Appending a row whose email no row holds keeps emails unique. This is the step that makes `createUser` keep the invariant. |
| `AuthService.AppendNextId` | src/services/auth.service.js:76-90 | Appending a row numbered with the next id keeps every id below the next one and all ids distinct. The new row's id is held by no earlier row. |
| `AuthService.AuthenticateUser` | src/services/auth.service.js:26-58 | Fails with `UserNotFound` exactly when no row has the email. Every other failure is `InvalidPassword` or `CompareFailed`. On success the result is a stored row with that email whose digest matched the password, with `password` removed. |
| `AuthService.AuthenticateStoredRow` | src/services/auth.service.js:39-53 | For a stored email, the comparison with that row's digest decides the result: a match gives the row without its password, a mismatch `InvalidPassword`, a comparator failure `CompareFailed`. |
| `AuthService.AuthenticateAfterCreate` | src/services/auth.service.js:40-83 | Under the hashing law, the password an account was created with authenticates it afterwards and returns the new row without its password. |
| `AuthService.UserStore.CreateUser` | src/services/auth.service.js:60-98 | A taken email gives `UserExists`, leaves the table unchanged and does not call the hasher. A hashing failure gives `HashingFailed` and leaves the table unchanged. Otherwise exactly one row is appended (new id, given name and email, digest, role defaulting to `'user'`), every earlier row is kept, the new id is held by no earlier row, and the row is returned without its password. The table invariant (unique emails, distinct ids) is kept. |
| `AuthController.ValidationFailed` | src/controller/auth.controller.js:13-18 | A rejected body gets 400 with error `validation failed`, the validation details, and no cookie change. |
| `AuthController.SignupReply` | src/controller/auth.controller.js:24-47 | 201 exactly when `createUser` succeeded. In that case the `token` cookie is set to a token over the new user's id, email and role, and the body's `user` holds id, name, email and role. 409 `Email already exists` exactly for `UserExists`. Every other error goes to `next` unchanged. A cookie is set only on success. |
| `AuthController.Signup` | src/controller/auth.controller.js:9-48 | A rejected body gets 400 and the table is left unchanged (`createUser` is not run). A taken email gives 409 with the table unchanged. A hashing failure goes to `next`. Otherwise the new row is appended, the id sequence advances by one, and the answer is 201 with its public fields and a token cookie. The table invariant is kept. |
| `AuthController.SigninReply` | src/controller/auth.controller.js:65-91 | 200 exactly when `authenticateUser` succeeded, with the token cookie and the four public fields. 404 `User not found` exactly for `UserNotFound`, with no cookie change. 401 `Invalid credentials` exactly for `InvalidPassword`. Anything else goes to `next`. A cookie is set only on success. |
| `AuthController.Signin` | src/controller/auth.controller.js:50-92 | A rejected body gets 400 with no lookup. 404 exactly when no row has the email. 401 exactly when the stored digest does not match. Only a comparator failure reaches `next`. A 200 answer carries the token and the public fields of a stored row whose digest matched. |
| `AuthController.SigninWrongPassword` | src/controller/auth.controller.js:81-89 | For a stored email and a password the comparator rejects, the answer is 401 `Invalid credentials` and no cookie is set. |
| `AuthController.SigninAfterSignup` | src/controller/auth.controller.js:65-80 | Under the hashing law, signing in with the password an account was just created with gives 200. The answer carries that account's public fields and a token over its id, email and role. |
| `AuthController.Signout` | src/controller/auth.controller.js:94-116 | Always 200 with the sign-out message, and the `token` cookie is cleared. This holds whether the cookie is absent, empty, rejected or valid. The logged email is the token's email when a present, non-empty cookie verifies. It is `'unknown'` when the cookie is absent, empty or rejected. |
| `AuthController.SignoutIdempotent` | src/controller/auth.controller.js:94-116 | Signing out twice gives the same answer both times and leaves the client without a `token` cookie. |
| `AuthController.AnaSession` | src/controller/auth.controller.js:9-92 | On an empty table: signing Ana up gives 201 with her email and a token cookie. Repeating the sign-up gives 409 `Email already exists`. Signing in with her password gives 200 with a token cookie. Signing in with `wrong` gives 401 `Invalid credentials`. |

## Left out

- The hashing library's internals and its work factor of 10 are not modelled. `hash` and `compare` are uninterpreted functions, and the only law about them is `Sound`. Nothing is claimed about the digest differing from the plaintext or about constant-time comparison.
- Token signing and verification (`#utils/jwt.js`) are not part of this model. They are opaque parameters, so claims round-tripping, expiry and signature checking are not modelled.
- The database is an in-memory table. Failures of `db.select` or `db.insert` (connection errors, a unique-constraint violation raised by a concurrent insert between the lookup and the insert) are not modelled. The source does not catch them either; they would reach `next`. Concurrent requests are out of scope.
- The schema definitions (`#validations/auth.validations.js`) and `formatValidationError` are not part of this model. Validation is an input, and its details are opaque.
- Cookie attributes (`#utils/cookies.js`) are not part of this model. Clearing the cookie is modelled as the client dropping it (`ApplyCookie`).
- Logging is not modelled, except for the email `signout` records, which is kept as `loggedEmail`.
- The async/await mechanics are not modelled. A failure thrown by `sign`, `cookies.set`, `cookies.clear` or `res.json` is not modelled either; all of these are treated as total.
- `src/app.js` (middleware wiring and the health and hello routes) is plumbing with no decision logic.
- `AuthService.AuthenticateUser`: returns the same five public fields that `createUser` returns. It does not model the exact key names of a `select()` row (`created_at` versus `createdAt`) or any further column, because the table schema is not part of this model.
- `AuthService.UserStore.CreateUser`: the `role` column takes the given string as is. Role validation belongs to the schema, which is not part of this model.
