# Auth-cs request handling, modelled in Dafny

Auth-cs is a Remix web application. It keeps user accounts and their software
license keys in SQLite and exposes one machine-to-machine endpoint. A C#
application calls that endpoint with an API key to check whether a license key
is valid. This project models how each request becomes an outcome:

- **Validate license** (`POST /api/validate-license`): authenticate the `X-API-Key` header
  against active API keys, read `licenseKey` from the JSON body, and classify
  the key by its row joined to its owner (200 valid, 403 inactive, 404 unknown,
  400/401/500 otherwise).
- **Register**: four independent field checks; refusal when the email or username is
  taken; insertion of exactly one user holding the bcrypt hash; sign-in through
  a committed cookie session.
- **Login**: field checks; lookup by email *or* username; one generic 401 for
  an unknown user, a user without a hash, or a wrong password; sign-in and a
  redirect to `redirectTo` (default `/dashboard`).
- **Forgot password**: an email check, then, when a row has the email, a fresh
  32-byte token. The row stores the token's SHA-256 hash and an expiry one hour
  ahead, and the reply carries a link with the plaintext token. The reply is 200
  whether or not the account exists.
- **Dashboard loader**: `requireUser`, then the signed-in user's license keys,
  newest first. When that query fails, the list is empty and an error is set.
- The session helpers of `auth.server.ts`: `getUserFromSession`,
  `requireUser` (whose redirect URL is serialized as
  `application/x-www-form-urlencoded`), `createUserSession`, `logout`,
  `generateResetToken` and `hashResetToken`.

The store is a `Store` class with one sequence field per table; the
`ghost predicate Valid` holds the UNIQUE constraints. Register and forgot-password change
the store, so they are methods with `modifies store`. The license endpoint and
the dashboard loader only read the store, so they are functions. Login is a method that
changes nothing. The cookie session is the `Session` class over its decoded
payload. bcrypt, SHA-256, the random bytes, the clock, the request origin and
store failures are parameters.

Module `Scenarios` relates the flows. A user that register inserts is the user
that login signs in with the same password, provided no older row holds the new
identifier in the *other* column. Registration compares the new email only with
emails and the new username only with usernames. Login matches one identifier
against both columns. When an older username equals the new email, two different
users answer to that identifier, and a single-row `.get` can sign in only one of
them. Which row SQLite returns is its own choice. The model's lookups take the
first match in table order, which here is the older row. `EmailShadowed` states
this for every table and `ShadowedEmail` gives a concrete instance. The behaviour
is modelled as written.

Two behaviours of the source are modelled as written:

- A JSON body of `null` passes the parse step. Destructuring it then throws, and
  the outer handler answers 500.
- `redirectTo` on login is any non-file text, so the redirect target is whatever
  the form supplied.

## Model

| member | source | states |
|---|---|---|
| Hex.Encode | app/utils/auth.server.ts:67 | `toString('hex')`: two lower-case hex digits per byte |
| Hex.DecodeEncode | app/utils/auth.server.ts:67 | the hex text of any bytes decodes back to exactly those bytes |
| FormUrlEncoding.Utf8 | app/utils/auth.server.ts:49 | UTF-8 takes 1 to 4 bytes per character, and 1 exactly for ASCII, which keeps its code (its inverse is `DecodeUtf8Char`, see `Utf8CharThen`) |
| FormUrlEncoding.DecodeUtf8Char | app/utils/auth.server.ts:49 | a UTF-8 reader consumes between 1 byte and the whole input |
| FormUrlEncoding.Utf8CharThen | app/utils/auth.server.ts:49 | the UTF-8 bytes of any character read back as that character, whatever follows them |
| FormUrlEncoding.DecodeUtf8Encode | app/utils/auth.server.ts:49 | the UTF-8 bytes of any string read back as that string |
| FormUrlEncoding.Utf8StringInjective | app/utils/auth.server.ts:49 | two strings with the same UTF-8 bytes are equal |
| FormUrlEncoding.PercentEncode | app/utils/auth.server.ts:49 | each byte becomes `%` and two upper-case hex digits |
| FormUrlEncoding.Encode | app/utils/auth.server.ts:49 | the serialized `redirectTo` value holds only unreserved characters, `+` and `%`, so it cannot end or split the query |
| FormUrlEncoding.DecodeEncode | app/utils/auth.server.ts:49 | decoding the serialized value yields the UTF-8 bytes of the original path |
| FormUrlEncoding.ValueRoundTrip | app/utils/auth.server.ts:49 | decoding the serialized value yields the original string: the redirect target survives the query string |
| Tables.FindFirst | app/routes/register.tsx:52-55 | `.get`: the first row in table order that the WHERE clause accepts, and none exactly when no row does |
| Tables.FindByEmailOrUsername | app/routes/register.tsx:52-55 | `.get` on `email = ? OR username = ?`: the first matching row, and none exactly when no row matches |
| Tables.FindByEmail | app/routes/forgot-password.tsx:37-38 | `.get` on `email = ?`: the first row with the email, and none exactly when no row has it |
| Records.Utf16Length | app/routes/register.tsx:36-41 | `.length` counts UTF-16 code units: between the number of characters and twice it, zero only for the empty string, and equal to the number of characters exactly when all lie in the Basic Multilingual Plane |
| Tables.LargestId | app/routes/register.tsx:65-69 | the largest id bounds every row and belongs to a row |
| Tables.NextUserId | app/routes/register.tsx:65-69 | the rowid of the inserted user is larger than every existing id, and positive in a well-formed table |
| AuthServer.Session.constructor | app/utils/auth.server.ts:19 | `getSession` holds the cookie's payload |
| AuthServer.Session.Set | app/utils/auth.server.ts:20-21 | `session.set` updates one key and keeps the others |
| AuthServer.Session.Commit | app/utils/auth.server.ts:24 | the committed header makes the browser present exactly the session's data |
| AuthServer.Session.Destroy | app/utils/auth.server.ts:61 | `destroySession` gives a header that expires the cookie, so the next request carries no payload |
| AuthServer.UserSessionData | app/utils/auth.server.ts:18-27 | the stored payload has exactly `userId` and `username`, and reads back as that user when the id is non-zero and the name non-empty |
| AuthServer.CreateUserSession | app/utils/auth.server.ts:18-27 | redirects to `redirectTo` and sets a cookie holding exactly the user's id and name, which `getUserFromSession` reads back |
| AuthServer.GetUserFromSession | app/utils/auth.server.ts:29-42 | a user, with empty email, exactly when `userId` is a non-zero number and `username` a non-empty string in the cookie |
| AuthServer.RequireUser | app/utils/auth.server.ts:45-54 | allows exactly when there is a session user. Otherwise it redirects to `/login?redirectTo=` with the path serialized, sets no cookie, and the query value decodes back to exactly the path |
| AuthServer.Logout | app/utils/auth.server.ts:57-64 | redirects to `/login` with an expiring cookie, after which no user is signed in |
| AuthServer.GenerateResetToken | app/utils/auth.server.ts:66-75 | the token is 64 lower-case hex digits that decode to the 32 random bytes, and the hashed token is `hashResetToken` of the token |
| ValidateLicense.FindOwner | app/routes/api.validate-license.ts:40-43 | the join finds the first user with the license's `userId` in table order, and none exactly when no user has it |
| ValidateLicense.FindLicense | app/routes/api.validate-license.ts:40-43 | `.get` on the inner join gives a joined (license, owner) pair, and none exactly when no license row with the key has an owner |
| ValidateLicense.Action | app/routes/api.validate-license.ts:7-64 | `valid` holds iff the status is 200, and the status is one of six. Each of 401, 500, 400 and 404 is characterised by its exact condition in branch order, and each refusal by its whole reply and message: missing header, invalid API key, store failure, unparsable body, `null` body, bad `licenseKey`, not found, inactive. 200 carries no error and the owner of an active joined row; 403 means a joined row is inactive |
| ValidateLicense.FindOwnerUnique | app/routes/api.validate-license.ts:40-43 | with unique ids, the owner lookup finds the one row with the id |
| ValidateLicense.FindLicenseUnique | app/routes/api.validate-license.ts:40-43 | with unique keys and ids, the join returns the one license row with the key, paired with its owner |
| ValidateLicense.ActiveLicenseAccepted | app/routes/api.validate-license.ts:45-58 | in a well-formed store, after the key checks pass, an owned license gives 200 with its owner's name and email when active, otherwise 403 |
| Register.Validate | app/routes/register.tsx:31-44 | the error map has exactly the keys of the failed checks, each with its message, and is empty iff all four pass; lengths are counted in UTF-16 code units |
| Register.AstralLengths | app/routes/register.tsx:36-41 | two astral characters are a long enough username and three a long enough password, while two ASCII letters are not |
| Register.Inserted | app/routes/register.tsx:65-68 | the table after the INSERT is the old table followed by one row with the next rowid, the given email, username and hash, and no reset token or expiry |
| Register.InsertKeepsWellFormed | app/routes/register.tsx:65-68 | inserting a row with a fresh positive id, email and username keeps the UNIQUE constraints |
| Register.Action | app/routes/register.tsx:24-83 | Field errors give 400 with exactly the failed fields, each with its message. A store failure and a taken name each give their rejection. All three leave the store unchanged. Otherwise exactly one row with the hash and the next rowid is appended, the store stays well formed, and the reply signs in that id and username at `/dashboard` |
| Login.RedirectTarget | app/routes/login.tsx:27 | a missing or empty entry falls back to `/dashboard`, a non-empty text is kept, a file stays a non-text |
| Login.Validate | app/routes/login.tsx:29-44 | the error map has exactly the keys of the failed checks, each with its message, and is empty iff all pass |
| Login.Authenticate | app/routes/login.tsx:47-62 | yields exactly the row the lookup returns (the first matching the identifier in either column), and only when it has a hash and bcrypt accepts the password; otherwise nothing |
| Login.Action | app/routes/login.tsx:23-71 | 400 with exactly the failed fields, each with its message, then 500 on a store failure. 401 with one generic message iff authentication fails. Otherwise it redirects to the target with that user's session |
| ForgotPassword.SetResetToken | app/routes/forgot-password.tsx:44-47 | the UPDATE sets token hash and expiry on the rows with the id and leaves every other row as it was |
| ForgotPassword.SetResetTokenKeepsWellFormed | app/routes/forgot-password.tsx:44-47 | the UPDATE keeps the UNIQUE constraints |
| ForgotPassword.ReissueOverwrites | app/routes/forgot-password.tsx:44-47 | a second request replaces the first token and expiry: a user holds at most one outstanding token |
| ForgotPassword.Action | app/routes/forgot-password.tsx:23-68 | A bad email gives 400 and a store failure 500, both without a change. An unknown email gives the generic 200 without a link. A known email stores the token's hash and an expiry now plus one hour on that row only, and returns 200 with the link that holds the plaintext token |
| Dashboard.TextLeTotal | app/routes/dashboard.tsx:18 | any two `createdAt` texts are ordered one way or the other |
| Dashboard.TextLeTransitive | app/routes/dashboard.tsx:18 | the text order is transitive |
| Dashboard.OwnedBy | app/routes/dashboard.tsx:17-20 | `WHERE userId = ?` yields the summaries of the user's rows, each as many times as there are such rows |
| Dashboard.Insert | app/routes/dashboard.tsx:18 | inserting into a newest-first list keeps it newest first and adds exactly that key |
| Dashboard.SortNewestFirst | app/routes/dashboard.tsx:18 | `ORDER BY createdAt DESC` gives a newest-first permutation of its input |
| Dashboard.Loader | app/routes/dashboard.tsx:13-27 | Without a session user it redirects as `requireUser` does. With one, the page shows that user and, when the query fails, an empty list and the error. Otherwise it shows exactly that user's keys, each as often as it has rows, newest first |
| Scenarios.NewRowFound | app/routes/login.tsx:47-50 | the login lookup finds the new row when no older row holds the identifier in either column |
| Scenarios.LoginByUsernameAfterRegister | app/routes/login.tsx:47-64 | a registered user logs in with the username and password, unless an older row has that username as its email |
| Scenarios.LoginByEmailAfterRegister | app/routes/login.tsx:47-64 | a registered user logs in with the email and password, unless an older row has that email as its username |
| Scenarios.EmailShadowed | app/routes/login.tsx:47-50 | when an older username equals the new email, the older row and the new row are different users that both answer to that identifier, and the table-order lookup does not return the new one |
| Scenarios.ShadowedEmail | app/routes/register.tsx:52-57 | a concrete registration that is not refused, after which two rows answer to the new email |

## Left out

- AuthServer.HashResetToken: has no contract of its own, because SHA-256 is a parameter. `GenerateResetToken` states that the stored hash is this function of the token.
- bcrypt (`hashPassword`, `comparePassword`), SHA-256 and `crypto.randomBytes` are foreign code. They are parameters or inputs: the bcrypt salt and the cost factor are not modelled.
- The clock (`Date.now`) and the request origin are inputs. The expiry is kept as milliseconds, not the ISO text the UPDATE stores.
- Store failures are one flag per request, the failure of the first statement. A failure of a later statement is not modelled: the INSERT in register, the UPDATE in forgot-password, and the join SELECT of the license endpoint (app/routes/api.validate-license.ts:40-43).
- Register.Action: committing the session cannot fail in the model. The cookie session storage refuses a cookie longer than 4096 characters, which a very long username can cause. In the source the register action then answers 500 after the INSERT has added the row.
- Login.Action: for the same reason, every later login of such a user answers 500 in the source, while the model signs the user in.
- Which row a `.get` returns when several match is SQLite's choice. The model takes the first in table order.
- Concurrency is not modelled, including two registrations racing between the lookup and the INSERT.
- Cookie signing, the session secret, cookie attributes and the one-week lifetime are not modelled. A session is its decoded payload, and a bad or missing cookie is the empty payload.
- A non-integral number under `userId` is not modelled; the model treats it as a non-number. The redirect status code (302) is implicit in `Redirect`.
- Strings are sequences of Unicode scalar values. A lone UTF-16 surrogate, which `URLSearchParams` replaces with U+FFFD, cannot occur in the model.
- SQLite's 64-bit rowid limit is not modelled: ids are unbounded. app/db/schema.sql is not part of this model, and `Valid` stands in for its UNIQUE constraints.
- The `loader`s of the register, login and forgot-password routes are not modelled. Each only redirects a signed-in user to `/dashboard`.
- The route wrappers app/routes/_index.tsx and app/routes/logout.tsx are not modelled.
- The reset-password route, which consumes the token, is not modelled.
- app/db/db.server.ts (connection setup), the UI components and the page renderings are not modelled.
