# Register and login of a small Flask user service, in Dafny

This project models the authentication core of a Flask service that keeps
users in a MongoDB `users` collection:

- `EMAIL_REGEX` (`^[\w\.-]+@[\w\.-]+\.\w+$`, applied with `re.match`) as the
  predicate `EmailPattern.IsValidEmail`. It is decided by locating the `@` and
  the last dot, and proved equal to a declarative "local part, `@`, domain
  prefix, `.`, suffix" shape. Python's `$` also matches before one final
  newline, and the model keeps that behaviour.
- `register()` as a chain of guards: completeness, then email format, then
  the duplicate lookup, then one insert. `AuthController.RegisterStep` gives
  the answer and the collection afterwards. `AuthController.Register` is the
  endpoint, and it writes a `UserStore.Users` collection in place.
- `login()` as a read-only function: the same guards, then the lookup, then
  the hash check, then a token over the stored email and name.
- `success()` and `error()` as constructors of the ordered envelope
  `{status, message, data}` with a status code (module `Response`).

The password hasher (`generate_password_hash`), the checker
(`check_password_hash`) and the token encoder (`jwt.encode`) are parameters
(`AuthController.Crypto`). The hasher's random salt is an argument of `hash`.
The endpoints rely on one property of these parameters,
`ChecksOwnHash`: a hash checks against its own password. That property is a
hypothesis of the lemmas that need it, and nothing else is assumed about the
library code. The current time is a parameter `now` in whole seconds since the
epoch. The secret, the algorithm and the lifetime in hours form a `Config`
value.

The code performs no password-strength check: it hashes whatever password it
receives (app/controllers/api/auth_controller.py:37), so `RegisterSucceeds`
holds for every password, the empty one included.

Files: `wrappers.dfy` (Option), `response.dfy`, `email.dfy`, `store.dfy`,
`auth.dfy` (the endpoints) and `auth_properties.dfy` (what they promise).

## Model

| member | source | states |
|---|---|---|
| Response.ToJson | app/utils/response.py:6-10 | the envelope object has exactly the keys status, message, data, in that order |
| Response.EnvelopeRoundTrip | app/utils/response.py:6-10 | reading the three fields back from the ordered object gives the envelope that was written |
| Response.Success | app/utils/response.py:5-15 | the body reads back as status true with the given message and data; keys in the order status, message, data; the HTTP status is `status_code`; media type application/json |
| Response.Error | app/utils/response.py:17-27 | the body reads back as status false with the given message and data; same key order; the HTTP status is `status_code`; media type application/json |
| Response.Defaults | app/utils/response.py:5-17 | `success()` is status true, "Success", data None, code 200; `error()` is status false, "Error", data None, code 400 |
| Response.SuccessErrorDifferOnlyInStatus | app/utils/response.py:5-27 | for equal message, data and code, the two responses differ, and only in the status flag |
| EmailPattern.CoreMatchIff | app/controllers/api/auth_controller.py:22 | the position-based decision accepts exactly the strings split as local `@` prefix `.` suffix, with local and prefix non-empty over `[\w.-]` and suffix non-empty over `\w` |
| EmailPattern.IsValidEmailIff | app/controllers/api/auth_controller.py:22 | `IsValidEmail` holds exactly when that shape matches the whole string, or the string minus one final newline |
| EmailPattern.AcceptsParts | app/controllers/api/auth_controller.py:22 | every local part, domain prefix and suffix of the right alphabets gives an accepted address, with or without one final "\n" |
| EmailPattern.ExampleAccepted | app/controllers/api/auth_controller.py:22 | "hanzo@example.com" is accepted |
| EmailPattern.OtherExampleAccepted | app/controllers/api/auth_controller.py:22 | "nobody@x.com" is accepted |
| EmailPattern.AcceptedShape | app/controllers/api/auth_controller.py:22 | an accepted string has exactly one `@`, a `.` after it, a word character at the end of its core, and only `[\w.-]`, `@` and one final "\n" as characters |
| EmailPattern.RejectsWithoutAt | app/controllers/api/auth_controller.py:22 | a string with no `@` is rejected |
| EmailPattern.RejectsWithoutDotAfterAt | app/controllers/api/auth_controller.py:22 | a string with no `.` after its `@` is rejected |
| EmailPattern.TrailingNewline | app/controllers/api/auth_controller.py:22 | a matching address followed by one "\n" is accepted; followed by two, it is rejected |
| UserStore.FindOne | app/controllers/api/auth_controller.py:42 | `find_one` finds nothing exactly when no document has the email; otherwise it finds the first document with it |
| UserStore.FindOneAfterAppend | app/controllers/api/auth_controller.py:42-50 | after inserting a document with a new email, the lookup finds that document, and every other lookup is as before |
| UserStore.AppendKeepsUnique | app/controllers/api/auth_controller.py:42-50 | inserting a document whose email is not found keeps the emails unique |
| UserStore.Users.InsertOne | app/controllers/api/auth_controller.py:45-50 | `insert_one` appends the document and changes nothing else |
| AuthController.RegisterStep | app/controllers/api/auth_controller.py:24-52 | the collection is unchanged, or grown by exactly one document whose email was not found; it grows exactly when the answer is 201; the answer is 201, 400 or 409 |
| AuthController.Register | app/controllers/api/auth_controller.py:24-52 | the endpoint answers and writes the collection in place exactly as `RegisterStep` says |
| AuthController.Login | app/controllers/api/auth_controller.py:54-84 | the answer is 200, 400, 401 or 404; being a function of the collection, login never writes it |
| AuthProperties.RegisterIncomplete | app/controllers/api/auth_controller.py:28-29 | no body, or a missing name, email or password key: 400 "Data tidak lengkap", collection unchanged |
| AuthProperties.RegisterInvalidEmail | app/controllers/api/auth_controller.py:34-35 | all keys present but the email malformed: 400 "Email tidak valid", collection unchanged, whether or not the email is taken |
| AuthProperties.RegisterEmailTaken | app/controllers/api/auth_controller.py:42-43 | a well-formed email some document already has: 409 "Email sudah terdaftar", nothing inserted |
| AuthProperties.RegisterSucceeds | app/controllers/api/auth_controller.py:37-52 | a well-formed unused email: 201 "Register berhasil" with data exactly {name, email}, and exactly one document {name, email, hash(password), "user"} appended, for any password |
| AuthProperties.RegisterSucceedsIff | app/controllers/api/auth_controller.py:28-52 | register answers 201 exactly when all keys are present, the email is well formed and no document has it |
| AuthProperties.RegisterKeepsUnique | app/controllers/api/auth_controller.py:42-50 | one registration keeps the emails of the collection unique |
| AuthProperties.RegisterTwice | app/controllers/api/auth_controller.py:42-52 | after a 201 for an email, registering that email again answers 409 and inserts nothing |
| AuthProperties.RegisterAll | app/controllers/api/auth_controller.py:24-52 | a run of registrations only ever appends: the starting collection is a prefix of the final one |
| AuthProperties.RegisterAllKeepsUnique | app/controllers/api/auth_controller.py:42-50 | any run of registrations keeps the emails unique |
| AuthProperties.LoginIncomplete | app/controllers/api/auth_controller.py:58-59 | no body, or a missing email or password key: 400 "Data tidak lengkap" |
| AuthProperties.LoginInvalidEmail | app/controllers/api/auth_controller.py:63-64 | keys present but the email malformed: 400 "Email tidak valid", whatever the collection holds |
| AuthProperties.LoginEmailNotFound | app/controllers/api/auth_controller.py:69-71 | a well-formed email that no document has: 404 "Email tidak ditemukan" |
| AuthProperties.LoginWrongPassword | app/controllers/api/auth_controller.py:69-74 | the first document with the email has a hash that does not check against the password: 401 "Password salah", also when later documents share the email |
| AuthProperties.LoginSucceeds | app/controllers/api/auth_controller.py:69-84 | the first document with the email has a hash that checks: 200 "Login berhasil" with data {token}, the token encoding that document's email and name and `now + JWT_EXPIRE_HOURS * 3600` under the configured secret and algorithm |
| AuthProperties.LoginWithDefaults | app/controllers/api/auth_controller.py:19-20 | with the default algorithm and lifetime, a successful login's token is signed with "HS256" and expires at `now + 86400` |
| AuthProperties.FirstMatchUnique | app/controllers/api/auth_controller.py:69 | with unique emails, the lookup finds the one document that has the email |
| AuthProperties.LoginIgnoresPasswordShape | app/controllers/api/auth_controller.py:58-74 | login puts no rule on the password's form and ignores `name`: two requests the hash checker treats alike get the same answer |
| AuthProperties.LoginAfterRegister | app/controllers/api/auth_controller.py:37-84 | for a hasher whose hashes check against their own password, the email and password of a successful registration log in, with a token over the registered name |
| AuthProperties.NewlineAcceptedByBoth | app/controllers/api/auth_controller.py:22-64 | a matching address followed by one "\n" passes the format check of both register and login |
| AuthProperties.NewlineMakesSecondAccount | app/controllers/api/auth_controller.py:34-50 | an address and the same address with a final "\n" register as two separate accounts |
| AuthProperties.Session | app/controllers/api/auth_controller.py:24-84 | register gives 201 with {name, email}; the same again gives 409 and writes nothing; login then gives 200, 401 for a refused password, and 404 for another address |
| AuthProperties.HanzoSession | app/controllers/api/auth_controller.py:24-84 | the same session for "Hanzo", "hanzo@example.com", "Halo12!!", with "nobody@x.com" unknown |

## Left out

- Flask routing, blueprints and `request.get_json()`: the request body is an optional record of optional string fields.
- Request bodies and field values other than a JSON object of strings: every field is typed as a string, and a body is either absent or such an object. In the source, a falsy body (`null`, `false`, `0`, `""`, `[]`) and a list or string lacking the three keys get 400 "Data tidak lengkap", as an absent body does in the model. A non-string `name` is stored and echoed back without error. A non-string `password` raises only when hashing (register, after the email check) or checking (login, after the email is found) is reached. A non-string `email` raises at the format check. A body that passes the key test but cannot be indexed by key, such as `["name","email","password"]`, raises, and so does a body that does not support the key test, such as a number or `true`. None of these exception paths is modelled.
- MongoDB connection setup (app/db.py): the collection is a sequence of documents. `find_one` and `insert_one` become `FindOne` and `InsertOne`.
- The `/fruits` and `/` handlers of app/routes/web.py and the app factory: these are I/O only.
- Internals of werkzeug hashing and PyJWT signing: `hash`, `check` and `encode` are parameters. The salt is an argument. `ChecksOwnHash` is the only property assumed of them, as a lemma hypothesis. The model does not assume that a different password fails to check.
- Reading `JWT_SECRET`, `JWT_ALGORITHM` and `JWT_EXPIRE_HOURS` from the environment: these form a `Config` value. An unset secret (`None` in the source) is not modelled. `DefaultConfig` uses the defaults "HS256" and 24 hours.
- `datetime.utcnow()` and `timedelta`: `now` is whole seconds, and the expiry is `now + hours * 3600`. The token's integer `exp` also drops the sub-second part.
- `json.dumps` and the Flask `Response` object: the body is kept as an ordered JSON value, and serialising it to text is not modelled.
- The check-then-insert race between concurrent registrations: the model is sequential.
- Unicode word characters: `IsWordChar` covers ASCII letters, digits and `_` only. Python's `\w` also accepts other letters and digits, such as "é". The model rejects some addresses that the source accepts.
- Errors from the database or the token library (an HTTP 500 path): the source does not handle them, and they are not modelled.
