/**
 * The register and login endpoints of app/controllers/api/auth_controller.py.
 *
 * Each endpoint runs a fixed chain of guards and answers through the response
 * envelope. `RegisterStep` states what `register` answers and what the
 * collection holds afterwards; `Register` is the endpoint itself, writing the
 * collection in place. `Login` only reads the collection.
 *
 * The password hasher, the hash checker and the token encoder are library
 * code; they are parameters here (`Crypto`). The hasher's random salt is an
 * argument of `hash`, the current time is `now` in whole seconds since the
 * epoch, and the process configuration is a `Config` value.
 */
module AuthController {
  import opened Wrappers
  import opened Response
  import opened EmailPattern
  import opened UserStore

  /** The JSON request body; a field is None when its key is missing. */
  datatype Body = Body(name: Option<string>, email: Option<string>, password: Option<string>)

  /** The claims signed into a login token; `exp` in seconds since the epoch. */
  datatype Payload = Payload(email: string, name: string, exp: int)

  /** `JWT_SECRET`, `JWT_ALGORITHM` and `JWT_EXPIRE_HOURS`. */
  datatype Config = Config(secret: string, algorithm: string, expireHours: int)

  /**
   * `generate_password_hash(plain)` with its salt made explicit,
   * `check_password_hash(digest, plain)`, and `jwt.encode(payload, secret, algorithm)`.
   */
  datatype Crypto = Crypto(
    hash: (string, string) -> string,
    check: (string, string) -> bool,
    encode: (Payload, string, string) -> string)

  /** The one property of the hasher the endpoints rely on: a hash checks against its own password. */
  ghost predicate ChecksOwnHash(c: Crypto)
  {
    forall plain: string, salt: string :: c.check(c.hash(plain, salt), plain)
  }

  const DefaultAlgorithm: string := "HS256"
  const DefaultExpireHours: int := 24
  const SecondsPerHour: int := 3600
  const UserRole: string := "user"

  /** The configuration when only the secret is set in the environment. */
  function DefaultConfig(secret: string): Config
  {
    Config(secret, DefaultAlgorithm, DefaultExpireHours)
  }

  const MsgIncomplete: string := "Data tidak lengkap"
  const MsgInvalidEmail: string := "Email tidak valid"
  const MsgEmailTaken: string := "Email sudah terdaftar"
  const MsgRegistered: string := "Register berhasil"
  const MsgEmailNotFound: string := "Email tidak ditemukan"
  const MsgWrongPassword: string := "Password salah"
  const MsgLoggedIn: string := "Login berhasil"

  /** `data` is present and has the keys `name`, `email` and `password`. */
  predicate HasRegisterFields(req: Option<Body>)
  {
    req.Some? && req.value.name.Some? && req.value.email.Some? && req.value.password.Some?
  }

  /** `data` is present and has the keys `email` and `password`. */
  predicate HasLoginFields(req: Option<Body>)
  {
    req.Some? && req.value.email.Some? && req.value.password.Some?
  }

  /** The `data` of a successful registration: name and email, never the password. */
  function RegisteredData(name: string, email: string): Json
  {
    JObject([("name", JString(name)), ("email", JString(email))])
  }

  /** The `data` of a successful login. */
  function TokenData(token: string): Json
  {
    JObject([("token", JString(token))])
  }

  /** The document `register` inserts. */
  function NewUser(name: string, email: string, password: string, salt: string, c: Crypto): User
  {
    User(name, email, c.hash(password, salt), UserRole)
  }

  /** The claims of a token issued at `now`: the stored email and name, expiring `expireHours` later. */
  function TokenPayload(u: User, now: int, cfg: Config): Payload
  {
    Payload(u.email, u.name, now + cfg.expireHours * SecondsPerHour)
  }

  /** What a request returns and what the collection holds after it. */
  datatype Transition = Transition(response: HttpResponse, users: seq<User>)

  /**
   * `register()`: completeness, then email format, then the duplicate lookup;
   * only when all pass is one document inserted.
   */
  function RegisterStep(users: seq<User>, req: Option<Body>, salt: string, c: Crypto): (t: Transition)
    ensures t.users == users || (|t.users| == |users| + 1 && t.users[..|users|] == users)
    ensures t.users != users <==> t.response.statusCode == 201
    ensures t.users != users ==> FindOne(users, t.users[|users|].email).None?
    ensures t.response.statusCode in {201, 400, 409}
  {
    if !HasRegisterFields(req) then Transition(Error(MsgIncomplete, 400), users)
    else
      var name, email, password := req.value.name.value, req.value.email.value, req.value.password.value;
      if !IsValidEmail(email) then Transition(Error(MsgInvalidEmail, 400), users)
      else if FindOne(users, email).Some? then Transition(Error(MsgEmailTaken, 409), users)
      else
        Transition(Success(RegisteredData(name, email), MsgRegistered, 201),
                   users + [NewUser(name, email, password, salt, c)])
  }

  /** The register endpoint, writing the collection in place. */
  method Register(db: Users, req: Option<Body>, salt: string, c: Crypto) returns (r: HttpResponse)
    modifies db
    ensures Transition(r, db.docs) == RegisterStep(old(db.docs), req, salt, c)
  {
    if !HasRegisterFields(req) {
      return Error(MsgIncomplete, 400);
    }
    var name, email := req.value.name.value, req.value.email.value;
    if !IsValidEmail(email) {
      return Error(MsgInvalidEmail, 400);
    }
    // The source hashes before the lookup; the hash has no effect on the answer.
    var password := c.hash(req.value.password.value, salt);
    if FindOne(db.docs, email).Some? {
      return Error(MsgEmailTaken, 409);
    }
    db.InsertOne(User(name, email, password, UserRole));
    return Success(RegisteredData(name, email), MsgRegistered, 201);
  }

  /**
   * `login()`: completeness, then email format, then the lookup, then the
   * password check; on success a token over the stored email and name.
   */
  function Login(users: seq<User>, req: Option<Body>, now: int, cfg: Config, c: Crypto): (r: HttpResponse)
    ensures r.statusCode in {200, 400, 401, 404}
  {
    if !HasLoginFields(req) then Error(MsgIncomplete, 400)
    else
      var email := req.value.email.value;
      if !IsValidEmail(email) then Error(MsgInvalidEmail, 400)
      else
        var password := req.value.password.value;
        match FindOne(users, email)
        case None => Error(MsgEmailNotFound, 404)
        case Some(user) =>
          if !c.check(user.password, password) then Error(MsgWrongPassword, 401)
          else
            var token := c.encode(TokenPayload(user, now, cfg), cfg.secret, cfg.algorithm);
            Success(TokenData(token), MsgLoggedIn, 200)
  }
}
