/**
 * What the register and login endpoints promise: the order of their guards,
 * that only a successful registration writes, that emails stay unique, and
 * that a registered password logs in.
 */
module AuthProperties {
  import opened Wrappers
  import opened Response
  import opened EmailPattern
  import opened UserStore
  import opened AuthController

  // ---- register ----

  /** A missing body or a missing key: 400 "Data tidak lengkap", nothing written. */
  lemma RegisterIncomplete(users: seq<User>, req: Option<Body>, salt: string, c: Crypto)
    requires !HasRegisterFields(req)
    ensures RegisterStep(users, req, salt, c) == Transition(Error(MsgIncomplete, 400), users)
  {
  }

  /** A malformed email: 400 "Email tidak valid", nothing written, whether or not the email is taken. */
  lemma RegisterInvalidEmail(users: seq<User>, name: string, email: string, password: string, salt: string, c: Crypto)
    requires !IsValidEmail(email)
    ensures RegisterStep(users, Some(Body(Some(name), Some(email), Some(password))), salt, c)
         == Transition(Error(MsgInvalidEmail, 400), users)
  {
  }

  /** A well-formed email that some document already has: 409 "Email sudah terdaftar", nothing written. */
  lemma RegisterEmailTaken(users: seq<User>, i: int, name: string, password: string, salt: string, c: Crypto)
    requires 0 <= i < |users| && IsValidEmail(users[i].email)
    ensures RegisterStep(users, Some(Body(Some(name), Some(users[i].email), Some(password))), salt, c)
         == Transition(Error(MsgEmailTaken, 409), users)
  {
  }

  /**
   * A well-formed, unused email: 201 "Register berhasil" with data exactly
   * `{name, email}`, and exactly one document `{name, email, Hash(password), "user"}`
   * appended. Any password is accepted, the empty one included.
   */
  lemma RegisterSucceeds(users: seq<User>, name: string, email: string, password: string, salt: string, c: Crypto)
    requires IsValidEmail(email)
    requires forall i | 0 <= i < |users| :: users[i].email != email
    ensures var t := RegisterStep(users, Some(Body(Some(name), Some(email), Some(password))), salt, c);
      && t.response.statusCode == 201
      && FromJson(t.response.body) == Some(Envelope(true, MsgRegistered, RegisteredData(name, email)))
      && t.users == users + [User(name, email, c.hash(password, salt), "user")]
  {
  }

  /** A registration succeeds exactly when every guard passes. */
  lemma RegisterSucceedsIff(users: seq<User>, req: Option<Body>, salt: string, c: Crypto)
    ensures RegisterStep(users, req, salt, c).response.statusCode == 201
        <==> HasRegisterFields(req) && IsValidEmail(req.value.email.value) &&
             forall i | 0 <= i < |users| :: users[i].email != req.value.email.value
  {
  }

  /** No registration ever makes two documents share an email. */
  lemma RegisterKeepsUnique(users: seq<User>, req: Option<Body>, salt: string, c: Crypto)
    requires UniqueEmails(users)
    ensures UniqueEmails(RegisterStep(users, req, salt, c).users)
  {
    var t := RegisterStep(users, req, salt, c);
    if t.users != users {
      assert t.users == users + [t.users[|users|]];
      AppendKeepsUnique(users, t.users[|users|]);
    }
  }

  /** Registering the same email twice: 201, then 409 with nothing more written. */
  lemma RegisterTwice(users: seq<User>, first: Body, second: Body, salt1: string, salt2: string, c: Crypto)
    requires HasRegisterFields(Some(first)) && HasRegisterFields(Some(second))
    requires second.email == first.email
    requires RegisterStep(users, Some(first), salt1, c).response.statusCode == 201
    ensures var after := RegisterStep(users, Some(first), salt1, c).users;
      RegisterStep(after, Some(second), salt2, c) == Transition(Error(MsgEmailTaken, 409), after)
  {
    var after := RegisterStep(users, Some(first), salt1, c).users;
    assert after[|users|].email == first.email.value;
  }

  /** A run of registrations, one after the other, each with its own salt. */
  function RegisterAll(users: seq<User>, reqs: seq<(Option<Body>, string)>, c: Crypto): (final: seq<User>)
    ensures |users| <= |final| && final[..|users|] == users
    decreases |reqs|
  {
    if |reqs| == 0 then users
    else
      var after := RegisterAll(users, reqs[..|reqs| - 1], c);
      RegisterStep(after, reqs[|reqs| - 1].0, reqs[|reqs| - 1].1, c).users
  }

  lemma {:induction false} RegisterAllKeepsUnique(users: seq<User>, reqs: seq<(Option<Body>, string)>, c: Crypto)
    requires UniqueEmails(users)
    ensures UniqueEmails(RegisterAll(users, reqs, c))
    decreases |reqs|
  {
    if |reqs| > 0 {
      RegisterAllKeepsUnique(users, reqs[..|reqs| - 1], c);
      RegisterKeepsUnique(RegisterAll(users, reqs[..|reqs| - 1], c), reqs[|reqs| - 1].0, reqs[|reqs| - 1].1, c);
    }
  }

  // ---- login ----

  lemma LoginIncomplete(users: seq<User>, req: Option<Body>, now: int, cfg: Config, c: Crypto)
    requires !HasLoginFields(req)
    ensures Login(users, req, now, cfg, c) == Error(MsgIncomplete, 400)
  {
  }

  /** A malformed email is refused before the collection is consulted. */
  lemma LoginInvalidEmail(users: seq<User>, req: Option<Body>, now: int, cfg: Config, c: Crypto)
    requires HasLoginFields(req) && !IsValidEmail(req.value.email.value)
    ensures Login(users, req, now, cfg, c) == Error(MsgInvalidEmail, 400)
  {
  }

  lemma LoginEmailNotFound(users: seq<User>, req: Option<Body>, now: int, cfg: Config, c: Crypto)
    requires HasLoginFields(req) && IsValidEmail(req.value.email.value)
    requires forall i | 0 <= i < |users| :: users[i].email != req.value.email.value
    ensures Login(users, req, now, cfg, c) == Error(MsgEmailNotFound, 404)
  {
  }

  /**
   * The password is checked against the first document with the email, and
   * only by the hash checker; later documents with the same email are never
   * consulted.
   */
  lemma LoginWrongPassword(users: seq<User>, u: User, req: Option<Body>, now: int, cfg: Config, c: Crypto)
    requires HasLoginFields(req) && IsValidEmail(req.value.email.value)
    requires FindOne(users, req.value.email.value) == Some(u)
    requires !c.check(u.password, req.value.password.value)
    ensures Login(users, req, now, cfg, c) == Error(MsgWrongPassword, 401)
  {
  }

  /** A successful login signs the stored email and name with an expiry `expireHours` after `now`. */
  lemma LoginSucceeds(users: seq<User>, u: User, req: Option<Body>, now: int, cfg: Config, c: Crypto)
    requires HasLoginFields(req) && IsValidEmail(req.value.email.value)
    requires FindOne(users, req.value.email.value) == Some(u)
    requires c.check(u.password, req.value.password.value)
    ensures var r := Login(users, req, now, cfg, c);
      && r.statusCode == 200
      && FromJson(r.body) == Some(Envelope(true, MsgLoggedIn, TokenData(c.encode(
           Payload(u.email, u.name, now + cfg.expireHours * 3600), cfg.secret, cfg.algorithm))))
  {
  }

  /** Under the default configuration a token is signed with HS256 and expires 24 hours (86400 seconds) after `now`. */
  lemma LoginWithDefaults(users: seq<User>, u: User, req: Option<Body>, now: int, secret: string, c: Crypto)
    requires HasLoginFields(req) && IsValidEmail(req.value.email.value)
    requires FindOne(users, req.value.email.value) == Some(u)
    requires c.check(u.password, req.value.password.value)
    ensures Login(users, req, now, DefaultConfig(secret), c)
         == Success(TokenData(c.encode(Payload(u.email, u.name, now + 86400), secret, "HS256")), MsgLoggedIn, 200)
  {
  }

  /** With unique emails, the lookup finds the one document that has the email. */
  lemma FirstMatchUnique(users: seq<User>, i: int)
    requires UniqueEmails(users) && 0 <= i < |users|
    ensures FindOne(users, users[i].email) == Some(users[i])
  {
    var r := FindOne(users, users[i].email);
    var k :| 0 <= k < |users| && users[k] == r.value && (forall j | 0 <= j < k :: users[j].email != users[i].email);
    assert k == i;
  }

  /**
   * Login never looks at the shape of the password and ignores `name`: two
   * requests for the same email that the hash checker treats alike get the
   * same answer.
   */
  lemma LoginIgnoresPasswordShape(users: seq<User>, email: string, p1: string, p2: string,
                                  n1: Option<string>, n2: Option<string>, now: int, cfg: Config, c: Crypto)
    requires FindOne(users, email).Some? ==>
      c.check(FindOne(users, email).value.password, p1) == c.check(FindOne(users, email).value.password, p2)
    ensures Login(users, Some(Body(n1, Some(email), Some(p1))), now, cfg, c)
         == Login(users, Some(Body(n2, Some(email), Some(p2))), now, cfg, c)
  {
  }

  /** After a successful registration, the same email and password log in with the registered name. */
  lemma LoginAfterRegister(users: seq<User>, name: string, email: string, password: string, salt: string,
                           loginName: Option<string>, now: int, cfg: Config, c: Crypto)
    requires ChecksOwnHash(c)
    requires RegisterStep(users, Some(Body(Some(name), Some(email), Some(password))), salt, c).response.statusCode == 201
    ensures var after := RegisterStep(users, Some(Body(Some(name), Some(email), Some(password))), salt, c).users;
      Login(after, Some(Body(loginName, Some(email), Some(password))), now, cfg, c)
      == Success(TokenData(c.encode(Payload(email, name, now + cfg.expireHours * 3600), cfg.secret, cfg.algorithm)),
                 MsgLoggedIn, 200)
  {
    var u := NewUser(name, email, password, salt, c);
    FindOneAfterAppend(users, u);
    assert c.check(c.hash(password, salt), password);
  }

  // ---- the final newline that `$` admits ----

  /** An address followed by one "\n" passes the format check of both endpoints. */
  lemma NewlineAcceptedByBoth(users: seq<User>, name: string, email: string, password: string, salt: string,
                              now: int, cfg: Config, c: Crypto)
    requires CoreMatch(email)
    ensures RegisterStep(users, Some(Body(Some(name), Some(email + "\n"), Some(password))), salt, c).response
         != Error(MsgInvalidEmail, 400)
    ensures Login(users, Some(Body(None, Some(email + "\n"), Some(password))), now, cfg, c)
         != Error(MsgInvalidEmail, 400)
  {
    TrailingNewline(email);
  }

  /**
   * Because the stored email keeps the newline, an address and the same
   * address with a final "\n" register as two separate accounts.
   */
  lemma NewlineMakesSecondAccount(users: seq<User>, name: string, email: string, password: string,
                                  salt1: string, salt2: string, c: Crypto)
    requires CoreMatch(email)
    requires forall i | 0 <= i < |users| :: users[i].email != email && users[i].email != email + "\n"
    ensures var once := RegisterStep(users, Some(Body(Some(name), Some(email), Some(password))), salt1, c);
      var twice := RegisterStep(once.users, Some(Body(Some(name), Some(email + "\n"), Some(password))), salt2, c);
      once.response.statusCode == 201 && twice.response.statusCode == 201 && |twice.users| == |users| + 2
  {
    TrailingNewline(email);
    var once := RegisterStep(users, Some(Body(Some(name), Some(email), Some(password))), salt1, c);
    assert email != email + "\n" by { assert |email| != |email + "\n"|; }
    FindOneAfterAppend(users, once.users[|users|]);
  }

  // ---- a session ----

  /**
   * Register (201 with name and email), register the same email again (409,
   * nothing written), log in with the password (200), with a password the
   * checker refuses (401), and with another well-formed address (404).
   */
  lemma Session(name: string, email: string, password: string, wrong: string, other: string,
                salt1: string, salt2: string, now: int, cfg: Config, c: Crypto)
    requires IsValidEmail(email) && IsValidEmail(other) && other != email
    requires ChecksOwnHash(c) && !c.check(c.hash(password, salt1), wrong)
    ensures var req := Some(Body(Some(name), Some(email), Some(password)));
      var r1 := RegisterStep([], req, salt1, c);
      var r2 := RegisterStep(r1.users, req, salt2, c);
      && r1.response == Success(RegisteredData(name, email), MsgRegistered, 201)
      && r2.response == Error(MsgEmailTaken, 409) && r2.users == r1.users
      && Login(r2.users, Some(Body(None, Some(email), Some(password))), now, cfg, c).statusCode == 200
      && Login(r2.users, Some(Body(None, Some(email), Some(wrong))), now, cfg, c) == Error(MsgWrongPassword, 401)
      && Login(r2.users, Some(Body(None, Some(other), Some(password))), now, cfg, c) == Error(MsgEmailNotFound, 404)
  {
    var req := Body(Some(name), Some(email), Some(password));
    var r1 := RegisterStep([], Some(req), salt1, c);
    RegisterTwice([], req, req, salt1, salt2, c);
    LoginAfterRegister([], name, email, password, salt1, None, now, cfg, c);
    FindOneAfterAppend([], r1.users[0]);
    LoginWrongPassword(r1.users, r1.users[0], Some(Body(None, Some(email), Some(wrong))), now, cfg, c);
    LoginEmailNotFound(r1.users, Some(Body(None, Some(other), Some(password))), now, cfg, c);
  }

  /** The session above for Hanzo, "hanzo@example.com" and "Halo12!!", with "nobody@x.com" unknown. */
  lemma HanzoSession(salt1: string, salt2: string, now: int, cfg: Config, c: Crypto)
    requires ChecksOwnHash(c) && !c.check(c.hash("Halo12!!", salt1), "wrong")
    ensures var req := Some(Body(Some("Hanzo"), Some("hanzo@example.com"), Some("Halo12!!")));
      var r1 := RegisterStep([], req, salt1, c);
      var r2 := RegisterStep(r1.users, req, salt2, c);
      && r1.response.statusCode == 201
      && FromJson(r1.response.body).value.data
         == JObject([("name", JString("Hanzo")), ("email", JString("hanzo@example.com"))])
      && r2.response.statusCode == 409
      && Login(r2.users, Some(Body(None, Some("hanzo@example.com"), Some("Halo12!!"))), now, cfg, c).statusCode == 200
      && Login(r2.users, Some(Body(None, Some("hanzo@example.com"), Some("wrong"))), now, cfg, c).statusCode == 401
      && Login(r2.users, Some(Body(None, Some("nobody@x.com"), Some("Halo12!!"))), now, cfg, c).statusCode == 404
  {
    ExampleAccepted();
    OtherExampleAccepted();
    Session("Hanzo", "hanzo@example.com", "Halo12!!", "wrong", "nobody@x.com", salt1, salt2, now, cfg, c);
  }
}
