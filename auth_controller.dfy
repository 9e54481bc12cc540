/**
 * Logging in. Missing credentials are refused; the configured default
 * credentials log in as the default account, creating it on first use;
 * any other pair must match a stored user's password exactly. Unknown users
 * and wrong passwords get the same answer.
 */
module AuthController {
  import opened Wrappers
  import Text
  import UserModel
  import AuthMiddleware

  /** The claims a token carries: the user's id as a string and the username. */
  datatype Claims = Claims(id: string, username: string)

  /** A signed token, kept symbolic: the claims together with the secret and lifetime it was
      signed with. */
  datatype Token = Signed(claims: Claims, secret: string, expiresIn: string)

  /** The user object echoed in the response body. */
  datatype PublicUser = PublicUser(id: string, username: string)

  /** The response to a login: an error status with its message, or 200 "Login successful"
      with a token and the user. */
  datatype LoginResponse = Rejected(status: int, message: string) | LoggedIn(token: Token, user: PublicUser)

  /** The configured default account. */
  datatype DefaultUser = DefaultUser(username: string, password: string)

  /** `generateToken`: sign the user's id and username. */
  function GenerateToken(user: UserModel.UserDoc, secret: string, expiresIn: string): Token {
    Signed(Claims(user.id, user.username), secret, expiresIn)
  }

  /** A successful login: the token's claims and the echoed user are the same id and username,
      those of the user found or created. */
  function Success(user: UserModel.UserDoc, secret: string, expiresIn: string): (r: LoginResponse)
    ensures r.LoggedIn? && r.user == PublicUser(user.id, user.username)
    ensures r.token.claims.id == r.user.id && r.token.claims.username == r.user.username
    ensures r.token.secret == secret && r.token.expiresIn == expiresIn
  {
    LoggedIn(GenerateToken(user, secret, expiresIn), PublicUser(user.id, user.username))
  }

  /** `!value` for a body field: undefined or the empty string. */
  predicate Missing(v: Option<string>) {
    v.None? || v.value == ""
  }

  predicate IsDefaultLogin(username: Option<string>, password: Option<string>, defaults: DefaultUser) {
    username == Some(defaults.username) && password == Some(defaults.password)
  }

  /** The key a `findOne({ username })` matches: the schema's trim setter runs on the filter. */
  function LookupKey(username: string): string {
    Text.Trim(username)
  }

  /** Which way a login goes, decided from the credentials and the stored users alone. */
  datatype Decision = MissingCredentials | ProvisionDefault | KnownUser(user: UserModel.UserDoc) | InvalidCredentials

  function Decide(users: map<string, UserModel.UserDoc>, username: Option<string>, password: Option<string>,
                  defaults: DefaultUser): (d: Decision)
    ensures d.MissingCredentials? <==> Missing(username) || Missing(password)
    ensures d.ProvisionDefault? <==>
              !Missing(username) && !Missing(password) && IsDefaultLogin(username, password, defaults)
              && LookupKey(defaults.username) !in users
    ensures IsDefaultLogin(username, password, defaults) ==> !d.InvalidCredentials?
    ensures d.KnownUser? && IsDefaultLogin(username, password, defaults) ==>
              LookupKey(defaults.username) in users && d.user == users[LookupKey(defaults.username)]
    ensures !Missing(username) && !Missing(password) && !IsDefaultLogin(username, password, defaults) ==>
              (d.KnownUser? <==> LookupKey(username.value) in users
                                 && users[LookupKey(username.value)].password == password.value)
    ensures d.KnownUser? && !IsDefaultLogin(username, password, defaults) ==>
              d.user == users[LookupKey(username.value)]
  {
    if Missing(username) || Missing(password) then MissingCredentials
    else if username.value == defaults.username && password.value == defaults.password then
      var key := LookupKey(defaults.username);
      if key in users then KnownUser(users[key]) else ProvisionDefault
    else
      var key := LookupKey(username.value);
      if key !in users then InvalidCredentials
      else if password.value != users[key].password then InvalidCredentials
      else KnownUser(users[key])
  }

  /** The default credentials log in as the stored default account whatever password that
      account has: the stored password is never consulted on this branch. */
  lemma DefaultLoginIgnoresStoredPassword(users: map<string, UserModel.UserDoc>, defaults: DefaultUser)
    requires defaults.username != "" && defaults.password != ""
    requires LookupKey(defaults.username) in users
    ensures Decide(users, Some(defaults.username), Some(defaults.password), defaults)
            == KnownUser(users[LookupKey(defaults.username)])
  {
  }

  /** An unknown username and a wrong password cannot be told apart by the decision. */
  lemma FailuresUniform(users: map<string, UserModel.UserDoc>, u1: string, u2: string, p1: string, p2: string,
                        defaults: DefaultUser)
    requires u1 != "" && p1 != "" && !IsDefaultLogin(Some(u1), Some(p1), defaults)
    requires u2 != "" && p2 != "" && !IsDefaultLogin(Some(u2), Some(p2), defaults)
    requires LookupKey(u1) !in users
    requires LookupKey(u2) in users && users[LookupKey(u2)].password != p2
    ensures Decide(users, Some(u1), Some(p1), defaults) == Decide(users, Some(u2), Some(p2), defaults)
            == InvalidCredentials
  {
  }

  /** The stored users, keyed by username. */
  class UserCollection {
    var users: map<string, UserModel.UserDoc>

    ghost predicate Valid()
      reads this
    {
      UserModel.TableValid(users)
    }

    constructor (initial: map<string, UserModel.UserDoc>)
      requires UserModel.TableValid(initial)
      ensures Valid() && users == initial
    {
      users := initial;
    }

    /** The login handler. Only the default branch writes: when the default account does not
        exist yet it is built, validated and saved before the token is issued. */
    method Login(username: Option<string>, password: Option<string>, defaults: DefaultUser,
                 secret: string, expiresIn: string, newId: UserModel.UserId, now: int, saveFails: bool)
      returns (out: LoginResponse)
      requires Valid()
      modifies this
      ensures Valid()
      ensures Decide(old(users), username, password, defaults) != ProvisionDefault ==> users == old(users)
      ensures Decide(old(users), username, password, defaults) == MissingCredentials ==>
                out == Rejected(400, "Username and password are required")
      ensures Decide(old(users), username, password, defaults) == InvalidCredentials ==>
                out == Rejected(401, "Invalid credentials")
      ensures Decide(old(users), username, password, defaults).KnownUser? ==>
                out == Success(Decide(old(users), username, password, defaults).user, secret, expiresIn)
      ensures Decide(old(users), username, password, defaults) == ProvisionDefault ==>
                var created := UserModel.Create(newId, Some(defaults.username), Some(defaults.password), None, now);
                if created.Ok? && !UserModel.IdTaken(old(users), newId) && !saveFails then
                  && users == old(users)[created.value.username := created.value]
                  && created.value.password == defaults.password
                  && out == Success(created.value, secret, expiresIn)
                else
                  users == old(users) && out == Rejected(500, "Internal server error")
    {
      var decision := Decide(users, username, password, defaults);
      match decision
      case MissingCredentials =>
        out := Rejected(400, "Username and password are required");
      case InvalidCredentials =>
        out := Rejected(401, "Invalid credentials");
      case KnownUser(user) =>
        out := Success(user, secret, expiresIn);
      case ProvisionDefault =>
        var created := UserModel.Create(newId, Some(defaults.username), Some(defaults.password), None, now);
        if created.Err? || UserModel.IdTaken(users, newId) || saveFails {
          // validation error, duplicate `_id` or a failing write: the catch answers 500
          out := Rejected(500, "Internal server error");
        } else {
          var user := created.value;
          UserModel.InsertKeepsValid(users, user);
          users := users[user.username := user];
          out := Success(user, secret, expiresIn);
        }
    }
  }

  /** Logging in with the default credentials twice: once the first login succeeds, the default
      account is stored under its key and the second login finds it, answers for the same user
      with the same claims, and writes nothing. */
  method DefaultLoginTwice(c: UserCollection, defaults: DefaultUser, secret: string, expiresIn: string,
                           newId: UserModel.UserId, now: int, saveFails: bool)
    returns (first: LoginResponse, second: LoginResponse, ghost afterFirst: map<string, UserModel.UserDoc>)
    requires c.Valid()
    modifies c
    ensures c.Valid()
    ensures defaults.username != "" && defaults.password != "" && LookupKey(defaults.username) in old(c.users)
            ==> first.LoggedIn? && afterFirst == old(c.users)
    ensures first.LoggedIn? ==>
              && LookupKey(defaults.username) in afterFirst
              && first.user == PublicUser(afterFirst[LookupKey(defaults.username)].id,
                                          afterFirst[LookupKey(defaults.username)].username)
    ensures first.LoggedIn? ==> second == first && c.users == afterFirst
  {
    var u, p := Some(defaults.username), Some(defaults.password);
    first := c.Login(u, p, defaults, secret, expiresIn, newId, now, saveFails);
    afterFirst := c.users;
    if first.LoggedIn? {
      DefaultLoginIgnoresStoredPassword(afterFirst, defaults);
    }
    second := c.Login(u, p, defaults, secret, expiresIn, newId, now, saveFails);
  }

  /** The response to `GET /auth/me`. */
  datatype MeResponse = MeRejected(status: int, message: string) | Me(user: PublicUser)

  /** `getCurrentUser`: 401 without an identity, otherwise exactly its id and username. */
  function GetCurrentUser(caller: Option<AuthMiddleware.Identity>): (r: MeResponse)
    ensures caller.None? <==> r == MeRejected(401, "User not authenticated")
    ensures caller.Some? ==> r == Me(PublicUser(caller.value.id, caller.value.username))
  {
    match caller
    case None => MeRejected(401, "User not authenticated")
    case Some(who) => Me(PublicUser(who.id, who.username))
  }
}
