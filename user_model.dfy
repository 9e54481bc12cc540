/**
 * The User schema: a trimmed, unique username of 3 to 30 characters, an
 * untrimmed password of at least 6 characters, and a creation-time default.
 * Lengths are JavaScript lengths (UTF-16 code units).
 */
module UserModel {
  import opened Wrappers
  import Text

  type UserId = string

  datatype UserDoc = UserDoc(id: UserId, username: string, password: string, createdAt: int)

  /** The paths whose validators can fail. */
  datatype Field = Username | Password

  /** `required`, `minlength: 3` and `maxlength: 30`, applied to the trimmed value. */
  predicate UsernameAcceptable(u: string) {
    u != "" && 3 <= Text.Utf16Length(u) <= 30
  }

  /** `required` and `minlength: 6`; the password is not trimmed. */
  predicate PasswordAcceptable(p: string) {
    p != "" && Text.Utf16Length(p) >= 6
  }

  /** What validation guarantees about a stored user. */
  predicate WellFormed(u: UserDoc) {
    Text.Trim(u.username) == u.username && UsernameAcceptable(u.username) && PasswordAcceptable(u.password)
  }

  /** Constructing and validating a user document: the username is trimmed, `createdAt`
      defaults to `now`, and the document is accepted exactly when both fields pass. */
  function Create(id: UserId, username: Option<string>, password: Option<string>,
                  createdAt: Option<int>, now: int): (r: Result<UserDoc, set<Field>>)
    ensures r.Ok? <==>
              && username.Some? && UsernameAcceptable(Text.Trim(username.value))
              && password.Some? && PasswordAcceptable(password.value)
    ensures r.Err? ==> r.error != {}
    ensures r.Err? ==> (Username in r.error <==> username.None? || !UsernameAcceptable(Text.Trim(username.value)))
    ensures r.Err? ==> (Password in r.error <==> password.None? || !PasswordAcceptable(password.value))
    ensures r.Ok? ==>
              && r.value.id == id
              && r.value.username == Text.Trim(username.value)
              && r.value.password == password.value
              && r.value.createdAt == (if createdAt.Some? then createdAt.value else now)
    ensures r.Ok? ==> WellFormed(r.value)
  {
    var userOk := username.Some? && UsernameAcceptable(Text.Trim(username.value));
    var passOk := password.Some? && PasswordAcceptable(password.value);
    if !userOk || !passOk then
      Err((if userOk then {} else {Username}) + (if passOk then {} else {Password}))
    else
      Text.TrimIdempotent(username.value);
      Ok(UserDoc(id, Text.Trim(username.value), password.value, createdAt.GetOr(now)))
  }

  /** The user collection, keyed by username: the key is the stored (trimmed) username, so the
      unique index on username holds by construction, and `_id`s are distinct. */
  predicate TableValid(users: map<string, UserDoc>) {
    && (forall k :: k in users ==> users[k].username == k && WellFormed(users[k]))
    && (forall a, b :: a in users && b in users && a != b ==> users[a].id != users[b].id)
  }

  /** Whether some stored user already has this `_id`. */
  predicate IdTaken(users: map<string, UserDoc>, id: UserId) {
    exists k :: k in users && users[k].id == id
  }

  /** No two stored users share a username. */
  lemma UsernamesUnique(users: map<string, UserDoc>, a: string, b: string)
    requires TableValid(users) && a in users && b in users && a != b
    ensures users[a].username != users[b].username
  {
  }

  /** Inserting a validated user under its own username, with a fresh username and a fresh
      `_id`, keeps the collection valid. */
  lemma InsertKeepsValid(users: map<string, UserDoc>, u: UserDoc)
    requires TableValid(users) && WellFormed(u)
    requires u.username !in users && !IdTaken(users, u.id)
    ensures TableValid(users[u.username := u])
  {
  }

  /** A username of 3 to 15 characters with no whitespace at either end and a password of at
      least 6 characters are accepted as given. */
  lemma PlainCredentialsAccepted(id: UserId, u: string, p: string, now: int)
    requires 3 <= |u| <= 15 && !Text.IsJsWhitespace(u[0]) && !Text.IsJsWhitespace(u[|u| - 1])
    requires |p| >= 6
    ensures Create(id, Some(u), Some(p), None, now).Ok?
    ensures Create(id, Some(u), Some(p), None, now).value.username == u
  {
    assert Text.TrimStart(u) == u;
    assert Text.Trim(u) == u;
  }

  /** The built-in account "admin" / "admin123" passes validation. */
  lemma DefaultAccountValid(id: UserId, now: int)
    ensures Create(id, Some("admin"), Some("admin123"), None, now).Ok?
  {
    PlainCredentialsAccepted(id, "admin", "admin123", now);
  }
}
