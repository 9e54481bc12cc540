/**
 * The bearer-token gate in front of every file route: take the second
 * space-separated field of the Authorization header, answer 401 when there is
 * none, 403 when the verifier rejects it, and otherwise pass the decoded
 * identity on to the next handler.
 */
module AuthMiddleware {
  import opened Wrappers
  import Text

  /** The identity attached to the request (`req.user`). */
  datatype Identity = Identity(id: string, username: string)

  /** What the middleware does: answer with an error, or call `next` once with `req.user` set. */
  datatype Decision = Reject(status: int, message: string) | Next(user: Identity)

  /** `header.split(" ")[1]`, absent when the header has no space. */
  function SecondField(header: string): Option<string> {
    var fields := Text.Split(header, ' ');
    if |fields| >= 2 then Some(fields[1]) else None
  }

  /** `authHeader && authHeader.split(" ")[1]`, with the falsy results (no header, the empty
      header, no second field, an empty second field) collapsed to None. */
  function ExtractToken(header: Option<string>): Option<string> {
    match header
    case None => None
    case Some(h) =>
      if h == "" then None
      else match SecondField(h)
        case Some(t) => if t == "" then None else Some(t)
        case None => None
  }

  /** The middleware, with token verification as an oracle that decodes a token or rejects it. */
  function Authenticate(header: Option<string>, verify: string -> Option<Identity>): (d: Decision)
    ensures ExtractToken(header).None? <==> d == Reject(401, "Access token required")
    ensures (ExtractToken(header).Some? && verify(ExtractToken(header).value).None?)
            <==> d == Reject(403, "Invalid or expired token")
    ensures d.Next? <==> ExtractToken(header).Some? && verify(ExtractToken(header).value).Some?
    ensures d.Next? ==> verify(ExtractToken(header).value) == Some(d.user)
  {
    match ExtractToken(header)
    case None => Reject(401, "Access token required")
    case Some(token) =>
      match verify(token)
      case None => Reject(403, "Invalid or expired token")
      case Some(user) => Next(user)
  }

  /** The first field of a split ends at the first separator, or is the whole string. */
  lemma SplitHead(s: string, sep: char)
    ensures sep in s ==> Text.Split(s, sep)[0] == s[..Text.IndexOf(s, sep)]
    ensures sep !in s ==> Text.Split(s, sep) == [s]
  {
  }

  /** The token field is the text after the first space, up to the next space or the end. */
  lemma SecondFieldAfterFirstSpace(h: string)
    ensures ' ' !in h ==> SecondField(h).None?
    ensures ' ' in h ==>
              var rest := h[Text.IndexOf(h, ' ') + 1..];
              SecondField(h) == Some(if ' ' in rest then rest[..Text.IndexOf(rest, ' ')] else rest)
  {
    if ' ' in h {
      var i := Text.IndexOf(h, ' ');
      var rest := h[i + 1..];
      assert Text.Split(h, ' ') == [h[..i]] + Text.Split(rest, ' ');
      SplitHead(rest, ' ');
    }
  }

  /** After a space-free scheme and one space, the token field is the text up to the next
      space, or all of it. */
  lemma SecondFieldAfterScheme(scheme: string, t: string)
    requires ' ' !in scheme
    ensures SecondField(scheme + " " + t) == Some(if ' ' in t then t[..Text.IndexOf(t, ' ')] else t)
  {
    var h := scheme + " " + t;
    assert h[|scheme|] == ' ';
    assert Text.IndexOf(h, ' ') == |scheme| by {
      assert h[..|scheme|] == scheme;
    }
    assert h[|scheme| + 1..] == t;
    SecondFieldAfterFirstSpace(h);
  }

  /** What the client sends, `"Bearer " + t`, comes back as `t` exactly when `t` is non-empty
      and has no space in it. */
  lemma BearerRoundTrip(t: string)
    ensures ExtractToken(Some("Bearer " + t)) == Some(t) <==> t != "" && ' ' !in t
  {
    var scheme := "Bearer";
    assert scheme + " " + t == "Bearer " + t;
    assert ' ' !in scheme by {
      forall i | 0 <= i < |scheme| ensures scheme[i] != ' ' { }
    }
    SecondFieldAfterScheme(scheme, t);
    if ' ' in t {
      assert |t[..Text.IndexOf(t, ' ')]| < |t|;
    }
  }

  /** The scheme word is not looked at: any first word works. */
  lemma SchemeIgnored(scheme: string, t: string)
    requires scheme != "" && ' ' !in scheme && t != "" && ' ' !in t
    ensures ExtractToken(Some(scheme + " " + t)) == Some(t)
  {
    SecondFieldAfterScheme(scheme, t);
  }

  /** An empty second field, as in "Bearer  x", is a missing token. */
  lemma DoubleSpaceIsMissing(scheme: string, rest: string)
    requires ' ' !in scheme
    ensures ExtractToken(Some(scheme + "  " + rest)) == None
  {
    var t := " " + rest;
    assert scheme + "  " + rest == scheme + " " + t;
    assert t[0] == ' ' && Text.IndexOf(t, ' ') == 0;
    SecondFieldAfterScheme(scheme, t);
  }

  /** When there is no token the verifier plays no part: any two verifiers give the same 401. */
  lemma MissingTokenNotVerified(header: Option<string>, v1: string -> Option<Identity>, v2: string -> Option<Identity>)
    requires ExtractToken(header).None?
    ensures Authenticate(header, v1) == Authenticate(header, v2) == Reject(401, "Access token required")
  {
  }
}
