/** The session helpers and reset-token helpers of app/utils/auth.server.ts.
    The cookie session is its decoded key/value payload; bcrypt and SHA-256
    are function parameters of the flows that use them; the random bytes of
    a reset token are an input. */
module AuthServer {
  import opened Records
  import Hex
  import FormUrlEncoding

  /** The identity `getUserFromSession` returns. */
  datatype SessionUser = SessionUser(id: int, username: string, email: string)

  /** The session object of the cookie-session storage. */
  class Session {
    var data: SessionData

    /** `getSession(cookie)`: the session read from the request's cookie. */
    constructor (cookie: SessionData)
      ensures data == cookie
    {
      data := cookie;
    }

    /** `session.set(key, value)`. */
    method Set(key: string, value: SessionValue)
      modifies this
      ensures data == old(data)[key := value]
    {
      data := data[key := value];
    }

    /** `commitSession(session)`: the header that stores this session. */
    function Commit(): (h: SetCookie)
      reads this
      ensures NextCookie(h) == data
    {
      Committed(data)
    }

    /** `destroySession(session)`: a header that expires the cookie, so the
        next request carries no payload. The session object is not used
        again. */
    method Destroy() returns (h: SetCookie)
      modifies this
      ensures data == map[]
      ensures h == Expired
    {
      data := map[];
      h := Expired;
    }
  }

  /** The payload `createUserSession` stores. */
  function UserSessionData(userId: int, username: string): (d: SessionData)
    ensures d.Keys == {"userId", "username"}
    ensures GetUserFromSession(d) == if userId != 0 && username != "" then Some(SessionUser(userId, username, "")) else None
  {
    map["userId" := Num(userId), "username" := Str(username)]
  }

  /** `createUserSession`: a fresh session holding exactly the user's id and
      name, committed on a redirect to `redirectTo`. */
  method CreateUserSession(userId: int, username: string, redirectTo: string) returns (r: Redirect)
    ensures r.location == redirectTo
    ensures r.setCookie == Some(Committed(UserSessionData(userId, username)))
    ensures NextCookie(r.setCookie.value).Keys == {"userId", "username"}
    ensures GetUserFromSession(NextCookie(r.setCookie.value))
         == if userId != 0 && username != "" then Some(SessionUser(userId, username, "")) else None
  {
    var session := new Session(map[]);
    session.Set("userId", Num(userId));
    session.Set("username", Str(username));
    r := Redirect(redirectTo, Some(session.Commit()));
  }

  /** `getUserFromSession`: the user named by the session, when `userId` is a
      non-zero number and `username` a non-empty string. */
  function GetUserFromSession(cookie: SessionData): (r: Option<SessionUser>)
    ensures r.Some? ==> r.value.id != 0 && r.value.username != "" && r.value.email == ""
    ensures r.Some? ==> "userId" in cookie && cookie["userId"] == Num(r.value.id)
    ensures r.Some? ==> "username" in cookie && cookie["username"] == Str(r.value.username)
    ensures r.None? ==> !("userId" in cookie && cookie["userId"].Num? && cookie["userId"].n != 0 &&
                          "username" in cookie && cookie["username"].Str? && cookie["username"].s != "")
  {
    var userId := if "userId" in cookie then cookie["userId"] else OtherValue;
    var username := if "username" in cookie then cookie["username"] else OtherValue;
    if !userId.Num? || userId.n == 0 || !username.Str? || username.s == "" then None
    else Some(SessionUser(userId.n, username.s, ""))
  }

  const LoginPath := "/login"
  const RedirectToQuery := "?redirectTo="

  /** The outcome of `requireUser`: the user, or the redirect it throws. */
  datatype Guard = Allowed(user: SessionUser) | Denied(redirect: Redirect)

  /** `requireUser(request, redirectTo)`. The caller passes the request's
      pathname when it gives no `redirectTo`. */
  function RequireUser(cookie: SessionData, redirectTo: string): (g: Guard)
    ensures g.Allowed? <==> GetUserFromSession(cookie).Some?
    ensures g.Allowed? ==> GetUserFromSession(cookie) == Some(g.user)
    ensures g.Denied? ==> g.redirect.setCookie == None
    ensures g.Denied? ==> g.redirect.location == LoginPath + RedirectToQuery + FormUrlEncoding.Encode(redirectTo)
    ensures g.Denied? ==> FormUrlEncoding.DecodeBytes(g.redirect.location[|LoginPath + RedirectToQuery|..])
                          == Some(FormUrlEncoding.Utf8String(redirectTo))
    ensures g.Denied? ==> FormUrlEncoding.DecodeValue(g.redirect.location[|LoginPath + RedirectToQuery|..]) == Some(redirectTo)
  {
    match GetUserFromSession(cookie)
    case Some(user) => Allowed(user)
    case None =>
      var location := LoginPath + RedirectToQuery + FormUrlEncoding.Encode(redirectTo);
      FormUrlEncoding.DecodeEncode(redirectTo);
      FormUrlEncoding.ValueRoundTrip(redirectTo);
      assert location[|LoginPath + RedirectToQuery|..] == FormUrlEncoding.Encode(redirectTo);
      Denied(Redirect(location, None))
  }

  /** `logout`: the request's session is destroyed and the response
      redirects to the login page; the browser then presents no user. */
  method Logout(cookie: SessionData) returns (r: Redirect)
    ensures r.location == LoginPath
    ensures r.setCookie == Some(Expired)
    ensures GetUserFromSession(NextCookie(r.setCookie.value)) == None
  {
    var session := new Session(cookie);
    var header := session.Destroy();
    r := Redirect(LoginPath, Some(header));
  }

  /** `crypto.randomBytes(32)`. */
  const ResetTokenBytes := 32

  datatype ResetToken = ResetToken(token: string, hashedToken: string)

  /** `hashResetToken`: the hex SHA-256 digest of the token. */
  function HashResetToken(sha256Hex: string -> string, token: string): string {
    sha256Hex(token)
  }

  /** `generateResetToken`, given the 32 random bytes: the token is their
      lower-case hex text (64 characters, and it decodes back to them), and
      the hashed token is `hashResetToken` of it. */
  function GenerateResetToken(random: seq<byte>, sha256Hex: string -> string): (t: ResetToken)
    requires |random| == ResetTokenBytes
    ensures |t.token| == 64
    ensures forall i :: 0 <= i < |t.token| ==> t.token[i] in Hex.LowerDigits
    ensures Hex.Decode(t.token) == Some(random)
    ensures t.hashedToken == HashResetToken(sha256Hex, t.token)
  {
    var token := Hex.Encode(random);
    Hex.DecodeEncode(random);
    ResetToken(token, HashResetToken(sha256Hex, token))
  }
}
