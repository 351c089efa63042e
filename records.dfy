/** The rows of the credential store (the records of app/types.ts) and the
    request and response shapes that the route actions share. */
module Records {

  datatype Option<+T> = None | Some(value: T)

  /** A byte, as produced by the random source. */
  newtype byte = x: int | 0 <= x < 256

  /** A row of `users`. The nullable columns are options; the expiry is kept
      as milliseconds since the epoch. */
  datatype User = User(
    id: int,
    email: string,
    username: string,
    passwordHash: Option<string>,
    resetPasswordToken: Option<string>,
    resetPasswordExpires: Option<int>)

  /** A row of `license_keys`. */
  datatype LicenseKey = LicenseKey(id: int, userId: int, licenseKey: string, isActive: bool, createdAt: string)

  /** A row of `api_keys`. */
  datatype ApiKey = ApiKey(id: int, apiKey: string, description: Option<string>, isActive: bool, createdAt: string)

  /** What `FormData.get(name)` yields: no entry, a text entry or a file entry. */
  datatype FormValue = Absent | Text(s: string) | File

  /** `a === b` on two form entries. Two file entries are two distinct objects. */
  predicate SameEntry(a: FormValue, b: FormValue) {
    match (a, b)
    case (Absent, Absent) => true
    case (Text(x), Text(y)) => x == y
    case _ => false
  }

  /** A value held under a key of the cookie session. */
  datatype SessionValue = Num(n: int) | Str(s: string) | OtherValue

  /** The decoded payload of the session cookie (empty when the cookie is
      absent or its signature does not check). */
  type SessionData = map<string, SessionValue>

  /** The `Set-Cookie` header of a response: the committed session, or a
      header that expires the cookie. */
  datatype SetCookie = Committed(data: SessionData) | Expired

  /** The session the browser presents on its next request after it has
      received `h`. */
  function NextCookie(h: SetCookie): SessionData {
    match h
    case Committed(d) => d
    case Expired => map[]
  }

  /** A redirect response (302) and the cookie it sets, if any. */
  datatype Redirect = Redirect(location: string, setCookie: Option<SetCookie>)

  /** What a form action returns: a redirect, or a JSON body `{ errors }`
      with a status code. */
  datatype FormOutcome = Redirected(redirect: Redirect) | Rejected(status: int, errors: map<string, string>)

  /** `s.length` in JavaScript: the number of UTF-16 code units, one for a
      character of the Basic Multilingual Plane and two (a surrogate pair)
      for any other. */
  function Utf16Length(s: string): (n: nat)
    ensures |s| <= n <= 2 * |s|
    ensures n == 0 <==> |s| == 0
    ensures n == |s| <==> forall i :: 0 <= i < |s| ==> s[i] as int < 0x1_0000
  {
    if |s| == 0 then 0
    else (if s[0] as int < 0x1_0000 then 1 else 2) + Utf16Length(s[1..])
  }

  // Status codes of section 15 of RFC 9110.
  const OK := 200                    // section 15.3.1
  const BadRequest := 400            // section 15.5.1
  const Unauthorized := 401          // section 15.5.2
  const Forbidden := 403             // section 15.5.4
  const NotFound := 404              // section 15.5.5
  const InternalServerError := 500   // section 15.6.1
}
