/** The login endpoint: the submitted username and password are compared
    with the configured ones; a match earns a signed session token in an
    HTTP-only cookie, a mismatch a 401, anything thrown a 500.

    Signing (HS256 through the JOSE library, with the issue time taken from
    the clock) is a parameter that may fail. */
module LoginRoute {
  import opened Wrappers
  import Auth

  /** A field read from the parsed body: absent (`undefined`), a string, or
      any other JSON value (`null`, a number, an object...), which is never
      strictly equal to a configured string or to `undefined`. */
  datatype JsonField = Missing | Text(s: string) | OtherJson

  /** The request body: not JSON at all, JSON `null` (destructuring it
      throws), or any other value, whose `username` and `password`
      properties are read (a JSON number or string has neither). */
  datatype RequestBody = Unparsable | NullBody | Fields(username: JsonField, password: JsonField)

  /** `signToken(username)`: the token, or `None` when signing throws. */
  type Signer = Option<string> -> Option<string>

  datatype Cookie = Cookie(name: string, value: string, httpOnly: bool, secure: bool,
                           sameSite: string, maxAge: int, path: string)

  datatype ResponseBody = Success | Error(message: string)

  datatype Response = Response(status: nat, body: ResponseBody, cookie: Option<Cookie>)

  /** `field === configured`, with an unset variable being `undefined`. */
  predicate SameAs(field: JsonField, configured: Option<string>) {
    match field
    case Missing => configured.None?
    case Text(s) => configured == Some(s)
    case OtherJson => false
  }

  /** The cookie that carries `token`; only `secure` depends on the
      environment. */
  function SessionCookie(token: string, nodeEnv: Option<string>): (c: Cookie)
    ensures c.name == Auth.AuthCookieName && c.value == token
    ensures c.httpOnly && c.sameSite == "lax" && c.path == "/"
    ensures c.maxAge == Auth.ExpiryTimeSeconds == 3153600000
    ensures c.secure <==> nodeEnv == Some("production")
  {
    Cookie(Auth.AuthCookieName, token, true, nodeEnv == Some("production"), "lax",
           100 * 365 * 24 * 60 * 60, "/")
  }

  /** `POST /api/auth/login`: 200 with the session cookie, 401, or 500;
      only a 200 sets a cookie. */
  function Login(body: RequestBody, validUsername: Option<string>, validPassword: Option<string>,
                 nodeEnv: Option<string>, sign: Signer): (r: Response)
    ensures r.status in {200, 401, 500}
    ensures r.cookie.Some? <==> r.status == 200
    ensures r.status == 200 <==> r.body == Success
  {
    match body
    case Unparsable => Response(500, Error("Internal server error"), None)
    case NullBody => Response(500, Error("Internal server error"), None)
    case Fields(username, password) =>
      if !SameAs(username, validUsername) || !SameAs(password, validPassword) then
        Response(401, Error("Invalid credentials"), None)
      else
        match sign(validUsername)
        case None => Response(500, Error("Internal server error"), None)
        case Some(token) => Response(200, Success, Some(SessionCookie(token, nodeEnv)))
  }

  /** The credentials of a body match the configured ones. */
  predicate CredentialsMatch(body: RequestBody, validUsername: Option<string>, validPassword: Option<string>) {
    body.Fields? && SameAs(body.username, validUsername) && SameAs(body.password, validPassword)
  }

  /** Success needs a readable body, both credentials matching and a
      token; a success always sets the cookie, and nothing else does. */
  lemma SuccessExactly(body: RequestBody, validUsername: Option<string>, validPassword: Option<string>,
                       nodeEnv: Option<string>, sign: Signer)
    ensures var r := Login(body, validUsername, validPassword, nodeEnv, sign);
            r.status == 200 <==> CredentialsMatch(body, validUsername, validPassword) && sign(validUsername).Some?
    ensures var r := Login(body, validUsername, validPassword, nodeEnv, sign);
            r.cookie.Some? <==> r.status == 200
    ensures var r := Login(body, validUsername, validPassword, nodeEnv, sign);
            r.status == 200 ==> r.body == Success && r.cookie == Some(SessionCookie(sign(validUsername).value, nodeEnv))
  {
  }

  /** A readable body with either credential different is refused with
      401, and only such a body is. */
  lemma UnauthorizedExactly(body: RequestBody, validUsername: Option<string>, validPassword: Option<string>,
                            nodeEnv: Option<string>, sign: Signer)
    ensures var r := Login(body, validUsername, validPassword, nodeEnv, sign);
            r.status == 401 <==> body.Fields? && !CredentialsMatch(body, validUsername, validPassword)
    ensures var r := Login(body, validUsername, validPassword, nodeEnv, sign);
            r.status == 401 ==> r.body == Error("Invalid credentials")
  {
  }

  /** Every other outcome is a 500: an unreadable or `null` body, or a
      signing failure after the credentials matched. */
  lemma ServerErrorOtherwise(body: RequestBody, validUsername: Option<string>, validPassword: Option<string>,
                             nodeEnv: Option<string>, sign: Signer)
    ensures var r := Login(body, validUsername, validPassword, nodeEnv, sign);
            r.status in {200, 401, 500}
    ensures var r := Login(body, validUsername, validPassword, nodeEnv, sign);
            r.status == 500 <==> !body.Fields? || (CredentialsMatch(body, validUsername, validPassword) && sign(validUsername).None?)
    ensures var r := Login(body, validUsername, validPassword, nodeEnv, sign);
            r.status == 500 ==> r.body == Error("Internal server error") && r.cookie.None?
  {
  }

  /** The token is signed for the submitted username, which on success is
      the configured one. */
  lemma TokenForSubmittedUser(user: string, password: string, validPassword: Option<string>,
                              nodeEnv: Option<string>, sign: Signer)
    requires validPassword == Some(password) && sign(Some(user)).Some?
    ensures Login(Fields(Text(user), Text(password)), Some(user), validPassword, nodeEnv, sign).cookie
            == Some(SessionCookie(sign(Some(user)).value, nodeEnv))
  {
  }

  /** Without any configured credentials, a body that sends none logs in:
      `undefined === undefined`. */
  lemma UnsetCredentialsAdmitEmptyBody(nodeEnv: Option<string>, sign: Signer)
    requires sign(None).Some?
    ensures Login(Fields(Missing, Missing), None, None, nodeEnv, sign).status == 200
  {
  }
}
