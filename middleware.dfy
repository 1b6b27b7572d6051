/** The request gate in front of the pages: `/dashboard...` needs a session
    token that verifies, and `/` is sent to the dashboard or to the login
    page depending on the token.

    Verifying a token (HS256 through the JOSE library) is a parameter: a
    predicate over the token and the secret it is checked against. */
module Middleware {
  import opened Wrappers
  import opened JsString

  /** What the gate answers: let the request through, or redirect it,
      deleting the session cookie on the way or not. */
  datatype Decision = Next | Redirect(location: string, deleteAuthCookie: bool)

  /** `jwtVerify(token, secret)` completing without throwing. */
  type Verifier = (string, string) -> bool

  const DashboardPrefix: string := "/dashboard"
  const LoginPage: string := "/login"
  const DefaultSecret: string := "default-secret"

  /** `process.env.JWT_SECRET || "default-secret"`: an unset or empty
      variable falls back to the default. */
  function Secret(jwtSecretEnv: Option<string>): (secret: string)
    ensures secret != ""
    ensures jwtSecretEnv.Some? && jwtSecretEnv.value != "" ==> secret == jwtSecretEnv.value
    ensures !(jwtSecretEnv.Some? && jwtSecretEnv.value != "") ==> secret == DefaultSecret
  {
    match jwtSecretEnv
    case Some(s) => if s != "" then s else DefaultSecret
    case None => DefaultSecret
  }

  /** `!token` is false: the cookie is present and its value is not empty. */
  predicate HasToken(cookie: Option<string>) {
    cookie.Some? && cookie.value != ""
  }

  /** A token is present and verifies against the configured secret. */
  predicate Authenticated(cookie: Option<string>, jwtSecretEnv: Option<string>, verify: Verifier) {
    HasToken(cookie) && verify(cookie.value, Secret(jwtSecretEnv))
  }

  /** A path the gate protects: any path with the `/dashboard` prefix. */
  predicate Protected(pathname: string) {
    StartsWith(pathname, DashboardPrefix)
  }

  /** `middleware(request)`; `cookie` is the value of the `auth-token`
      cookie, if the request has one. Redirects go to the login page or to
      the dashboard, and only one to the login page deletes the cookie. */
  function Decide(pathname: string, cookie: Option<string>, jwtSecretEnv: Option<string>, verify: Verifier): (d: Decision)
    ensures d.Redirect? ==> d.location == LoginPage || d.location == DashboardPrefix
    ensures d.Redirect? && d.deleteAuthCookie ==> d.location == LoginPage
    ensures d.Redirect? && d.location == DashboardPrefix ==> Authenticated(cookie, jwtSecretEnv, verify)
  {
    if Protected(pathname) then
      if !HasToken(cookie) then Redirect(LoginPage, false)
      else if verify(cookie.value, Secret(jwtSecretEnv)) then Next
      else Redirect(LoginPage, true)
    else if pathname == "/" then
      if HasToken(cookie) && verify(cookie.value, Secret(jwtSecretEnv)) then Redirect(DashboardPrefix, false)
      else Redirect(LoginPage, false)
    else Next
  }

  /** A protected page is served exactly when a token is present and
      verifies; otherwise the request is sent to the login page. */
  lemma ProtectedNeedsValidToken(pathname: string, cookie: Option<string>, jwtSecretEnv: Option<string>, verify: Verifier)
    requires Protected(pathname)
    ensures Decide(pathname, cookie, jwtSecretEnv, verify) == Next <==> Authenticated(cookie, jwtSecretEnv, verify)
    ensures !Authenticated(cookie, jwtSecretEnv, verify) ==>
              Decide(pathname, cookie, jwtSecretEnv, verify).Redirect? &&
              Decide(pathname, cookie, jwtSecretEnv, verify).location == LoginPage
  {
  }

  /** The session cookie is deleted exactly when a protected page is
      requested with a token present that fails verification; a missing
      token deletes nothing. */
  lemma CookieDeletedOnlyForRejectedToken(pathname: string, cookie: Option<string>, jwtSecretEnv: Option<string>, verify: Verifier)
    ensures Decide(pathname, cookie, jwtSecretEnv, verify).Redirect? && Decide(pathname, cookie, jwtSecretEnv, verify).deleteAuthCookie
            <==> Protected(pathname) && HasToken(cookie) && !verify(cookie.value, Secret(jwtSecretEnv))
  {
  }

  /** The root always redirects, never deletes the cookie, and goes to the
      dashboard exactly when the token verifies. */
  lemma RootRedirects(cookie: Option<string>, jwtSecretEnv: Option<string>, verify: Verifier)
    ensures Decide("/", cookie, jwtSecretEnv, verify).Redirect?
    ensures !Decide("/", cookie, jwtSecretEnv, verify).deleteAuthCookie
    ensures Decide("/", cookie, jwtSecretEnv, verify).location ==
              (if Authenticated(cookie, jwtSecretEnv, verify) then DashboardPrefix else LoginPage)
  {
    assert !Protected("/");
  }

  /** Every other path passes through, whatever the cookie. */
  lemma OtherPathsPass(pathname: string, cookie: Option<string>, jwtSecretEnv: Option<string>, verify: Verifier)
    requires !Protected(pathname) && pathname != "/"
    ensures Decide(pathname, cookie, jwtSecretEnv, verify) == Next
  {
  }

  /** The prefix test is not a path-segment test: `/dashboardX` is
      protected as well. */
  lemma PrefixAlsoGuardsSiblings(suffix: string, cookie: Option<string>, jwtSecretEnv: Option<string>, verify: Verifier)
    requires !HasToken(cookie)
    ensures Decide(DashboardPrefix + suffix, cookie, jwtSecretEnv, verify) == Redirect(LoginPage, false)
  {
    assert (DashboardPrefix + suffix)[..|DashboardPrefix|] == DashboardPrefix;
  }

  /** Following any redirect with the cookie it leaves behind ends in a
      page that is served: the gate never loops. */
  lemma RedirectsSettle(pathname: string, cookie: Option<string>, jwtSecretEnv: Option<string>, verify: Verifier)
    requires Decide(pathname, cookie, jwtSecretEnv, verify).Redirect?
    ensures var d := Decide(pathname, cookie, jwtSecretEnv, verify);
            var cookieAfter := if d.deleteAuthCookie then None else cookie;
            Decide(d.location, cookieAfter, jwtSecretEnv, verify) == Next
  {
    var d := Decide(pathname, cookie, jwtSecretEnv, verify);
    assert !Protected(LoginPage) by { assert |LoginPage| < |DashboardPrefix|; }
    assert Protected(DashboardPrefix) by { assert DashboardPrefix[..|DashboardPrefix|] == DashboardPrefix; }
    if d.location == DashboardPrefix {
      assert pathname == "/" && Authenticated(cookie, jwtSecretEnv, verify);
    }
  }

  /** The paths the framework hands to the gate: `/` and `/dashboard`
      with any sub-path. */
  predicate MatcherAdmits(pathname: string) {
    pathname == "/" || pathname == DashboardPrefix || StartsWith(pathname, DashboardPrefix + "/")
  }

  /** Every admitted path is the root or protected, so an admitted request
      is always either redirected or served with a verified token. */
  lemma AdmittedPathsAreGated(pathname: string, cookie: Option<string>, jwtSecretEnv: Option<string>, verify: Verifier)
    requires MatcherAdmits(pathname)
    ensures Decide(pathname, cookie, jwtSecretEnv, verify) == Next ==> Authenticated(cookie, jwtSecretEnv, verify)
  {
    if pathname != "/" {
      assert pathname[..|DashboardPrefix|] == DashboardPrefix by {
        if pathname != DashboardPrefix {
          assert pathname[..|DashboardPrefix|] == (DashboardPrefix + "/")[..|DashboardPrefix|];
        }
      }
      assert Protected(pathname);
    }
  }
}
