/** The constants of the session-token helper. Signing and verifying a
    token (HS256 through the JOSE library) are not modelled: the routes that
    use them receive them as parameters. */
module Auth {

  /** Name of the cookie that carries the session token. */
  const AuthCookieName: string := "auth-token"

  /** Lifetime written into every token: one hundred 365-day years, in
      seconds. */
  const ExpiryTimeSeconds: int := 100 * 365 * 24 * 60 * 60
}
