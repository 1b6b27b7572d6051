# Authenticator dashboard — a Dafny model

The system is a small Next.js dashboard. It shows the current six-digit
time-based one-time passcodes of Google accounts configured through
environment variables, and it records which of each account's backup codes
have been used. A login form guards it. This project models its logic:

- **Account registry** (`GmailData`). It scans the environment for
  `GMAIL<digits>_USERNAME` keys and pairs each with `GMAIL<digits>_AUTHENTICATOR`
  and `GMAIL<digits>_BACKUP_CODES`. It drops accounts without an address or a
  secret, and parses the comma-separated backup codes. Accounts are collected
  into a list by a loop over the keys, copied into an array, and the array is
  then sorted by email in place.
- **Passcode card** (`OtpCard`). Covers the countdown `30 - now % 30`, the
  "expiring" flag, the `------` fallback when the TOTP library throws, and the
  `123 456` display split. The card itself is a class whose effect performs
  one update, registers one interval and clears exactly that interval on
  cleanup.
- **Backup-code dialog** (`BackupModal`). A class holding the used-position
  set and the saving flag. A click toggles a position on a copy of the set and
  posts it. When the dialog opens, the set is loaded from the store.
- **Used-codes store** (`UsedCodesRoute`). The file is a map from address to
  positions. `GET` falls back to `{}`. `POST` reads, replaces one entry and
  writes. The GitHub copy is refreshed only when a token is set, and its
  failures are swallowed.
- **Route gate** (`Middleware`). The decision for `/dashboard...` and `/`,
  based on the session cookie and on whether the token verifies.
- **Login** (`LoginRoute`). The credential comparison, the 401 / 500 / 200
  responses and the attributes of the session cookie.

Supporting modules:

- `JsString` models the JavaScript string built-ins the code uses:
  `startsWith`, `split` on one character, `trim` with ECMAScript's whitespace
  set, and `toUpperCase`. Its `Join` is a helper the code never calls; it is
  the inverse that the round-trip lemmas of `split` are stated against.
- `Auth` holds two of the constants of `lib/auth.ts`: the cookie name and the
  token lifetime. The `JWT_SECRET` fallback is modelled in `Middleware.Secret`.
- `Wrappers` holds `Option`.

The model treats these as parameters:

- The TOTP library is a function from upper-cased secret and clock reading
  to a code, or `None` when it throws.
- JWT verification is a predicate over token and secret.
- JWT signing is a function that may fail.
- File reads are an optional map. Whether a write succeeds, and whether a
  GitHub PUT is accepted, are booleans.
- The clock is a number of milliseconds.

Environment variables are given as a `map<string, string>`. The order in
which `Object.keys` lists them is a sequence of keys.

Some behaviour follows the code rather than intuition, and the model keeps
it:

- `/dashboardX` is gated as well, because the test is a plain prefix test.
- Comparison is strict equality on possibly `undefined` values. So when
  neither `USERNAME` nor `PASSWORD` is configured, a login body carrying
  neither field succeeds.
- A `POST` without `usedIndexes` removes the entry from the written file,
  because `JSON.stringify` drops `undefined`.
- A `POST` without `email` is stored under the key `"undefined"`.
- Backup-code marks are per position, not per code string.

## Model

| member | source | states |
|---|---|---|
| JsString.Split | lib/gmail-data.ts:20 | `split(",")` yields at least one piece and no piece contains the separator |
| JsString.JoinSplit | lib/gmail-data.ts:20 | joining the pieces of a split restores the string |
| JsString.SplitJoin | lib/gmail-data.ts:20 | splitting a join of separator-free pieces restores the pieces |
| JsString.Trim | lib/gmail-data.ts:20 | `trim()` returns a substring with no whitespace at either end and only whitespace around it |
| JsString.TrimTrimmed | lib/gmail-data.ts:20 | trimming leaves a trimmed string unchanged |
| JsString.ToUpper | app/dashboard/components/otp-card.tsx:27 | `toUpperCase()` keeps the length and upper-cases character by character |
| JsString.ToUpperIgnoresCase | app/dashboard/components/otp-card.tsx:27 | two strings upper-case to the same string iff they differ only in letter case |
| JsString.ToUpperIdempotent | app/dashboard/components/otp-card.tsx:27 | upper-casing twice equals upper-casing once |
| GmailData.MatchUsernameKey | lib/gmail-data.ts:9-11 | a matched key is exactly `GMAIL` + captured digits + `_USERNAME` and the capture is all digits |
| GmailData.MatchUsernameKeyComplete | lib/gmail-data.ts:9-11 | every `GMAIL<digits>_USERNAME` key matches and captures its digits |
| GmailData.NearMissesDoNotMatch | lib/gmail-data.ts:9-10 | `GMAIL_USERNAME`, `GMAIL1_USERNAMEX`, `GMAILX_USERNAME`, `GMAIL1_AUTHENTICATOR` start no account |
| GmailData.AuthenticatorKeyNeverMatches | lib/gmail-data.ts:9 | no `_AUTHENTICATOR` key starts an account |
| GmailData.KeyNamesAreInjective | lib/gmail-data.ts:11-14 | different digit strings (`1` and `01` included) give different username, authenticator and backup-code names, so they are separate accounts |
| GmailData.TrimAll | lib/gmail-data.ts:20 | `map(c => c.trim())` trims every piece in place |
| GmailData.DropEmpty | lib/gmail-data.ts:20 | `filter(Boolean)` keeps exactly the non-empty pieces: none is empty, and each non-empty string occurs as often as in the input |
| GmailData.DropEmptyAppend | lib/gmail-data.ts:20 | filtering a concatenation is the concatenation of the filtered parts, so the kept pieces stay in input order |
| GmailData.NonEmptyPiecesKept | lib/gmail-data.ts:20 | every non-empty piece survives the filter |
| GmailData.ParseBackupCodes | lib/gmail-data.ts:14-20 | every backup code is non-empty, trimmed and comma-free; every comma piece that is not blank appears trimmed among the codes, as often as it occurs |
| GmailData.BlankValueGivesNoCodes | lib/gmail-data.ts:14-20 | an absent, empty or blank value (commas and spaces only) gives no codes |
| GmailData.ParseJoinedCodes | lib/gmail-data.ts:20 | parsing the comma-join of trimmed, non-empty, comma-free codes gives them back |
| GmailData.AccountFor | lib/gmail-data.ts:11-21 | an account exists iff address and secret for digits n are both non-empty; its address, secret and codes all come from keys with that same n |
| GmailData.Contribution | lib/gmail-data.ts:9-22 | one key contributes at most one account, exactly the one it emits: it matches the pattern and address and secret are non-empty |
| GmailData.Collected | lib/gmail-data.ts:8-24 | the list the `forEach`-and-`push` loop builds in key order; its contents are stated by `CollectedMembership` and `CollectedBound` |
| GmailData.CollectedBound | lib/gmail-data.ts:8-24 | at most one account per matching `_USERNAME` key |
| GmailData.CollectWithMembership | lib/gmail-data.ts:8-24 | the `forEach`-and-`push` collection contains exactly what some key contributes |
| GmailData.CollectedMembership | lib/gmail-data.ts:8-24 | an account is collected iff some key in the scan emits it |
| GmailData.CompleteAccountsCollected | lib/gmail-data.ts:12-22 | every complete account whose username key is in the environment is collected |
| GmailData.GapIsExcluded | lib/gmail-data.ts:12-16 | an address whose secret is missing contributes nothing, while the others are kept |
| GmailData.NothingMerged | lib/gmail-data.ts:8-24 | two complete accounts are both kept, in scan order, even when equal |
| GmailData.LexLeTotal | lib/gmail-data.ts:27 | the email order is total |
| GmailData.LexLeTransitive | lib/gmail-data.ts:27 | the email order is transitive |
| GmailData.LexLeAntisymmetric | lib/gmail-data.ts:27 | the email order is antisymmetric |
| GmailData.EmailOrderedPairwise | lib/gmail-data.ts:27 | an adjacent-sorted sequence is sorted for every pair of positions |
| GmailData.SortByEmail | lib/gmail-data.ts:27 | the in-place sort leaves the array ordered by email and a permutation of what it held |
| GmailData.ParseGmailData | lib/gmail-data.ts:3-28 | the result is a fresh array, a permutation of the collected accounts, ordered by email, and it holds every complete account of the environment |
| GmailData.SortedPairIsDetermined | lib/gmail-data.ts:27 | two accounts with different addresses come out in email order whatever the scan order |
| OtpCard.NowSeconds | app/dashboard/components/otp-card.tsx:37 | `now` is the whole-second floor of the millisecond clock |
| OtpCard.JsRem | app/dashboard/components/otp-card.tsx:38 | JavaScript `%` equals the mathematical remainder for non-negative operands; for negative ones it is the negated remainder of the absolute value, in -29..0 |
| OtpCard.SecondsRemaining | app/dashboard/components/otp-card.tsx:38 | the countdown always lands on a 30-second boundary; it lies in 1..30 from the epoch on and in 30..59 before it |
| OtpCard.RemainingInPeriod | app/dashboard/components/otp-card.tsx:38 | for `now >= 0` the countdown is 30 iff `now` is a period boundary |
| OtpCard.RemainingCountsDown | app/dashboard/components/otp-card.tsx:38 | one second later the countdown is one less, or back to 30 at a step boundary |
| OtpCard.RemainingReachesBoundary | app/dashboard/components/otp-card.tsx:38 | from the epoch on, no period boundary lies strictly before the countdown runs out |
| OtpCard.IsExpiring | app/dashboard/components/otp-card.tsx:59 | `timeRemaining <= 5`; its meaning over the clock is stated by `ExpiringWindow` |
| OtpCard.ExpiringWindow | app/dashboard/components/otp-card.tsx:59 | the card is expiring exactly in the last five seconds of a step |
| OtpCard.GenerateOtp | app/dashboard/components/otp-card.tsx:19-33 | the code is the library's code for the upper-cased secret, or `------` when the library throws |
| OtpCard.GenerateOtpPlaceholderIffThrows | app/dashboard/components/otp-card.tsx:19-33 | if the library only produces six-digit codes, `------` is shown exactly when it throws |
| OtpCard.GenerateOtpIgnoresCase | app/dashboard/components/otp-card.tsx:27 | secrets differing only in letter case give the same code |
| OtpCard.GenerateOtpUpperCased | app/dashboard/components/otp-card.tsx:27 | upper-casing the secret beforehand changes nothing |
| OtpCard.CodeConstantWithinStep | app/dashboard/components/otp-card.tsx:21-29 | under the library's 30-second step hypothesis, two clock readings in one step give the same code |
| OtpCard.Display | app/dashboard/components/otp-card.tsx:103 | the display is the code with one space inserted after the third character (or at the end of a shorter code), and removing it gives the code back |
| OtpCard.DisplayExamples | app/dashboard/components/otp-card.tsx:103 | `123456` shows as `123 456`, `------` as `--- ---`, the empty code as a single space |
| OtpCard.Card.constructor | app/dashboard/components/otp-card.tsx:14-15 | before any update the code is empty, the countdown is 30 and no interval exists |
| OtpCard.Card.UpdateOtp | app/dashboard/components/otp-card.tsx:36-41 | one update sets the countdown from the clock and the code from the library |
| OtpCard.Card.RunEffect | app/dashboard/components/otp-card.tsx:35-46 | the effect updates once and then registers exactly one new interval, which it holds |
| OtpCard.Card.Fire | app/dashboard/components/otp-card.tsx:44 | a tick of a live interval updates the card; a tick of a cleared one changes nothing |
| OtpCard.Card.Cleanup | app/dashboard/components/otp-card.tsx:45 | cleanup clears the interval the effect registered, leaving none live |
| OtpCard.Card.ChangeAccount | app/dashboard/components/otp-card.tsx:33-46 | a new address or secret clears the old interval and runs the effect again: code and countdown refreshed, exactly one new interval live |
| OtpCard.MountThenUnmount | app/dashboard/components/otp-card.tsx:35-46 | a code is shown at mount, and a stray tick after unmount changes nothing |
| BackupModal.Add | app/dashboard/components/backup-modal.tsx:51 | `add` keeps the set duplicate-free and adds exactly the index |
| BackupModal.Delete | app/dashboard/components/backup-modal.tsx:49 | `delete` keeps the set duplicate-free and removes exactly the index |
| BackupModal.FromArray | app/dashboard/components/backup-modal.tsx:29 | `new Set(list)` is duplicate-free with exactly the list's elements |
| BackupModal.Toggle | app/dashboard/components/backup-modal.tsx:47-52 | a toggle keeps the set duplicate-free, flips the membership of the index and leaves every other index unchanged |
| BackupModal.ToggleTwiceUnused | app/dashboard/components/backup-modal.tsx:47-52 | marking then unmarking restores the set exactly |
| BackupModal.ToggleTwiceUsed | app/dashboard/components/backup-modal.tsx:47-52 | unmarking then marking restores the same elements, with the index moved last |
| BackupModal.FromArrayOfSet | app/dashboard/components/backup-modal.tsx:29 | a duplicate-free list passes through `new Set` unchanged |
| BackupModal.UsedFlags | app/dashboard/components/backup-modal.tsx:116-117 | one used flag per code shown, set exactly when its position is in the set |
| BackupModal.ToggleFlipsOneFlag | app/dashboard/components/backup-modal.tsx:116-117 | a toggle flips the flag of the clicked position only, so marks are per position |
| BackupModal.Modal.constructor | app/dashboard/components/backup-modal.tsx:18-20 | a new dialog has nothing marked and is not saving |
| BackupModal.Modal.Flags | app/dashboard/components/backup-modal.tsx:116-117 | one mark per backup code shown, set exactly when its position is in the used set |
| BackupModal.Modal.SetOpen | app/dashboard/components/backup-modal.tsx:15 | the parent's prop opens or closes the dialog |
| BackupModal.Modal.StartLoad | app/dashboard/components/backup-modal.tsx:23-25 | the load effect sends one request when the dialog is open and none when it is closed |
| BackupModal.Modal.LoadUsedCodes | app/dashboard/components/backup-modal.tsx:26-32 | a settled request with an entry for the dialog's address replaces the set with that list made a set, whether or not the dialog is still open; otherwise the set is unchanged |
| BackupModal.CloseBeforeLoadSettles | app/dashboard/components/backup-modal.tsx:23-34 | a dialog closed before its load settles still takes the stored marks, since nothing cancels the request |
| BackupModal.Modal.ToggleUsed | app/dashboard/components/backup-modal.tsx:46-64 | the new set is the toggled copy, the request carries exactly it in order, and saving starts |
| BackupModal.Modal.SaveSettled | app/dashboard/components/backup-modal.tsx:66-70 | saving ends whether the request succeeded or failed |
| UsedCodesRoute.Get | app/api/used-codes/route.ts:7-14 | `GET` answers the stored map, or `{}` when the file is missing or unparsable |
| UsedCodesRoute.Updated | app/api/used-codes/route.ts:19-33 | the posted address maps to the posted list (or is dropped when the list is absent); every other entry is carried over |
| UsedCodesRoute.LastWriteWins | app/api/used-codes/route.ts:30 | a second post for the same address replaces the first, never merges |
| UsedCodesRoute.UpdatesCommute | app/api/used-codes/route.ts:22-33 | posts for different addresses do not interfere |
| UsedCodesRoute.FreshStart | app/api/used-codes/route.ts:22-30 | without a readable file the result is `{email: usedIndexes}` |
| UsedCodesRoute.Store.CommitToGitHub | app/api/used-codes/route.ts:48-95 | without a token nothing happens; failures are swallowed and leave the copy as it was |
| UsedCodesRoute.Store.Post | app/api/used-codes/route.ts:16-46 | success answers `{success: true}` and writes the updated map; a bad body or failed write answers 500 `Failed to update` and changes nothing; the mirror never changes the answer |
| UsedCodesRoute.ToggleSaveReload | app/dashboard/components/backup-modal.tsx:23-64 | a toggle saved through the store and reloaded by a newly opened dialog gives back exactly the set shown; other addresses keep their entries |
| Middleware.Secret | middleware.ts:19-21 | a set, non-empty `JWT_SECRET` is used as is; an unset or empty one falls back to `default-secret` |
| Middleware.Decide | middleware.ts:6-51 | every redirect goes to `/login` or `/dashboard`; only one to `/login` deletes the cookie; one to `/dashboard` needs a verified token |
| Middleware.ProtectedNeedsValidToken | middleware.ts:11-29 | a `/dashboard...` page is served iff a token is present and verifies, otherwise the request is redirected to `/login` |
| Middleware.CookieDeletedOnlyForRejectedToken | middleware.ts:11-47 | the cookie is deleted iff a protected page comes with a token that fails verification |
| Middleware.RootRedirects | middleware.ts:33-48 | `/` always redirects without deleting the cookie: to `/dashboard` iff the token verifies, else to `/login` |
| Middleware.OtherPathsPass | middleware.ts:50 | any other path passes through |
| Middleware.PrefixAlsoGuardsSiblings | middleware.ts:11-16 | `/dashboard` followed by anything, `/dashboardX` included, redirects to `/login` without a token |
| Middleware.RedirectsSettle | middleware.ts:7-51 | following a redirect with the cookie it leaves ends in a page that is served, so there are no redirect loops |
| Middleware.AdmittedPathsAreGated | middleware.ts:53-55 | every path the matcher admits is served only with a verified token |
| LoginRoute.SessionCookie | app/api/auth/login/route.ts:24-30 | the cookie is `auth-token`, httpOnly, `sameSite` lax, path `/`, maxAge 3153600000, and secure iff `NODE_ENV` is `production` |
| LoginRoute.Login | app/api/auth/login/route.ts:4-39 | the status is 200, 401 or 500; a cookie is set and the body is `{success: true}` exactly on 200 |
| LoginRoute.SuccessExactly | app/api/auth/login/route.ts:4-31 | 200 iff the body is readable, both credentials match and signing succeeds; only then is the cookie set, with the signed token |
| LoginRoute.UnauthorizedExactly | app/api/auth/login/route.ts:12-17 | 401 `Invalid credentials` iff the body is readable and either credential differs |
| LoginRoute.ServerErrorOtherwise | app/api/auth/login/route.ts:33-38 | every other outcome is 500 `Internal server error` without a cookie |
| LoginRoute.TokenForSubmittedUser | app/api/auth/login/route.ts:19-24 | the cookie carries the token signed for the submitted username |
| LoginRoute.UnsetCredentialsAdmitEmptyBody | app/api/auth/login/route.ts:7-12 | with neither credential configured, a body with neither field logs in |

## Left out

- GmailData.ParseGmailData: orders by character (code-point) order (`LexLe`), whereas `localeCompare` uses the runtime's locale collation. No claim is made about the relative order of accounts with equal addresses.
- GmailData.ParseGmailData: the accounts are collected into a sequence and copied into an array before the in-place sort, where the source pushes onto a growing array.
- GmailData.ParseGmailData: the environment is an immutable map value, so "the environment is not modified" holds by construction rather than being stated.
- Characters are Unicode scalar values rather than UTF-16 code units.
- JsString.ToUpper upper-cases only the Latin letters a-z. That is enough for Base32 secrets, but it is weaker than full Unicode `toUpperCase`.
- The TOTP computation (HMAC-SHA1, Base32 decoding, truncation) is a parameter. The 30-second step constancy of section 4 of RFC 6238 is the hypothesis `ConstantWithinStep`, and the six-digit codes of section 5.3 of RFC 4226 are the hypothesis `SixDigitCodes`; neither is a proved fact.
- OtpCard.Card.UpdateOtp: the library reads the clock on its own (`libraryClockMs`). Nothing ties that reading to the reading behind the countdown.
- The interval's one-second period and the browser's scheduling are not modelled. A tick is a `Fire` call with a handle.
- The clipboard copy, the transient "Copied!" flags and their `setTimeout` are not modelled. Neither is the floating-point progress percentage.
- JSX, CSS and rendering are not modelled. This includes the dialog rendering nothing while closed, and `otp-grid.tsx`, which only renders the cards. The record shapes of `types/index.ts` are datatypes.
- Overlapping `toggleUsed` calls capture a stale set. This async interleaving is not modelled: each toggle runs to its request in one step.
- BackupModal.Modal.LoadUsedCodes: the stored value for an address is taken to be a list of numbers. A falsy value (`0`, `""`, `null`) that skips the replacement, and a string spread into characters by `new Set`, are not modelled.
- UsedCodesRoute.Store.Post: a file whose JSON is not an object is not modelled. Neither are non-string addresses, non-array `usedIndexes`, nor the special `__proto__` key. A failed write is taken to leave the file as it was.
- UsedCodesRoute.Store.CommitToGitHub: the HTTP GET for the file's `sha`, the Base64 encoding and the PUT request itself are not modelled. The outcome is reduced to whether the PUT is accepted.
- Concurrent `POST`s racing on the file are not modelled.
- The `console.error` logging in the store, the dialog and the card is not modelled; it changes no state and no response.
- JWT signing and verification (HS256 via `jose`, with the issue time taken from the clock) are parameters. So is the token payload.
- Middleware.AdmittedPathsAreGated: the framework's matcher is a predicate on paths, not the framework's pattern language. Redirect targets are paths, not the absolute URLs built from the request.
- LoginRoute: a JSON body that is a number, string or array is represented as a body with neither credential. The `USERNAME` and `PASSWORD` environment variables are optional parameters.
