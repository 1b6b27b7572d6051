/** The account registry: `parseGmailData` scans the environment for keys
    `GMAIL<digits>_USERNAME`, joins each with its `_AUTHENTICATOR` and
    `_BACKUP_CODES` companions, keeps the complete ones and sorts them by
    email.

    The environment is a finite map from names to values; `keys` is the
    order in which `Object.keys` enumerates it. */
module GmailData {
  import opened Wrappers
  import JsString

  /** One configured account: its address, its Base32 authenticator secret
      and its backup codes in configuration order. */
  datatype GmailAccount = GmailAccount(email: string, key: string, backupCodes: seq<string>)

  type Env = map<string, string>

  /** `Object.keys(env)`: each name of the environment exactly once. */
  predicate EnumeratesKeys(env: Env, keys: seq<string>) {
    && env.Keys == (set k | k in keys)
    && (forall p, q :: 0 <= p < q < |keys| ==> keys[p] != keys[q])
  }

  /** `env[k] || ""`: a missing name reads as the empty string. */
  function Lookup(env: Env, k: string): string {
    if k in env then env[k] else ""
  }

  // ---------------------------------------------------------------------
  // Key names
  // ---------------------------------------------------------------------

  /** `\d` in a JavaScript regular expression without the `u` flag. */
  predicate IsDigit(c: char) { '0' <= c <= '9' }

  /** What `(\d+)` captures: one or more decimal digits. */
  predicate IsDigits(n: string) {
    |n| > 0 && forall i :: 0 <= i < |n| ==> IsDigit(n[i])
  }

  function UsernameKey(n: string): string { "GMAIL" + n + "_USERNAME" }
  function AuthenticatorKey(n: string): string { "GMAIL" + n + "_AUTHENTICATOR" }
  function BackupCodesKey(n: string): string { "GMAIL" + n + "_BACKUP_CODES" }

  /** `k.match(/^GMAIL(\d+)_USERNAME$/)`: the captured digit string, or
      `None` when the name does not match. */
  function MatchUsernameKey(k: string): (m: Option<string>)
    ensures m.Some? ==> IsDigits(m.value) && k == UsernameKey(m.value)
  {
    if |k| > 14 && k[..5] == "GMAIL" && k[|k| - 9..] == "_USERNAME" && IsDigits(k[5..|k| - 9])
    then Some(k[5..|k| - 9])
    else None
  }

  /** Every name built from a digit string matches, and the match captures
      exactly that digit string: `GMAIL01_USERNAME` captures `01`, not `1`. */
  lemma MatchUsernameKeyComplete(n: string)
    requires IsDigits(n)
    ensures MatchUsernameKey(UsernameKey(n)) == Some(n)
  {
    var k := UsernameKey(n);
    assert k[..5] == "GMAIL";
    assert k[|k| - 9..] == "_USERNAME";
    assert k[5..|k| - 9] == n;
  }

  /** Names that only resemble the pattern start no account. */
  lemma NearMissesDoNotMatch()
    ensures MatchUsernameKey("GMAIL_USERNAME") == None
    ensures MatchUsernameKey("GMAIL1_USERNAMEX") == None
    ensures MatchUsernameKey("GMAILX_USERNAME") == None
    ensures MatchUsernameKey("GMAIL1_AUTHENTICATOR") == None
  {
    var x := "GMAIL1_USERNAMEX";
    assert x[|x| - 9..] == "USERNAMEX";
    assert "USERNAMEX"[0] != "_USERNAME"[0];
    var y := "GMAILX_USERNAME";
    assert y[5..|y| - 9][0] == 'X';
    var z := "GMAIL1_AUTHENTICATOR";
    assert z[|z| - 9] == 'E';
  }

  // ---------------------------------------------------------------------
  // Backup codes: codes.split(",").map((c) => c.trim()).filter(Boolean)
  // ---------------------------------------------------------------------

  /** `parts.map((c) => c.trim())`. */
  function TrimAll(parts: seq<string>): (r: seq<string>)
    ensures |r| == |parts|
    ensures forall i :: 0 <= i < |parts| ==> r[i] == JsString.Trim(parts[i])
  {
    if |parts| == 0 then [] else [JsString.Trim(parts[0])] + TrimAll(parts[1..])
  }

  /** `parts.filter(Boolean)`: the non-empty strings, in order. */
  function DropEmpty(parts: seq<string>): (r: seq<string>)
    ensures |r| <= |parts|
    ensures forall i :: 0 <= i < |r| ==> r[i] != "" && r[i] in parts
    ensures forall x :: x != "" ==> multiset(r)[x] == multiset(parts)[x]
  {
    if |parts| == 0 then []
    else
      var head := if parts[0] == "" then [] else [parts[0]];
      var rest := DropEmpty(parts[1..]);
      assert parts == [parts[0]] + parts[1..];
      assert forall x :: x != "" ==> multiset(head)[x] == multiset([parts[0]])[x];
      head + rest
  }

  /** Filtering a concatenation filters each part: the kept strings stay
      in their original order. */
  lemma {:induction false} DropEmptyAppend(a: seq<string>, b: seq<string>)
    ensures DropEmpty(a + b) == DropEmpty(a) + DropEmpty(b)
  {
    if |a| > 0 {
      assert (a + b)[1..] == a[1..] + b;
      DropEmptyAppend(a[1..], b);
    } else {
      assert a + b == b;
    }
  }

  /** Trimming only removes characters. */
  lemma TrimKeepsNoNewChar(s: string, c: char)
    requires c !in s
    ensures c !in JsString.Trim(s)
  {
    var r := JsString.Trim(s);
    var i :| 0 <= i <= |s| - |r| && s[i..i + |r|] == r
             && JsString.AllSpace(s[..i]) && JsString.AllSpace(s[i + |r|..]);
    forall k | 0 <= k < |r| ensures r[k] != c {
      assert r[k] == s[i + k];
    }
  }

  /** A code as the parser returns it: non-empty, trimmed, comma-free. */
  predicate IsCode(c: string) {
    c != "" && JsString.IsTrimmed(c) && ',' !in c
  }

  /** Every trimmed piece of a comma split is trimmed and comma-free. */
  lemma TrimmedPiecesAreClean(v: string)
    ensures forall j :: 0 <= j < |TrimAll(JsString.Split(v, ','))| ==>
              JsString.IsTrimmed(TrimAll(JsString.Split(v, ','))[j]) && ',' !in TrimAll(JsString.Split(v, ','))[j]
  {
    var pieces := JsString.Split(v, ',');
    forall j | 0 <= j < |pieces| ensures ',' !in JsString.Trim(pieces[j]) {
      TrimKeepsNoNewChar(pieces[j], ',');
    }
  }

  /** Dropping the empty strings from trimmed, comma-free strings leaves
      codes. */
  lemma {:induction false} DropEmptyGivesCodes(parts: seq<string>)
    requires forall j :: 0 <= j < |parts| ==> JsString.IsTrimmed(parts[j]) && ',' !in parts[j]
    ensures forall i :: 0 <= i < |DropEmpty(parts)| ==> IsCode(DropEmpty(parts)[i])
  {
    if |parts| > 0 {
      DropEmptyGivesCodes(parts[1..]);
    }
  }

  /** The backup codes of one configuration value: split at commas, each
      piece trimmed, empty pieces dropped. Every piece that is not blank is
      kept, trimmed, as often as it occurs. */
  function ParseBackupCodes(v: string): (codes: seq<string>)
    ensures forall i :: 0 <= i < |codes| ==> IsCode(codes[i])
    ensures forall j :: 0 <= j < |JsString.Split(v, ',')| && JsString.Trim(JsString.Split(v, ',')[j]) != "" ==>
              JsString.Trim(JsString.Split(v, ',')[j]) in codes
    ensures forall x :: x != "" ==> multiset(codes)[x] == multiset(TrimAll(JsString.Split(v, ',')))[x]
  {
    var trimmed := TrimAll(JsString.Split(v, ','));
    TrimmedPiecesAreClean(v);
    DropEmptyGivesCodes(trimmed);
    NonEmptyPiecesKept(trimmed);
    DropEmpty(trimmed)
  }

  /** Filtering keeps every non-empty string. */
  lemma NonEmptyPiecesKept(parts: seq<string>)
    ensures forall j :: 0 <= j < |parts| && parts[j] != "" ==> parts[j] in DropEmpty(parts)
  {
    forall j | 0 <= j < |parts| && parts[j] != "" ensures parts[j] in DropEmpty(parts) {
      assert parts[j] in multiset(parts);
    }
  }

  lemma {:induction false} DropEmptyOfEmpties(parts: seq<string>)
    requires forall i :: 0 <= i < |parts| ==> parts[i] == ""
    ensures DropEmpty(parts) == []
  {
    if |parts| > 0 {
      DropEmptyOfEmpties(parts[1..]);
    }
  }

  lemma {:induction false} DropEmptyOfNonEmpties(parts: seq<string>)
    requires forall i :: 0 <= i < |parts| ==> parts[i] != ""
    ensures DropEmpty(parts) == parts
  {
    if |parts| > 0 {
      DropEmptyOfNonEmpties(parts[1..]);
      assert [parts[0]] + parts[1..] == parts;
    }
  }

  lemma {:induction false} BlankPieces(v: string)
    requires forall k :: 0 <= k < |v| ==> v[k] == ',' || JsString.IsSpace(v[k])
    ensures forall i :: 0 <= i < |JsString.Split(v, ',')| ==> JsString.AllSpace(JsString.Split(v, ',')[i])
  {
    if |v| > 0 {
      BlankPieces(v[1..]);
    }
  }

  /** A value made only of commas and whitespace (in particular an absent
      or empty one) gives no backup codes. */
  lemma BlankValueGivesNoCodes(v: string)
    requires forall k :: 0 <= k < |v| ==> v[k] == ',' || JsString.IsSpace(v[k])
    ensures ParseBackupCodes(v) == []
  {
    var pieces := JsString.Split(v, ',');
    BlankPieces(v);
    forall i | 0 <= i < |pieces| ensures JsString.Trim(pieces[i]) == "" {
      JsString.TrimAllSpace(pieces[i]);
    }
    DropEmptyOfEmpties(TrimAll(pieces));
  }

  lemma TrimAllOfTrimmed(parts: seq<string>)
    requires forall i :: 0 <= i < |parts| ==> JsString.IsTrimmed(parts[i])
    ensures TrimAll(parts) == parts
  {
    forall i | 0 <= i < |parts| ensures TrimAll(parts)[i] == parts[i] {
      JsString.TrimTrimmed(parts[i]);
    }
  }

  /** Codes written back as a comma list parse to the same codes, in the
      same order: parsing loses nothing but whitespace and empty entries. */
  lemma ParseJoinedCodes(codes: seq<string>)
    requires forall i :: 0 <= i < |codes| ==> IsCode(codes[i])
    ensures ParseBackupCodes(JsString.Join(codes, ',')) == codes
  {
    if |codes| == 0 {
      BlankValueGivesNoCodes("");
    } else {
      JsString.SplitJoin(codes, ',');
      TrimAllOfTrimmed(codes);
      DropEmptyOfNonEmpties(codes);
    }
  }

  // ---------------------------------------------------------------------
  // Collecting the accounts
  // ---------------------------------------------------------------------

  /** Both the address and the secret of number `n` are set and non-empty. */
  predicate Complete(env: Env, n: string) {
    Lookup(env, UsernameKey(n)) != "" && Lookup(env, AuthenticatorKey(n)) != ""
  }

  /** The account configured under digit string `n`, when both its address
      and its secret are non-empty. */
  function AccountFor(env: Env, n: string): (a: Option<GmailAccount>)
    ensures a.Some? <==> Complete(env, n)
    ensures a.Some? ==> && UsernameKey(n) in env && a.value.email == env[UsernameKey(n)]
                        && AuthenticatorKey(n) in env && a.value.key == env[AuthenticatorKey(n)]
                        && a.value.backupCodes == ParseBackupCodes(Lookup(env, BackupCodesKey(n)))
  {
    var email := Lookup(env, UsernameKey(n));
    var key := Lookup(env, AuthenticatorKey(n));
    var codes := Lookup(env, BackupCodesKey(n));
    if email != "" && key != "" then Some(GmailAccount(email, key, ParseBackupCodes(codes))) else None
  }

  /** What one environment name adds to the list: at most one account,
      the one the name emits. */
  function Contribution(env: Env, k: string): (c: seq<GmailAccount>)
    ensures |c| <= 1
    ensures forall a :: a in c <==> Emits(env, k, a)
  {
    match MatchUsernameKey(k)
    case None => []
    case Some(n) =>
      match AccountFor(env, n)
      case None => []
      case Some(a) => [a]
  }

  /** Account `a` is the one that name `k` contributes. */
  predicate Emits(env: Env, k: string, a: GmailAccount) {
    MatchUsernameKey(k).Some? && AccountFor(env, MatchUsernameKey(k).value) == Some(a)
  }

  /** The list the `forEach` loop builds, in enumeration order, before
      sorting. */
  function Collected(env: Env, keys: seq<string>): seq<GmailAccount> {
    CollectWith(k => Contribution(env, k), keys)
  }

  /** `keys.forEach` with a step that pushes `f(key)`. */
  function CollectWith(f: string -> seq<GmailAccount>, keys: seq<string>): seq<GmailAccount> {
    if |keys| == 0 then []
    else CollectWith(f, keys[..|keys| - 1]) + f(keys[|keys| - 1])
  }

  /** The number of names that match the username pattern. */
  function MatchingKeyCount(keys: seq<string>): nat {
    if |keys| == 0 then 0
    else MatchingKeyCount(keys[..|keys| - 1]) + (if MatchUsernameKey(keys[|keys| - 1]).Some? then 1 else 0)
  }

  /** At most one account per matching username name. */
  lemma {:induction false} CollectedBound(env: Env, keys: seq<string>)
    ensures |Collected(env, keys)| <= MatchingKeyCount(keys)
  {
    if |keys| > 0 {
      CollectedBound(env, keys[..|keys| - 1]);
      assert Collected(env, keys) == Collected(env, keys[..|keys| - 1]) + Contribution(env, keys[|keys| - 1]);
    }
  }

  lemma {:induction false} CollectWithMembership(f: string -> seq<GmailAccount>, keys: seq<string>, a: GmailAccount)
    ensures a in CollectWith(f, keys) <==> exists i :: 0 <= i < |keys| && a in f(keys[i])
  {
    if |keys| > 0 {
      var init, last := keys[..|keys| - 1], keys[|keys| - 1];
      CollectWithMembership(f, init, a);
      if a in CollectWith(f, init) {
        var i :| 0 <= i < |init| && a in f(init[i]);
        assert keys[i] == init[i];
      } else if a !in f(last) {
        forall i | 0 <= i < |keys| ensures a !in f(keys[i]) {
          if i < |init| {
            assert keys[i] == init[i];
          }
        }
      }
    }
  }

  /** An account is in the list exactly when some enumerated name emits
      it: the name matches the pattern and both its address and its secret
      are non-empty. */
  lemma CollectedMembership(env: Env, keys: seq<string>, a: GmailAccount)
    ensures a in Collected(env, keys) <==> exists i :: 0 <= i < |keys| && Emits(env, keys[i], a)
  {
    CollectWithMembership(k => Contribution(env, k), keys, a);
    assert forall i :: 0 <= i < |keys| ==> (a in Contribution(env, keys[i]) <==> Emits(env, keys[i], a));
  }

  /** Every configuration n whose username name is enumerated and whose
      address and secret are both non-empty is in the list. */
  lemma CompleteAccountsCollected(env: Env, keys: seq<string>, n: string)
    requires IsDigits(n) && UsernameKey(n) in keys
    requires Complete(env, n)
    ensures AccountFor(env, n).value in Collected(env, keys)
  {
    MatchUsernameKeyComplete(n);
    var i :| 0 <= i < |keys| && keys[i] == UsernameKey(n);
    CollectedMembership(env, keys, AccountFor(env, n).value);
  }

  /** The username name of digit string `n` contributes exactly the
      account configured under `n`, if any. */
  lemma ContributionOfUsernameKey(env: Env, n: string)
    requires IsDigits(n)
    ensures Contribution(env, UsernameKey(n)) == match AccountFor(env, n) case Some(a) => [a] case None => []
  {
    MatchUsernameKeyComplete(n);
  }

  lemma CollectedOfTwo(env: Env, k1: string, k2: string)
    ensures Collected(env, [k1, k2]) == Contribution(env, k1) + Contribution(env, k2)
  {
    var f := k => Contribution(env, k);
    assert [k1, k2][..1] == [k1];
    assert [k1][..0] == [];
    assert CollectWith(f, [k1]) == f(k1);
  }

  lemma CollectedOfThree(env: Env, k1: string, k2: string, k3: string)
    ensures Collected(env, [k1, k2, k3]) == Contribution(env, k1) + Contribution(env, k2) + Contribution(env, k3)
  {
    var f := k => Contribution(env, k);
    assert [k1, k2, k3][..2] == [k1, k2];
    CollectedOfTwo(env, k1, k2);
  }

  /** A companion name never starts an account of its own. */
  lemma AuthenticatorKeyNeverMatches(n: string)
    ensures MatchUsernameKey(AuthenticatorKey(n)) == None
  {
    var k := AuthenticatorKey(n);
    assert k[|k| - 9] == 'E';
  }

  /** An address with a secret followed by an address whose secret is
      missing: only the first becomes an account; the gap is not an error. */
  lemma GapIsExcluded(env: Env, n: string, m: string)
    requires IsDigits(n) && IsDigits(m)
    requires Complete(env, n)
    requires Lookup(env, UsernameKey(m)) != "" && Lookup(env, AuthenticatorKey(m)) == ""
    ensures Collected(env, [UsernameKey(n), AuthenticatorKey(n), UsernameKey(m)]) == [AccountFor(env, n).value]
  {
    ContributionOfUsernameKey(env, n);
    ContributionOfUsernameKey(env, m);
    AuthenticatorKeyNeverMatches(n);
    CollectedOfThree(env, UsernameKey(n), AuthenticatorKey(n), UsernameKey(m));
  }

  /** Two complete configurations both become accounts, in enumeration
      order, even when they hold the same values: `GMAIL1_…` and
      `GMAIL01_…` are not merged. */
  lemma NothingMerged(env: Env, n: string, m: string)
    requires IsDigits(n) && IsDigits(m)
    requires Complete(env, n) && Complete(env, m)
    ensures Collected(env, [UsernameKey(n), UsernameKey(m)])
            == [AccountFor(env, n).value, AccountFor(env, m).value]
  {
    ContributionOfUsernameKey(env, n);
    ContributionOfUsernameKey(env, m);
    CollectedOfTwo(env, UsernameKey(n), UsernameKey(m));
  }

  /** Different digit strings name different variables, so `GMAIL1_...`
      and `GMAIL01_...` are two separate accounts. */
  lemma KeyNamesAreInjective(n: string, m: string)
    requires n != m
    ensures UsernameKey(n) != UsernameKey(m)
    ensures AuthenticatorKey(n) != AuthenticatorKey(m)
    ensures BackupCodesKey(n) != BackupCodesKey(m)
  {
    if |n| == |m| {
      var i :| 0 <= i < |n| && n[i] != m[i];
      assert UsernameKey(n)[5 + i] == n[i] && UsernameKey(m)[5 + i] == m[i];
      assert AuthenticatorKey(n)[5 + i] == n[i] && AuthenticatorKey(m)[5 + i] == m[i];
      assert BackupCodesKey(n)[5 + i] == n[i] && BackupCodesKey(m)[5 + i] == m[i];
    }
  }

  // ---------------------------------------------------------------------
  // Ordering by email
  // ---------------------------------------------------------------------

  /** Ordinal comparison of strings, character by character; it stands in
      for the locale-aware `localeCompare`. */
  predicate LexLe(a: string, b: string) {
    |a| == 0 || (|b| > 0 && (a[0] < b[0] || (a[0] == b[0] && LexLe(a[1..], b[1..]))))
  }

  lemma {:induction false} LexLeTotal(a: string, b: string)
    ensures LexLe(a, b) || LexLe(b, a)
  {
    if |a| > 0 && |b| > 0 && a[0] == b[0] {
      LexLeTotal(a[1..], b[1..]);
    }
  }

  lemma {:induction false} LexLeTransitive(a: string, b: string, c: string)
    requires LexLe(a, b) && LexLe(b, c)
    ensures LexLe(a, c)
  {
    if |a| > 0 && |c| > 0 && a[0] == b[0] && b[0] == c[0] {
      LexLeTransitive(a[1..], b[1..], c[1..]);
    }
  }

  lemma {:induction false} LexLeAntisymmetric(a: string, b: string)
    requires LexLe(a, b) && LexLe(b, a)
    ensures a == b
  {
    if |a| > 0 && |b| > 0 {
      LexLeAntisymmetric(a[1..], b[1..]);
      assert a == [a[0]] + a[1..] && b == [b[0]] + b[1..];
    }
  }

  /** Neighbours are in email order. */
  predicate EmailOrdered(s: seq<GmailAccount>) {
    forall k :: 0 < k < |s| ==> LexLe(s[k - 1].email, s[k].email)
  }

  /** An email-ordered list has every pair in order, not just neighbours. */
  lemma {:induction false} EmailOrderedPairwise(s: seq<GmailAccount>, p: int, q: int)
    requires EmailOrdered(s)
    requires 0 <= p < q < |s|
    ensures LexLe(s[p].email, s[q].email)
    decreases q - p
  {
    if p + 1 < q {
      EmailOrderedPairwise(s, p, q - 1);
      LexLeTransitive(s[p].email, s[q - 1].email, s[q].email);
    }
  }

  /** Exchanges two neighbours of the array. */
  method Swap(a: array<GmailAccount>, i: int, j: int)
    requires 0 <= i < j < a.Length
    modifies a
    ensures a[i] == old(a[j]) && a[j] == old(a[i])
    ensures forall k :: 0 <= k < a.Length && k != i && k != j ==> a[k] == old(a[k])
    ensures multiset(a[..]) == multiset(old(a[..]))
  {
    a[i], a[j] := a[j], a[i];
  }

  /** `accounts.sort((a, b) => a.email.localeCompare(b.email))`, in place:
      the array ends in email order and holds the same accounts. */
  method SortByEmail(a: array<GmailAccount>)
    modifies a
    ensures EmailOrdered(a[..])
    ensures multiset(a[..]) == multiset(old(a[..]))
  {
    for i := 0 to a.Length
      invariant forall k :: 0 < k < i ==> LexLe(a[k - 1].email, a[k].email)
      invariant multiset(a[..]) == multiset(old(a[..]))
    {
      var j := i;
      while j > 0 && !LexLe(a[j - 1].email, a[j].email)
        invariant 0 <= j <= i
        invariant forall k :: 0 < k <= i && k != j ==> LexLe(a[k - 1].email, a[k].email)
        invariant 0 < j < i ==> LexLe(a[j - 1].email, a[j + 1].email)
        invariant multiset(a[..]) == multiset(old(a[..]))
      {
        LexLeTotal(a[j - 1].email, a[j].email);
        Swap(a, j - 1, j);
        j := j - 1;
      }
    }
  }

  /** `parseGmailData()`: collect the complete accounts in enumeration
      order, then sort them by email. The result is the collected list,
      reordered. */
  method ParseGmailData(env: Env, keys: seq<string>) returns (accounts: array<GmailAccount>)
    requires EnumeratesKeys(env, keys)
    ensures fresh(accounts)
    ensures multiset(accounts[..]) == multiset(Collected(env, keys))
    ensures EmailOrdered(accounts[..])
    ensures forall n :: IsDigits(n) && Complete(env, n) ==> AccountFor(env, n).value in accounts[..]
  {
    var collected: seq<GmailAccount> := [];
    for i := 0 to |keys|
      invariant collected == Collected(env, keys[..i])
    {
      assert keys[..i + 1][..i] == keys[..i];
      var name := keys[i];
      match MatchUsernameKey(name) {
        case Some(num) =>
          var email := Lookup(env, UsernameKey(num));
          var key := Lookup(env, AuthenticatorKey(num));
          var codes := Lookup(env, BackupCodesKey(num));
          if email != "" && key != "" {
            collected := collected + [GmailAccount(email, key, ParseBackupCodes(codes))];
          }
        case None =>
      }
    }
    assert keys[..|keys|] == keys;
    accounts := new GmailAccount[|collected|](k requires 0 <= k < |collected| => collected[k]);
    assert accounts[..] == collected;
    SortByEmail(accounts);
    forall n | IsDigits(n) && Complete(env, n)
      ensures AccountFor(env, n).value in accounts[..]
    {
      assert UsernameKey(n) in env;
      CompleteAccountsCollected(env, keys, n);
      assert AccountFor(env, n).value in multiset(accounts[..]);
    }
  }

  /** Two accounts with different addresses come out in one order only,
      whatever order the environment lists them in. */
  lemma SortedPairIsDetermined(s: seq<GmailAccount>, x: GmailAccount, y: GmailAccount)
    requires LexLe(x.email, y.email) && x.email != y.email
    requires multiset(s) == multiset([y, x])
    requires EmailOrdered(s)
    ensures s == [x, y]
  {
    assert |s| == |multiset(s)| == 2;
    assert s[0] in multiset(s) && s[1] in multiset(s);
    if s[0] == y && s[1] == x {
      LexLeAntisymmetric(x.email, y.email);
    }
    assert multiset(s) == multiset([s[0], s[1]]) by {
      assert s == [s[0], s[1]];
    }
  }
}
