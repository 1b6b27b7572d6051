/** One account's card: the countdown arithmetic, the code shown (with its
    fallback when the one-time-password library throws), the 3+3 display
    split, and the effect that refreshes the card once at mount and then on
    every tick of one interval timer, which cleanup clears.

    The one-time-password library (Base32 decoding, HMAC-SHA1, dynamic
    truncation) is a parameter: a function from the normalised secret and
    the library's own clock reading to the code, or `None` when it throws. */
module OtpCard {
  import opened Wrappers
  import JsString

  /** The TOTP period, in seconds. */
  const Period: int := 30

  /** What the card shows when the code cannot be generated. */
  const Placeholder: string := "------"

  /** `timeRemaining` at or below this many seconds marks the code as
      about to expire. */
  const ExpiringThreshold: int := 5

  /** `new OTPAuth.TOTP({...}).generate()`: given the upper-cased secret
      and the library's clock in milliseconds, the code, or `None` when
      building or generating throws. */
  type TotpLibrary = (string, int) -> Option<string>

  // ---------------------------------------------------------------------
  // Countdown arithmetic
  // ---------------------------------------------------------------------

  /** `Math.floor(Date.now() / 1000)`: whole seconds of a millisecond clock. */
  function NowSeconds(nowMs: int): (t: int)
    ensures t * 1000 <= nowMs < t * 1000 + 1000
  {
    nowMs / 1000
  }

  /** JavaScript's `a % b` for `b > 0`: the remainder truncated toward
      zero, which takes the sign of `a`. */
  function JsRem(a: int, b: int): (r: int)
    requires b > 0
    ensures a >= 0 ==> r == a % b && 0 <= r < b
    ensures a < 0 ==> -b < r <= 0 && r == -((-a) % b)
  {
    if a >= 0 then a % b else -((-a) % b)
  }

  /** `30 - (now % 30)`: the seconds left until a period boundary. From the
      epoch on that is 1 to 30; before it JavaScript's remainder is negative
      or zero, so the countdown would show 30 to 59. */
  function SecondsRemaining(now: int): (r: int)
    ensures IsBoundary(now + r)
    ensures now >= 0 ==> 1 <= r <= Period
    ensures now < 0 ==> Period <= r < 2 * Period
  {
    Period - JsRem(now, Period)
  }

  /** From the epoch on, the countdown shows a full 30 exactly at a period
      boundary, never 0. */
  lemma RemainingInPeriod(now: int)
    requires now >= 0
    ensures SecondsRemaining(now) == Period <==> IsBoundary(now)
  {
  }

  /** One second later the countdown is one lower, except that it jumps
      back to 30 when the next second starts a new period. */
  lemma RemainingCountsDown(t: int)
    requires t >= 0
    ensures (t + 1) % Period != 0 ==> SecondsRemaining(t + 1) == SecondsRemaining(t) - 1
    ensures (t + 1) % Period == 0 ==> SecondsRemaining(t + 1) == Period
  {
  }

  /** Second `t` starts a period. */
  predicate IsBoundary(t: int) {
    t % Period == 0
  }

  /** From the epoch on, the countdown reaches the very next boundary: no
      period starts before it runs out. */
  lemma RemainingReachesBoundary(now: int)
    requires now >= 0
    ensures forall t :: now < t < now + SecondsRemaining(now) ==> !IsBoundary(t)
  {
  }

  /** `isExpiring`. */
  predicate IsExpiring(timeRemaining: int) {
    timeRemaining <= ExpiringThreshold
  }

  /** From the epoch on, the card is marked expiring in the last five
      seconds of every period. */
  lemma ExpiringWindow(now: int)
    requires now >= 0
    ensures IsExpiring(SecondsRemaining(now)) <==> now % Period >= Period - ExpiringThreshold
  {
  }

  // ---------------------------------------------------------------------
  // The code shown
  // ---------------------------------------------------------------------

  /** `generateOTP()`: the library's code for the upper-cased secret, or
      the placeholder when the library throws. The secret is upper-cased
      first, whatever case it was typed in. */
  function GenerateOtp(totp: TotpLibrary, secretKey: string, libraryClockMs: int): (otp: string)
    ensures totp(JsString.ToUpper(secretKey), libraryClockMs).None? ==> otp == Placeholder
    ensures totp(JsString.ToUpper(secretKey), libraryClockMs).Some? ==>
              otp == totp(JsString.ToUpper(secretKey), libraryClockMs).value
  {
    match totp(JsString.ToUpper(secretKey), libraryClockMs)
    case Some(code) => code
    case None => Placeholder
  }

  /** What section 5.3 of RFC 4226 promises of the library with six digits
      configured: every code it produces is six decimal digits. A
      hypothesis about the library, not something this model proves. */
  ghost predicate SixDigitCodes(totp: TotpLibrary) {
    forall s, t :: totp(s, t).Some? ==>
      |totp(s, t).value| == 6 && forall i :: 0 <= i < 6 ==> '0' <= totp(s, t).value[i] <= '9'
  }

  /** Given that hypothesis, the placeholder is shown exactly when the
      library throws: no real code can be mistaken for it. */
  lemma GenerateOtpPlaceholderIffThrows(totp: TotpLibrary, secretKey: string, libraryClockMs: int)
    requires SixDigitCodes(totp)
    ensures GenerateOtp(totp, secretKey, libraryClockMs) == Placeholder
            <==> totp(JsString.ToUpper(secretKey), libraryClockMs).None?
  {
    var s := JsString.ToUpper(secretKey);
    if totp(s, libraryClockMs).Some? {
      var code := totp(s, libraryClockMs).value;
      assert '0' <= code[0] <= '9';
      assert code[0] != Placeholder[0];
    }
  }

  /** Secrets that differ only in letter case give the same code. */
  lemma GenerateOtpIgnoresCase(totp: TotpLibrary, a: string, b: string, libraryClockMs: int)
    requires JsString.SameIgnoringCase(a, b)
    ensures GenerateOtp(totp, a, libraryClockMs) == GenerateOtp(totp, b, libraryClockMs)
  {
    JsString.ToUpperIgnoresCase(a, b);
  }

  /** The secret as typed and the secret already upper-cased give the same
      code. */
  lemma GenerateOtpUpperCased(totp: TotpLibrary, secretKey: string, libraryClockMs: int)
    ensures GenerateOtp(totp, JsString.ToUpper(secretKey), libraryClockMs) == GenerateOtp(totp, secretKey, libraryClockMs)
  {
    JsString.ToUpperIdempotent(secretKey);
  }

  /** What RFC 6238 section 4 promises of the library: the code depends on
      the clock only through the 30-second time step. A hypothesis about the
      library, not something this model proves. */
  ghost predicate ConstantWithinStep(totp: TotpLibrary) {
    forall s, t1, t2 :: t1 / 30000 == t2 / 30000 ==> totp(s, t1) == totp(s, t2)
  }

  /** Given that hypothesis, the card shows one code for a whole time step,
      placeholder included. */
  lemma CodeConstantWithinStep(totp: TotpLibrary, secretKey: string, t1: int, t2: int)
    requires ConstantWithinStep(totp)
    requires t1 / 30000 == t2 / 30000
    ensures GenerateOtp(totp, secretKey, t1) == GenerateOtp(totp, secretKey, t2)
  {
  }

  /** Where the display puts its space: after the third character, or at
      the end of a shorter code. */
  function SplitPoint(otp: string): nat {
    if |otp| < 3 then |otp| else 3
  }

  /** `{otp.slice(0, 3)} {otp.slice(3)}`: the code with one space
      inserted; removing that space gives the code back. */
  function Display(otp: string): (d: string)
    ensures |d| == |otp| + 1
    ensures d[SplitPoint(otp)] == ' '
    ensures d[..SplitPoint(otp)] + d[SplitPoint(otp) + 1..] == otp
  {
    var k := SplitPoint(otp);
    var d := otp[..k] + " " + otp[k..];
    assert d[..k] == otp[..k];
    assert d[k + 1..] == otp[k..];
    assert otp[..k] + otp[k..] == otp;
    d
  }

  /** A six-digit code shows as two groups of three; the placeholder shows
      as `--- ---`; the empty code before the first update shows as one
      space. */
  lemma DisplayExamples()
    ensures Display("123456") == "123 456"
    ensures Display(Placeholder) == "--- ---"
    ensures Display("") == " "
  {
  }

  // ---------------------------------------------------------------------
  // The card's state and its effect
  // ---------------------------------------------------------------------

  /** The state of one mounted card: what it shows, and the interval timer
      its effect owns. Timer handles are numbers the browser hands out and
      never reuses. */
  class Card {
    var email: string
    var secretKey: string
    var otp: string
    var timeRemaining: int
    /** The handle the running effect's cleanup will clear. */
    var interval: Option<nat>
    /** The intervals this card has registered and not cleared. */
    var liveIntervals: set<nat>
    /** The next handle `setInterval` returns. */
    var nextHandle: nat

    /** At most one interval is live, and it is the one the effect holds. */
    ghost predicate Valid()
      reads this
    {
      match interval
      case None => liveIntervals == {}
      case Some(h) => liveIntervals == {h} && h < nextHandle
    }

    /** The first render: empty code, a full period, no timer yet. */
    constructor (email: string, secretKey: string, firstHandle: nat)
      ensures Valid()
      ensures this.email == email && this.secretKey == secretKey
      ensures otp == "" && timeRemaining == Period
      ensures interval == None && liveIntervals == {} && nextHandle == firstHandle
    {
      this.email := email;
      this.secretKey := secretKey;
      otp := "";
      timeRemaining := Period;
      interval := None;
      liveIntervals := {};
      nextHandle := firstHandle;
    }

    /** `updateOTP()`: sample the clock, then set the countdown and the
        code. The library reads the clock on its own, so its reading is a
        separate parameter. */
    method UpdateOtp(totp: TotpLibrary, nowMs: int, libraryClockMs: int)
      modifies this`timeRemaining, this`otp
      ensures timeRemaining == SecondsRemaining(NowSeconds(nowMs))
      ensures otp == GenerateOtp(totp, secretKey, libraryClockMs)
    {
      var now := nowMs / 1000;
      var remaining := Period - JsRem(now, Period);
      timeRemaining := remaining;
      otp := GenerateOtp(totp, secretKey, libraryClockMs);
    }

    /** The effect: one update straight away, then one interval registered.
        It runs only when no earlier run of it is still live. */
    method RunEffect(totp: TotpLibrary, nowMs: int, libraryClockMs: int)
      requires Valid() && interval == None
      modifies this
      ensures Valid()
      ensures email == old(email) && secretKey == old(secretKey)
      ensures timeRemaining == SecondsRemaining(NowSeconds(nowMs))
      ensures otp == GenerateOtp(totp, secretKey, libraryClockMs)
      ensures interval == Some(old(nextHandle)) && liveIntervals == {old(nextHandle)}
      ensures nextHandle == old(nextHandle) + 1
    {
      UpdateOtp(totp, nowMs, libraryClockMs);
      var handle := nextHandle;
      nextHandle := nextHandle + 1;
      liveIntervals := liveIntervals + {handle};
      interval := Some(handle);
    }

    /** The browser fires interval `h`: a live interval runs `updateOTP`;
        a cleared one never runs again. */
    method Fire(h: nat, totp: TotpLibrary, nowMs: int, libraryClockMs: int)
      requires Valid()
      modifies this`timeRemaining, this`otp
      ensures h in liveIntervals ==> timeRemaining == SecondsRemaining(NowSeconds(nowMs))
                                     && otp == GenerateOtp(totp, secretKey, libraryClockMs)
      ensures h !in liveIntervals ==> timeRemaining == old(timeRemaining) && otp == old(otp)
    {
      if h in liveIntervals {
        UpdateOtp(totp, nowMs, libraryClockMs);
      }
    }

    /** The cleanup `() => clearInterval(interval)`: clears the very
        interval this run of the effect registered. */
    method Cleanup()
      requires Valid()
      modifies this`interval, this`liveIntervals
      ensures Valid()
      ensures interval == None && liveIntervals == {}
      ensures old(interval).Some? ==> liveIntervals == old(liveIntervals) - {old(interval).value}
    {
      match interval {
        case Some(h) =>
          liveIntervals := liveIntervals - {h};
        case None =>
      }
      interval := None;
    }

    /** The effect's dependencies changed (another address or secret): the
        old interval is cleared before the new run registers its own, so one
        interval is live afterwards, and it is a new one. */
    method ChangeAccount(newEmail: string, newSecretKey: string, totp: TotpLibrary, nowMs: int, libraryClockMs: int)
      requires Valid() && interval.Some?
      modifies this
      ensures Valid()
      ensures email == newEmail && secretKey == newSecretKey
      ensures otp == GenerateOtp(totp, newSecretKey, libraryClockMs)
      ensures timeRemaining == SecondsRemaining(NowSeconds(nowMs))
      ensures interval == Some(old(nextHandle)) && liveIntervals == {old(nextHandle)}
      ensures nextHandle == old(nextHandle) + 1
      ensures old(interval).value !in liveIntervals
    {
      Cleanup();
      email, secretKey := newEmail, newSecretKey;
      RunEffect(totp, nowMs, libraryClockMs);
    }
  }

  /** Mounting a card and unmounting it before the first tick: the mount
      shows a code at once, and the interval that was registered, should
      the browser still fire it, changes nothing. */
  method MountThenUnmount(email: string, secretKey: string, totp: TotpLibrary,
                          nowMs: int, libraryClockMs: int, lateMs: int, lateClockMs: int)
    returns (shownAtMount: string, shownAfterStrayTick: string)
    ensures shownAtMount == GenerateOtp(totp, secretKey, libraryClockMs)
    ensures shownAfterStrayTick == shownAtMount
  {
    var card := new Card(email, secretKey, 1);
    card.RunEffect(totp, nowMs, libraryClockMs);
    shownAtMount := card.otp;
    var h := card.interval.value;
    card.Cleanup();
    card.Fire(h, totp, lateMs, lateClockMs);
    shownAfterStrayTick := card.otp;
  }
}
