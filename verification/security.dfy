/** The security service: counting failed logins in a rate-limit window,
    account lockout with lazy expiry, and session-timeout arithmetic on the
    time of the last activity.

    Browser storage holds three values (`login_rate_limit`, `account_lockout`,
    `last_activity`); here they are the three optional fields of `Store`, and
    every operation takes the clock reading `now` (epoch milliseconds) and
    returns the store it leaves behind. */
module Security {
  import opened Wrappers

  const MaxLoginAttempts: nat := 5
  const LockoutDuration: int := 15 * 60 * 1000
  const RateLimitWindow: int := 15 * 60 * 1000
  const SessionTimeout: int := 30 * 60 * 1000
  const WarningThresholdSeconds: int := 120

  /** Failed attempts counted since `firstAttempt`. */
  datatype RateLimit = RateLimit(attempts: nat, firstAttempt: int)

  /** Logins are refused until `lockedUntil`. */
  datatype Lockout = Lockout(lockedUntil: int, attempts: int)

  datatype Store = Store(
    rateLimit: Option<RateLimit>,
    lockout: Option<Lockout>,
    lastActivity: Option<int>)

  datatype LockStatus = Unlocked | Locked(remainingTime: int)

  datatype FailedLogin = FailedLogin(shouldLockout: bool, attemptsRemaining: int)

  datatype SessionStatus = SessionStatus(timedOut: bool, remainingSeconds: int)

  /** `Math.ceil(a / b)` for a positive divisor. */
  function CeilDiv(a: int, b: int): (q: int)
    requires b > 0
    ensures b * (q - 1) < a <= b * q
  {
    var m := (-a) / b;
    assert b * m <= -a < b * (m + 1);
    -m
  }

  // ---------------------------------------------------------------------------
  // lockout

  /** Writes a lockout lasting `LockoutDuration` from `now`. */
  function LockoutAccount(s: Store, now: int): (s': Store)
    ensures s'.lockout == Some(Lockout(now + LockoutDuration, MaxLoginAttempts))
    ensures s'.rateLimit == s.rateLimit && s'.lastActivity == s.lastActivity
  {
    s.(lockout := Some(Lockout(now + LockoutDuration, MaxLoginAttempts)))
  }

  /** Removes the lockout and the rate-limit record. */
  function ClearLockout(s: Store): (s': Store)
    ensures s'.lockout.None? && s'.rateLimit.None? && s'.lastActivity == s.lastActivity
  {
    s.(lockout := None, rateLimit := None)
  }

  /** `isLockedOut`: locked while `now < lockedUntil`, with the remaining time
      in whole seconds rounded up; once the lockout has passed, reading it
      deletes both records and reports unlocked. */
  function IsLockedOut(s: Store, now: int): (r: (LockStatus, Store))
    ensures s.lockout.None? ==> r == (Unlocked, s)
    ensures s.lockout.Some? && now < s.lockout.value.lockedUntil ==>
      && r.1 == s
      && r.0.Locked?
      && r.0.remainingTime >= 1
      && 1000 * (r.0.remainingTime - 1) < s.lockout.value.lockedUntil - now <= 1000 * r.0.remainingTime
    ensures s.lockout.Some? && now >= s.lockout.value.lockedUntil ==>
      r == (Unlocked, ClearLockout(s))
  {
    match s.lockout
    case None => (Unlocked, s)
    case Some(l) =>
      if now < l.lockedUntil then (Locked(CeilDiv(l.lockedUntil - now, 1000)), s)
      else (Unlocked, ClearLockout(s))
  }

  // ---------------------------------------------------------------------------
  // rate limiting

  /** The rate-limit record after one more failure at `now`: a fresh window
      when there is none or the current one started more than
      `RateLimitWindow` ago, otherwise one more attempt in the same window. */
  function NextRateLimit(current: Option<RateLimit>, now: int): RateLimit
  {
    match current
    case None => RateLimit(1, now)
    case Some(rl) =>
      if now - rl.firstAttempt > RateLimitWindow then RateLimit(1, now)
      else RateLimit(rl.attempts + 1, rl.firstAttempt)
  }

  /** What `recordFailedLogin` reports after the `n`-th failure of a window. */
  function Verdict(n: nat): FailedLogin
  {
    if n >= MaxLoginAttempts then FailedLogin(true, 0)
    else FailedLogin(false, MaxLoginAttempts - n)
  }

  /** `recordFailedLogin`: counts the failure, and at `MaxLoginAttempts`
      failures in one window writes a lockout until `now + LockoutDuration`. */
  function RecordFailedLogin(s: Store, now: int): (r: (FailedLogin, Store))
    ensures r.1.rateLimit.Some? && r.1.lastActivity == s.lastActivity
    ensures
      var n := r.1.rateLimit.value;
      && ((s.rateLimit.None? || now - s.rateLimit.value.firstAttempt > RateLimitWindow) ==>
            n == RateLimit(1, now))
      && ((s.rateLimit.Some? && now - s.rateLimit.value.firstAttempt <= RateLimitWindow) ==>
            n == RateLimit(s.rateLimit.value.attempts + 1, s.rateLimit.value.firstAttempt))
      && (r.0.shouldLockout <==> n.attempts >= MaxLoginAttempts)
    ensures r.0.shouldLockout ==>
      r.0.attemptsRemaining == 0 && r.1.lockout == Some(Lockout(now + LockoutDuration, MaxLoginAttempts))
    ensures !r.0.shouldLockout ==>
      && 1 <= r.0.attemptsRemaining <= MaxLoginAttempts - 1
      && r.0.attemptsRemaining + r.1.rateLimit.value.attempts == MaxLoginAttempts
      && r.1.lockout == s.lockout
  {
    var rl := NextRateLimit(s.rateLimit, now);
    var s1 := s.(rateLimit := Some(rl));
    if rl.attempts >= MaxLoginAttempts then (Verdict(rl.attempts), LockoutAccount(s1, now))
    else (Verdict(rl.attempts), s1)
  }

  /** `clearFailedLoginAttempts`: forgets both the count and any lockout. */
  function ClearFailedLoginAttempts(s: Store): (s': Store)
    ensures s'.rateLimit.None? && s'.lockout.None? && s'.lastActivity == s.lastActivity
  {
    ClearLockout(s)
  }

  /** Records one failure at each time of `times` in turn, collecting what
      each reports. */
  function RecordFailures(s: Store, times: seq<int>): (r: (seq<FailedLogin>, Store))
    ensures |r.0| == |times|
    decreases |times|
  {
    if times == [] then ([], s)
    else
      var (v, s1) := RecordFailedLogin(s, times[0]);
      var (vs, s2) := RecordFailures(s1, times[1..]);
      ([v] + vs, s2)
  }

  /** Failures that all fall within the window opened at `first` keep
      counting up from `k`: the i-th reports `Verdict(k + i + 1)`, and once
      the count reaches `MaxLoginAttempts` the last failure has written a
      lockout `LockoutDuration` after it. */
  lemma {:induction false} FailuresAccumulate(s: Store, times: seq<int>, first: int, k: nat)
    requires s.rateLimit == (if k == 0 then None else Some(RateLimit(k, first)))
    requires k == 0 ==> |times| > 0 && times[0] == first
    requires forall i :: 0 <= i < |times| ==> times[i] - first <= RateLimitWindow
    ensures
      var (vs, s') := RecordFailures(s, times);
      && (forall i :: 0 <= i < |times| ==> vs[i] == Verdict(k + i + 1))
      && (k + |times| > 0 ==> s'.rateLimit == Some(RateLimit(k + |times|, first)))
      && (|times| > 0 && k + |times| >= MaxLoginAttempts ==>
            s'.lockout == Some(Lockout(times[|times| - 1] + LockoutDuration, MaxLoginAttempts)))
      && (k + |times| < MaxLoginAttempts ==> s'.lockout == s.lockout)
    decreases |times|
  {
    if times != [] {
      var (v, s1) := RecordFailedLogin(s, times[0]);
      assert s1.rateLimit == Some(RateLimit(k + 1, first));
      assert v == Verdict(k + 1);
      FailuresAccumulate(s1, times[1..], first, k + 1);
      var (vs, s2) := RecordFailures(s1, times[1..]);
      assert RecordFailures(s, times) == ([v] + vs, s2);
      if |times| == 1 {
        assert s2 == s1;
      }
    }
  }

  /** Five failures within the window of the first: the first four report
      4, 3, 2 and 1 attempts left, the fifth reports a lockout, and the
      account is locked for the next `LockoutDuration` milliseconds. */
  lemma FifthFailureLocksOut(s: Store, times: seq<int>, later: int)
    requires s.rateLimit.None?
    requires |times| == 5
    requires forall i :: 0 <= i < 5 ==> times[i] - times[0] <= RateLimitWindow
    requires times[4] <= later < times[4] + LockoutDuration
    ensures
      var (vs, s') := RecordFailures(s, times);
      && (forall i :: 0 <= i < 4 ==> vs[i] == FailedLogin(false, 4 - i))
      && vs[4] == FailedLogin(true, 0)
      && IsLockedOut(s', later).0.Locked?
  {
    FailuresAccumulate(s, times, times[0], 0);
  }

  /** After `clearFailedLoginAttempts` the next failure starts a new count. */
  lemma ClearRestartsCount(s: Store, now: int)
    ensures RecordFailedLogin(ClearFailedLoginAttempts(s), now).0 == FailedLogin(false, 4)
    ensures RecordFailedLogin(ClearFailedLoginAttempts(s), now).1.rateLimit == Some(RateLimit(1, now))
  {
  }

  /** Reading an expired lockout forgets the count too, so the next failure
      starts at one attempt. */
  lemma ExpiredLockoutRestartsCount(s: Store, now: int, later: int)
    requires s.lockout.Some? && now >= s.lockout.value.lockedUntil
    ensures IsLockedOut(s, now).0 == Unlocked
    ensures RecordFailedLogin(IsLockedOut(s, now).1, later).1.rateLimit == Some(RateLimit(1, later))
  {
  }

  // ---------------------------------------------------------------------------
  // session activity

  /** `recordActivity`. */
  function RecordActivity(s: Store, now: int): (s': Store)
    ensures s'.lastActivity == Some(now)
    ensures s'.rateLimit == s.rateLimit && s'.lockout == s.lockout
  {
    s.(lastActivity := Some(now))
  }

  /** `clearSessionActivity`. */
  function ClearSessionActivity(s: Store): (s': Store)
    ensures s'.lastActivity.None?
    ensures s'.rateLimit == s.rateLimit && s'.lockout == s.lockout
  {
    s.(lastActivity := None)
  }

  /** `checkSessionTimeout`: with no recorded activity the full 1800 seconds
      remain; otherwise the session has timed out once `SessionTimeout`
      milliseconds have elapsed, and before that the remaining time is
      reported in whole seconds rounded up. */
  function CheckSessionTimeout(s: Store, now: int): (r: SessionStatus)
    ensures s.lastActivity.None? ==> r == SessionStatus(false, SessionTimeout / 1000)
    ensures s.lastActivity.Some? ==>
      var elapsed := now - s.lastActivity.value;
      && (r.timedOut <==> elapsed >= SessionTimeout)
      && (r.timedOut ==> r.remainingSeconds == 0)
      && (!r.timedOut ==>
            && r.remainingSeconds >= 1
            && (elapsed >= 0 ==> r.remainingSeconds <= SessionTimeout / 1000)
            && 1000 * (r.remainingSeconds - 1) < SessionTimeout - elapsed <= 1000 * r.remainingSeconds)
  {
    match s.lastActivity
    case None => SessionStatus(false, SessionTimeout / 1000)
    case Some(last) =>
      var elapsed := now - last;
      if elapsed >= SessionTimeout then SessionStatus(true, 0)
      else SessionStatus(false, CeilDiv(SessionTimeout - elapsed, 1000))
  }

  /** `getTimeUntilTimeout`: the whole seconds, rounded up, left before the
      session times out; none once it has. */
  function TimeUntilTimeout(s: Store, now: int): (r: int)
    ensures r >= 0
    ensures s.lastActivity.None? ==> r == SessionTimeout / 1000
    ensures s.lastActivity.Some? ==>
      var elapsed := now - s.lastActivity.value;
      && (r == 0 <==> elapsed >= SessionTimeout)
      && (r > 0 ==> 1000 * (r - 1) < SessionTimeout - elapsed <= 1000 * r)
  {
    CheckSessionTimeout(s, now).remainingSeconds
  }

  /** `shouldShowTimeoutWarning`: between 1 and 120 seconds remain, which is
      exactly the last two minutes before the timeout, from 28 minutes of
      inactivity up to (not including) 30. */
  predicate ShouldShowTimeoutWarning(s: Store, now: int): (b: bool)
    ensures b <==>
      && s.lastActivity.Some?
      && SessionTimeout - 1000 * WarningThresholdSeconds <= now - s.lastActivity.value < SessionTimeout
  {
    var remaining := TimeUntilTimeout(s, now);
    assert s.lastActivity.Some? && remaining > 0 ==>
      (remaining <= WarningThresholdSeconds <==>
       SessionTimeout - (now - s.lastActivity.value) <= 1000 * WarningThresholdSeconds);
    0 < remaining <= WarningThresholdSeconds
  }

  /** Activity at `t`, then silence: 29 minutes later the warning shows and
      the session is live; at 30 minutes it has timed out; logging out
      afterwards clears the activity time. */
  lemma InactivityScenario(s: Store, t: int)
    ensures ShouldShowTimeoutWarning(RecordActivity(s, t), t + 29 * 60 * 1000)
    ensures !CheckSessionTimeout(RecordActivity(s, t), t + 29 * 60 * 1000).timedOut
    ensures CheckSessionTimeout(RecordActivity(s, t), t + 30 * 60 * 1000).timedOut
    ensures ClearSessionActivity(RecordActivity(s, t)).lastActivity.None?
  {
  }
}
