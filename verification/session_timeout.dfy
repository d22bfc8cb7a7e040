/** The session-timeout hook: every five seconds it asks the security
    service whether the session has timed out or is in its last two minutes,
    and keeps a warning flag and the remaining seconds for the page; user
    interaction and "extend session" record activity.

    A tick is one call of the interval's callback, given the security records
    and the clock; the callbacks it would call are reported as effects. */
module SessionTimeout {
  import opened Wrappers
  import Security

  const CheckIntervalMs: int := 5000

  /** The hook's React state. */
  datatype HookState = HookState(showWarning: bool, remainingSeconds: int)

  /** Which of the page's callbacks a tick calls. */
  datatype Effects = Effects(timeout: bool, warning: bool)

  const Initial: HookState := HookState(false, 0)

  /** `checkTimeout`. Signed out: the warning is hidden. Timed out: the
      warning is hidden and `onTimeout` is called. Otherwise the remaining
      seconds are stored and the flag follows `shouldShowTimeoutWarning`,
      calling `onWarning` only when the flag goes up. */
  function Tick(h: HookState, isAuthenticated: bool, s: Security.Store, now: int): (r: (HookState, Effects))
    ensures r.0.showWarning <==> isAuthenticated && Security.ShouldShowTimeoutWarning(s, now)
    ensures r.1.timeout <==> isAuthenticated && Security.CheckSessionTimeout(s, now).timedOut
    ensures r.1.warning <==>
      isAuthenticated && Security.ShouldShowTimeoutWarning(s, now) && !h.showWarning
    ensures isAuthenticated && !Security.CheckSessionTimeout(s, now).timedOut ==>
      r.0.remainingSeconds == Security.TimeUntilTimeout(s, now)
    ensures !isAuthenticated || Security.CheckSessionTimeout(s, now).timedOut ==>
      r.0.remainingSeconds == h.remainingSeconds
  {
    if !isAuthenticated then (h.(showWarning := false), Effects(false, false))
    else
      var status := Security.CheckSessionTimeout(s, now);
      if status.timedOut then
        assert !Security.ShouldShowTimeoutWarning(s, now);
        (h.(showWarning := false), Effects(true, false))
      else
        var h1 := h.(remainingSeconds := status.remainingSeconds);
        var shouldWarn := Security.ShouldShowTimeoutWarning(s, now);
        if shouldWarn && !h.showWarning then (h1.(showWarning := true), Effects(false, true))
        else if !shouldWarn && h.showWarning then (h1.(showWarning := false), Effects(false, false))
        else (h1, Effects(false, false))
  }

  /** `resetTimeout`, run on mouse, key, scroll and touch events: while
      signed in it records activity and hides the warning. */
  function ResetTimeout(h: HookState, isAuthenticated: bool, s: Security.Store, now: int): (r: (HookState, Security.Store))
    ensures isAuthenticated ==> !r.0.showWarning && r.1.lastActivity == Some(now)
    ensures isAuthenticated ==> r.1.rateLimit == s.rateLimit && r.1.lockout == s.lockout
    ensures !isAuthenticated ==> r == (h, s)
  {
    if isAuthenticated then (h.(showWarning := false), Security.RecordActivity(s, now)) else (h, s)
  }

  /** `extendSession`: reset, and hide the warning in any case. */
  function ExtendSession(h: HookState, isAuthenticated: bool, s: Security.Store, now: int): (r: (HookState, Security.Store))
    ensures !r.0.showWarning
    ensures r.1 == ResetTimeout(h, isAuthenticated, s, now).1
  {
    var (h1, s1) := ResetTimeout(h, isAuthenticated, s, now);
    (h1.(showWarning := false), s1)
  }

  /** `onWarning` is called once per warning period: a second tick that still
      finds the session in its last two minutes does not call it again. */
  lemma WarningCalledOnce(h: HookState, s: Security.Store, t1: int, t2: int)
    requires Security.ShouldShowTimeoutWarning(s, t1)
    ensures !Tick(Tick(h, true, s, t1).0, true, s, t2).1.warning
  {
  }

  /** Extending the session hides the warning, and ticks in the next 28
      minutes neither warn nor time out. */
  lemma ExtendDefersWarning(h: HookState, s: Security.Store, t: int, later: int)
    requires t <= later < t + Security.SessionTimeout - 1000 * Security.WarningThresholdSeconds
    ensures var (h1, s1) := ExtendSession(h, true, s, t);
      && !h1.showWarning
      && Tick(h1, true, s1, later).1 == Effects(false, false)
      && !Tick(h1, true, s1, later).0.showWarning
  {
    var (h1, s1) := ExtendSession(h, true, s, t);
  }

  /** Thirty minutes of silence after activity: the tick at that moment calls
      `onTimeout` and hides the warning. */
  lemma SilenceTimesOut(h: HookState, s: Security.Store, t: int, later: int)
    requires later >= t + Security.SessionTimeout
    ensures Tick(h, true, Security.RecordActivity(s, t), later).1 == Effects(true, false)
    ensures !Tick(h, true, Security.RecordActivity(s, t), later).0.showWarning
  {
  }
}
