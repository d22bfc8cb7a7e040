/** The authentication service: email/password sign-in guarded by the
    lockout of the security service, failure counting with user-facing
    messages, sign-out, and an activity-log entry for every outcome.

    The identity provider is outside the model: a sign-in attempt is given
    what the provider would answer (`Outcome`), a sign-out whether the
    provider succeeded. The clock and the fresh log-entry id are parameters. */
module Auth {
  import opened Wrappers
  import opened Text
  import opened Seqs
  import Security
  import Activity

  datatype User = User(email: Option<string>)

  /** The provider's answer to a sign-in request: the signed-in user, or a
      rejection carrying the provider's error code, if it has one. */
  datatype Outcome = SignedIn(user: User) | Rejected(code: Option<string>)

  /** The service's own user, the provider's current user, the three
      security records and the activity log. */
  datatype State = State(
    currentUser: Option<User>,
    providerUser: Option<User>,
    security: Security.Store,
    logs: Activity.LogStore)

  /** `login` resolves to `true` or throws an error with a message. */
  datatype LoginResult = LoggedIn | Failed(message: string)

  // ---------------------------------------------------------------------------
  // messages

  /** The user-facing message for a provider error code. */
  function FriendlyMessage(code: Option<string>): string {
    if code == Some("auth/invalid-email") then "Invalid email address"
    else if code == Some("auth/user-disabled") then "This account has been disabled"
    else if code == Some("auth/user-not-found") then "No account found with this email"
    else if code == Some("auth/wrong-password") then "Incorrect password"
    else if code == Some("auth/invalid-credential") then "Invalid email or password"
    else "Login failed. Please try again."
  }

  const Remaining := " remaining)"
  const OneAttemptLeft := " attempt remaining)"
  const AttemptsLeft := " attempts remaining)"

  /** The count of attempts left, as the failure message ends. */
  function AttemptsNote(n: int): string {
    " (" + IntToString(n) + AttemptsWord(n)
  }

  /** The note says "attempt" in the singular exactly when one is left. */
  lemma AttemptsNoteSingular(n: int)
    ensures var r := AttemptsNote(n);
      && |r| > |OneAttemptLeft|
      && (n == 1 <==> r[|r| - |OneAttemptLeft|..] == OneAttemptLeft)
      && (n == 1 ==> r == " (1" + OneAttemptLeft)
  {
    var head, w := " (" + IntToString(n), AttemptsWord(n);
    var r := head + w;
    assert AttemptsNote(n) == r;
    SuffixOfConcat(head, w, |OneAttemptLeft|);
    if n == 1 {
      assert IntToString(n) == "1";
      assert w == OneAttemptLeft;
    } else {
      assert w == AttemptsLeft;
      var tail := w[|w| - |OneAttemptLeft|..];
      assert tail[0] == 'a' != OneAttemptLeft[0];
    }
  }

  /** The first two parts of `a + b + c` can be read back by position. */
  lemma ThreeParts(a: string, b: string, c: string)
    ensures StartsWith(a + b + c, a)
    ensures (a + b + c)[|a|..|a| + |b|] == b
  {
    var s := a + b + c;
    assert s[..|a|] == a;
    assert s[|a|..|a| + |b|] == b;
  }

  /** The last `k` characters of `a + b` are those of `b` when `b` has `k`. */
  lemma SuffixOfConcat(a: string, b: string, k: nat)
    requires k <= |b|
    ensures (a + b)[|a + b| - k..] == b[|b| - k..]
  {
  }

  function AttemptsWord(n: int): (r: string)
    ensures |r| > 0 && r[0] == ' '
  {
    if n == 1 then OneAttemptLeft else AttemptsLeft
  }

  /** The message thrown after a rejected sign-in: the friendly message, and
      the count of attempts left unless this failure locked the account. */
  function FailureMessage(code: Option<string>, v: Security.FailedLogin): (m: string)
    ensures StartsWith(m, FriendlyMessage(code))
    ensures m == FriendlyMessage(code) <==> v.shouldLockout || v.attemptsRemaining <= 0
  {
    var base := FriendlyMessage(code);
    if !v.shouldLockout && v.attemptsRemaining > 0 then
      assert (base + AttemptsNote(v.attemptsRemaining))[..|base|] == base;
      base + AttemptsNote(v.attemptsRemaining)
    else base
  }

  /** While attempts are left and this failure did not lock the account, the
      message is the friendly message followed by the count of attempts left:
      after the friendly text and " (" come the count's digits, and the
      message ends in " remaining)". */
  lemma FailureMessageNotesAttempts(code: Option<string>, v: Security.FailedLogin)
    requires !v.shouldLockout && v.attemptsRemaining > 0
    ensures FailureMessage(code, v) == FriendlyMessage(code) + AttemptsNote(v.attemptsRemaining)
    ensures var m, head, d := FailureMessage(code, v), FriendlyMessage(code) + " (", IntToString(v.attemptsRemaining);
      && StartsWith(m, head)
      && |m| >= |head| + |d| + |Remaining|
      && m[|head|..|head| + |d|] == d
      && m[|m| - |Remaining|..] == Remaining
  {
    WordEndsRemaining(v.attemptsRemaining);
    ReadNote(FriendlyMessage(code), IntToString(v.attemptsRemaining), AttemptsWord(v.attemptsRemaining), Remaining);
  }

  /** Both forms of the word end in " remaining)". */
  lemma WordEndsRemaining(n: int)
    ensures |AttemptsWord(n)| >= |Remaining|
    ensures AttemptsWord(n)[|AttemptsWord(n)| - |Remaining|..] == Remaining
  {
    assert OneAttemptLeft == " attempt" + Remaining;
    assert AttemptsLeft == " attempts" + Remaining;
  }

  /** In `b + (" (" + d + w)`, the digits `d` follow `b + " ("`, and the
      message ends as `w` does. */
  lemma ReadNote(b: string, d: string, w: string, tail: string)
    requires |w| >= |tail| && w[|w| - |tail|..] == tail
    ensures var m, head := b + (" (" + d + w), b + " (";
      && StartsWith(m, head)
      && |m| >= |head| + |d| + |tail|
      && m[|head|..|head| + |d|] == d
      && m[|m| - |tail|..] == tail
  {
    var m, head := b + (" (" + d + w), b + " (";
    assert m == head + d + w;
    ThreeParts(head, d, w);
    SuffixOfConcat(head + d, w, |tail|);
  }

  /** In digits followed by a blank, the first blank is the one after the
      digits. */
  lemma FirstBlankAfterDigits(d: string, rest: string)
    requires forall i :: 0 <= i < |d| ==> IsDigit(d[i])
    requires |rest| > 0 && rest[0] == ' '
    ensures FindFirst(d + rest, " ") == Some(|d|)
  {
    var s := d + rest;
    assert s[|d|..|d| + 1] == " ";
    forall j | 0 <= j < |d| ensures !OccursAt(s, j, " ") {
      assert s[j..j + 1][0] == d[j];
    }
    FindFirstIs(s, " ", |d|);
  }

  /** Distinct counts give distinct notes: the message tells the user
      exactly how many attempts are left. */
  lemma AttemptsNoteInjective(a: nat, b: nat)
    requires AttemptsNote(a) == AttemptsNote(b)
    ensures a == b
  {
    NoteShape(a);
    NoteShape(b);
    DigitsBeforeBlank(NatToString(a), AttemptsWord(a), NatToString(b), AttemptsWord(b));
    NatToStringInjective(a, b);
  }

  lemma NoteShape(n: nat)
    ensures AttemptsNote(n)[2..] == NatToString(n) + AttemptsWord(n)
  {
    assert IntToString(n) == NatToString(n);
  }

  /** Two digit strings each followed by a blank are equal when the whole
      texts are. */
  lemma DigitsBeforeBlank(x: string, u: string, y: string, v: string)
    requires forall i :: 0 <= i < |x| ==> IsDigit(x[i])
    requires forall i :: 0 <= i < |y| ==> IsDigit(y[i])
    requires |u| > 0 && u[0] == ' ' && |v| > 0 && v[0] == ' '
    requires x + u == y + v
    ensures x == y
  {
    FirstBlankAfterDigits(x, u);
    FirstBlankAfterDigits(y, v);
    assert x == (x + u)[..|x|];
    assert y == (y + v)[..|y|];
  }

  /** Two failure messages for the same code that both report attempts left
      report the same number only when they are the same message. */
  lemma FailureMessageNamesAttempts(code: Option<string>, v: Security.FailedLogin, w: Security.FailedLogin)
    requires !v.shouldLockout && v.attemptsRemaining > 0
    requires !w.shouldLockout && w.attemptsRemaining > 0
    requires FailureMessage(code, v) == FailureMessage(code, w)
    ensures v.attemptsRemaining == w.attemptsRemaining
  {
    var base := FriendlyMessage(code);
    assert FailureMessage(code, v)[|base|..] == AttemptsNote(v.attemptsRemaining);
    assert FailureMessage(code, w)[|base|..] == AttemptsNote(w.attemptsRemaining);
    AttemptsNoteInjective(v.attemptsRemaining, w.attemptsRemaining);
  }

  /** The whole minutes, rounded up, of a lockout's remaining seconds. */
  function LockoutMinutes(remainingSeconds: int): (m: int)
    ensures 60 * (m - 1) < remainingSeconds <= 60 * m
  {
    Security.CeilDiv(remainingSeconds, 60)
  }

  const LockedPrefix := "Account locked due to too many failed attempts. Try again in "
  const OneMinute := " minute."
  const Minutes := " minutes."

  /** The message thrown while the account is locked. */
  function LockedMessage(minutes: int): string {
    LockedPrefix + IntToString(minutes) + (if minutes == 1 then OneMinute else Minutes)
  }

  /** The locked message names the minutes left, with "minute" in the
      singular exactly when one is left. */
  lemma LockedMessageNamesMinutes(minutes: int)
    ensures var r := LockedMessage(minutes);
      && StartsWith(r, LockedPrefix) && |r| >= |LockedPrefix| + |IntToString(minutes)| + |OneMinute|
      && r[|LockedPrefix|..|LockedPrefix| + |IntToString(minutes)|] == IntToString(minutes)
      && (minutes == 1 <==> r[|r| - |OneMinute|..] == OneMinute)
      && (minutes == 1 ==> r == LockedPrefix + "1" + OneMinute)
  {
    var d := IntToString(minutes);
    var unit := if minutes == 1 then OneMinute else Minutes;
    SuffixOfConcat(LockedPrefix + d, unit, |OneMinute|);
    ThreeParts(LockedPrefix, d, unit);
    assert Minutes[|Minutes| - |OneMinute|] == 'm';
    assert minutes == 1 ==> d == "1";
  }

  // ---------------------------------------------------------------------------
  // sign-in and sign-out

  function AuthLog(action: Activity.Action, email: Option<string>, details: string): Activity.LogParams {
    Activity.LogParams(action, Activity.Auth, None, None, email, Some(details))
  }

  /** `login(email, password)`. The lockout check comes first: while locked
      the provider is not asked, the attempt is logged and a locked message
      names the minutes left. A sign-in the provider accepts clears the
      failure count, records activity and logs the login; one it rejects
      counts a failure, is logged with the provider's code and reports the
      attempts left. */
  function Login(st: State, email: string, outcome: Outcome, now: int, id: string): (r: (LoginResult, State))
    ensures |Activity.GetAllLogs(r.1.logs)| == Min(|Activity.GetAllLogs(st.logs)| + 1, Activity.MaxLogs)
    ensures var (status, sec) := Security.IsLockedOut(st.security, now);
      && (status.Locked? ==>
            && r.0 == Failed(LockedMessage(LockoutMinutes(status.remainingTime)))
            && r.1.security == st.security
            && r.1.currentUser == st.currentUser && r.1.providerUser == st.providerUser
            && Activity.GetAllLogs(r.1.logs)[0].action == Activity.LoginFailed
            && Activity.GetAllLogs(r.1.logs)[0].userEmail == Some(email))
      && (status.Unlocked? && outcome.SignedIn? ==>
            && r.0 == LoggedIn
            && r.1.currentUser == Some(outcome.user) && r.1.providerUser == Some(outcome.user)
            && r.1.security.rateLimit.None? && r.1.security.lockout.None?
            && r.1.security.lastActivity == Some(now)
            && Activity.GetAllLogs(r.1.logs)[0].action == Activity.Login
            && Activity.GetAllLogs(r.1.logs)[0].userEmail == outcome.user.email)
      && (status.Unlocked? && outcome.Rejected? ==>
            var (v, sec') := Security.RecordFailedLogin(sec, now);
            && r.0 == Failed(FailureMessage(outcome.code, v))
            && r.1.security == sec'
            && r.1.currentUser == st.currentUser && r.1.providerUser == st.providerUser
            && Activity.GetAllLogs(r.1.logs)[0].action == Activity.LoginFailed
            && Activity.GetAllLogs(r.1.logs)[0].details ==
                 Some("Failed login: " + Activity.OrElse(outcome.code, "unknown error")))
    ensures Activity.GetAllLogs(r.1.logs)[1..] ==
      Activity.GetAllLogs(st.logs)[..|Activity.GetAllLogs(r.1.logs)| - 1]
  {
    var (status, sec) := Security.IsLockedOut(st.security, now);
    match status
    case Locked(remaining) =>
      var minutes := LockoutMinutes(remaining);
      var details := "Account locked - " + IntToString(minutes) + " minutes remaining";
      var logs := Activity.Log(st.logs, AuthLog(Activity.LoginFailed, Some(email), details), id, now);
      (Failed(LockedMessage(minutes)), st.(logs := logs))
    case Unlocked =>
      match outcome
      case SignedIn(user) =>
        var sec' := Security.RecordActivity(Security.ClearFailedLoginAttempts(sec), now);
        var logs := Activity.Log(st.logs, AuthLog(Activity.Login, user.email, "Successfully logged in"), id, now);
        (LoggedIn, State(Some(user), Some(user), sec', logs))
      case Rejected(code) =>
        var (v, sec') := Security.RecordFailedLogin(sec, now);
        var details := "Failed login: " + Activity.OrElse(code, "unknown error");
        var logs := Activity.Log(st.logs, AuthLog(Activity.LoginFailed, Some(email), details), id, now);
        (Failed(FailureMessage(code, v)), st.(security := sec', logs := logs))
  }

  /** While the account is locked the provider's answer makes no difference:
      the attempt never reaches it. */
  lemma LockedIgnoresProvider(st: State, email: string, a: Outcome, b: Outcome, now: int, id: string)
    requires Security.IsLockedOut(st.security, now).0.Locked?
    ensures Login(st, email, a, now, id) == Login(st, email, b, now, id)
  {
  }

  /** A successful sign-in after failures starts the count afresh: the next
      rejection reports four attempts left. */
  lemma SuccessResetsAttempts(st: State, email: string, user: User, code: Option<string>, t1: int, t2: int, id1: string, id2: string)
    requires Security.IsLockedOut(st.security, t1).0.Unlocked?
    ensures var st1 := Login(st, email, SignedIn(user), t1, id1).1;
      Login(st1, email, Rejected(code), t2, id2).0 == Failed(FailureMessage(code, Security.FailedLogin(false, 4)))
  {
  }

  /** One rejected attempt in a window of `k` earlier failures, with no
      lockout in force. */
  lemma RejectedStep(st: State, email: string, code: Option<string>, now: int, id: string, k: nat, first: int)
    requires st.security.lockout.None?
    requires st.security.rateLimit == (if k == 0 then None else Some(Security.RateLimit(k, first)))
    requires k == 0 ==> now == first
    requires now - first <= Security.RateLimitWindow
    ensures var st' := Login(st, email, Rejected(code), now, id).1;
      && st'.security.rateLimit == Some(Security.RateLimit(k + 1, first))
      && (k + 1 < Security.MaxLoginAttempts ==> st'.security.lockout.None?)
      && (k + 1 >= Security.MaxLoginAttempts ==>
            st'.security.lockout == Some(Security.Lockout(now + Security.LockoutDuration, Security.MaxLoginAttempts)))
  {
  }

  /** Five rejected sign-ins within fifteen minutes of the first lock the
      account: a sixth attempt within fifteen minutes of the fifth is refused
      whatever the provider would say, with a locked message. */
  lemma FiveRejectionsLock(st: State, email: string, codes: seq<Option<string>>, times: seq<int>,
                           ids: seq<string>, later: int, outcome: Outcome, id: string)
    requires st.security.rateLimit.None? && st.security.lockout.None?
    requires |codes| == 5 && |times| == 5 && |ids| == 5
    requires forall i :: 0 <= i < 5 ==> times[i] - times[0] <= Security.RateLimitWindow
    requires times[4] <= later < times[4] + Security.LockoutDuration
    ensures
      var s1 := Login(st, email, Rejected(codes[0]), times[0], ids[0]).1;
      var s2 := Login(s1, email, Rejected(codes[1]), times[1], ids[1]).1;
      var s3 := Login(s2, email, Rejected(codes[2]), times[2], ids[2]).1;
      var s4 := Login(s3, email, Rejected(codes[3]), times[3], ids[3]).1;
      var s5 := Login(s4, email, Rejected(codes[4]), times[4], ids[4]).1;
      && Security.IsLockedOut(s5.security, later).0.Locked?
      && Login(s5, email, outcome, later, id).0.Failed?
      && Login(s5, email, outcome, later, id).1.security == s5.security
  {
    FiveRejectionsLockout(st, email, codes, times, ids);
    var s5 := RejectionsFrom(st, email, codes, times, ids);
    LockedRefuses(s5, email, outcome, later, id);
  }

  /** The state after the five rejected sign-ins of `FiveRejectionsLock`. */
  function RejectionsFrom(st: State, email: string, codes: seq<Option<string>>, times: seq<int>,
                          ids: seq<string>): State
    requires |codes| == 5 && |times| == 5 && |ids| == 5
  {
    var s1 := Login(st, email, Rejected(codes[0]), times[0], ids[0]).1;
    var s2 := Login(s1, email, Rejected(codes[1]), times[1], ids[1]).1;
    var s3 := Login(s2, email, Rejected(codes[2]), times[2], ids[2]).1;
    var s4 := Login(s3, email, Rejected(codes[3]), times[3], ids[3]).1;
    Login(s4, email, Rejected(codes[4]), times[4], ids[4]).1
  }

  /** The fifth rejection writes a fifteen-minute lockout from its own time. */
  lemma FiveRejectionsLockout(st: State, email: string, codes: seq<Option<string>>, times: seq<int>,
                              ids: seq<string>)
    requires st.security.rateLimit.None? && st.security.lockout.None?
    requires |codes| == 5 && |times| == 5 && |ids| == 5
    requires forall i :: 0 <= i < 5 ==> times[i] - times[0] <= Security.RateLimitWindow
    ensures RejectionsFrom(st, email, codes, times, ids).security.lockout
      == Some(Security.Lockout(times[4] + Security.LockoutDuration, Security.MaxLoginAttempts))
  {
    var first := times[0];
    assert times[1] - first <= Security.RateLimitWindow && times[2] - first <= Security.RateLimitWindow;
    assert times[3] - first <= Security.RateLimitWindow && times[4] - first <= Security.RateLimitWindow;
    var s1 := Login(st, email, Rejected(codes[0]), times[0], ids[0]).1;
    RejectedStep(st, email, codes[0], times[0], ids[0], 0, first);
    var s2 := Login(s1, email, Rejected(codes[1]), times[1], ids[1]).1;
    RejectedStep(s1, email, codes[1], times[1], ids[1], 1, first);
    var s3 := Login(s2, email, Rejected(codes[2]), times[2], ids[2]).1;
    RejectedStep(s2, email, codes[2], times[2], ids[2], 2, first);
    var s4 := Login(s3, email, Rejected(codes[3]), times[3], ids[3]).1;
    RejectedStep(s3, email, codes[3], times[3], ids[3], 3, first);
    RejectedStep(s4, email, codes[4], times[4], ids[4], 4, first);
  }

  /** A locked account refuses the attempt and keeps its security records. */
  lemma LockedRefuses(st: State, email: string, outcome: Outcome, now: int, id: string)
    requires Security.IsLockedOut(st.security, now).0.Locked?
    ensures Login(st, email, outcome, now, id).0.Failed?
    ensures Login(st, email, outcome, now, id).1.security == st.security
  {
  }

  /** `getUserEmail`: the first non-empty email of the service's user and
      then the provider's user. */
  function GetUserEmail(st: State): (r: Option<string>)
    ensures r.Some? ==> r.value != ""
    ensures st.currentUser.Some? && st.currentUser.value.email.Some? && st.currentUser.value.email.value != ""
      ==> r == st.currentUser.value.email
    ensures r.None? <==>
      && (st.currentUser.None? || st.currentUser.value.email.None? || st.currentUser.value.email.value == "")
      && (st.providerUser.None? || st.providerUser.value.email.None? || st.providerUser.value.email.value == "")
  {
    var own := if st.currentUser.Some? then st.currentUser.value.email else None;
    var provider := if st.providerUser.Some? then st.providerUser.value.email else None;
    if own.Some? && own.value != "" then own
    else if provider.Some? && provider.value != "" then provider
    else None
  }

  /** `logout`: when the provider signs out, both users are cleared, the
      activity time is forgotten and the logout is logged with the email
      read before signing out; when it fails, nothing changes and the error
      `Logout failed` is thrown. */
  function Logout(st: State, signOutSucceeds: bool, now: int, id: string): (r: (Option<string>, State))
    ensures !signOutSucceeds ==> r == (Some("Logout failed"), st)
    ensures signOutSucceeds ==> |Activity.GetAllLogs(r.1.logs)| >= 1
    ensures signOutSucceeds ==>
      && r.0.None?
      && r.1.currentUser.None? && r.1.providerUser.None?
      && r.1.security.lastActivity.None?
      && r.1.security.rateLimit == st.security.rateLimit && r.1.security.lockout == st.security.lockout
      && Activity.GetAllLogs(r.1.logs)[0].action == Activity.Logout
      && Activity.GetAllLogs(r.1.logs)[0].userEmail == GetUserEmail(st)
  {
    if !signOutSucceeds then (Some("Logout failed"), st)
    else
      var email := GetUserEmail(st);
      var logs := Activity.Log(st.logs, AuthLog(Activity.Logout, email, "Successfully logged out"), id, now);
      (None, State(None, None, Security.ClearSessionActivity(st.security), logs))
  }

  /** `isAuthenticated`: both the service and the provider hold a user. */
  predicate IsAuthenticated(st: State) {
    st.currentUser.Some? && st.providerUser.Some?
  }

  /** A sign-in authenticates the session exactly when the lockout lets it
      through and the provider accepts it; a locked or rejected attempt leaves
      the session as authenticated as it was. */
  lemma LoginAuthenticates(st: State, email: string, outcome: Outcome, now: int, id: string)
    ensures var unlocked := Security.IsLockedOut(st.security, now).0.Unlocked?;
      IsAuthenticated(Login(st, email, outcome, now, id).1) <==>
        (unlocked && outcome.SignedIn?) || IsAuthenticated(st)
  {
  }

  /** `recordActivity`: only an authenticated session records activity. */
  function RecordActivity(st: State, now: int): (r: State)
    ensures IsAuthenticated(st) ==> r.security.lastActivity == Some(now)
    ensures !IsAuthenticated(st) ==> r == st
    ensures r.security.rateLimit == st.security.rateLimit && r.security.lockout == st.security.lockout
    ensures r.currentUser == st.currentUser && r.providerUser == st.providerUser && r.logs == st.logs
  {
    if IsAuthenticated(st) then st.(security := Security.RecordActivity(st.security, now)) else st
  }

  /** The provider's auth-state listener: adopts the reported user and, when
      there is one, records activity. The provider reports its own current
      user, so both users become the reported one. */
  function AuthStateChanged(st: State, user: Option<User>, now: int): (r: State)
    ensures r.currentUser == user && r.providerUser == user
    ensures IsAuthenticated(r) <==> user.Some?
    ensures user.Some? ==> r.security.lastActivity == Some(now)
    ensures user.None? ==> r.security == st.security
    ensures r.logs == st.logs
  {
    var st' := st.(currentUser := user, providerUser := user);
    if user.Some? then st'.(security := Security.RecordActivity(st'.security, now)) else st'
  }

  /** A session the provider restores on page load counts as signed in, so
      later activity is recorded. */
  lemma RestoredSessionRecordsActivity(st: State, u: User, t1: int, t2: int)
    ensures var restored := AuthStateChanged(st, Some(u), t1);
      && IsAuthenticated(restored)
      && RecordActivity(restored, t2).security.lastActivity == Some(t2)
  {
    var restored := AuthStateChanged(st, Some(u), t1);
    assert IsAuthenticated(restored);
  }

  /** A login followed by a successful logout leaves no one authenticated
      and no activity time behind, and the log's two newest entries are the
      logout and then the login. */
  lemma LoginThenLogout(st: State, email: string, user: User, t1: int, t2: int, id1: string, id2: string)
    requires Security.IsLockedOut(st.security, t1).0.Unlocked?
    ensures var st1 := Login(st, email, SignedIn(user), t1, id1).1;
      var st2 := Logout(st1, true, t2, id2).1;
      && IsAuthenticated(st1)
      && !IsAuthenticated(st2)
      && st2.security.lastActivity.None?
      && Activity.GetAllLogs(st2.logs)[0].action == Activity.Logout
      && Activity.GetAllLogs(st2.logs)[0].userEmail == (if user.email.Some? && user.email.value != "" then user.email else None)
      && Activity.GetAllLogs(st2.logs)[1].action == Activity.Login
  {
    var st1 := Login(st, email, SignedIn(user), t1, id1).1;
    var st2 := Logout(st1, true, t2, id2).1;
    assert |Activity.GetAllLogs(st2.logs)| >= 2;
  }
}
