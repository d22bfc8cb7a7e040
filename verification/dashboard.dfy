/** The dashboard's activity panel: the entries it shows, how long ago each
    happened, and the label and colour of each action. */
module Dashboard {
  import opened Wrappers
  import opened Seqs
  import opened Text
  import opened Ordering
  import opened Activity

  const MinuteMs: int := 60000

  /** How an age is shown: the branch of `formatTimestamp` taken, with its
      count. */
  datatype Age = JustNow | Minutes(n: int) | Hours(n: int) | Days(n: int) | OnDate

  function Rank(a: Age): nat {
    match a
    case JustNow => 0
    case Minutes(_) => 1
    case Hours(_) => 2
    case Days(_) => 3
    case OnDate => 4
  }

  /** Flooring minutes to hours is flooring milliseconds to hours. */
  lemma HoursFloor(x: int)
    ensures (x / MinuteMs) / 60 == x / HourMs
  {
    var q, h := x / MinuteMs, (x / MinuteMs) / 60;
    assert MinuteMs * q <= x < MinuteMs * q + MinuteMs;
    assert 60 * h <= q < 60 * h + 60;
    assert HourMs * h <= x < HourMs * h + HourMs;
  }

  /** Flooring hours to days is flooring milliseconds to days. */
  lemma DaysFloor(x: int)
    ensures (x / HourMs) / 24 == x / DayMs
  {
    var q, d := x / HourMs, (x / HourMs) / 24;
    assert HourMs * q <= x < HourMs * q + HourMs;
    assert 24 * d <= q < 24 * d + 24;
    assert DayMs * d <= x < DayMs * d + DayMs;
  }

  /** The branch for a difference of `diffMs` milliseconds. Whole minutes,
      hours and days are floored, so a timestamp in the future, whose
      difference is negative, is "just now" too. */
  function AgeOf(diffMs: int): (a: Age)
    ensures a == JustNow <==> diffMs < MinuteMs
    ensures a.Minutes? <==> MinuteMs <= diffMs < HourMs
    ensures a.Hours? <==> HourMs <= diffMs < DayMs
    ensures a.Days? <==> DayMs <= diffMs < 7 * DayMs
    ensures a == OnDate <==> diffMs >= 7 * DayMs
    ensures a.Minutes? ==> 1 <= a.n < 60 && a.n * MinuteMs <= diffMs < (a.n + 1) * MinuteMs
    ensures a.Hours? ==> 1 <= a.n < 24 && a.n * HourMs <= diffMs < (a.n + 1) * HourMs
    ensures a.Days? ==> 1 <= a.n < 7 && a.n * DayMs <= diffMs < (a.n + 1) * DayMs
  {
    var mins := diffMs / MinuteMs;
    HoursFloor(diffMs);
    var hours := mins / 60;
    DaysFloor(diffMs);
    var days := hours / 24;
    if mins < 1 then JustNow
    else if mins < 60 then Minutes(mins)
    else if hours < 24 then Hours(hours)
    else if days < 7 then Days(days)
    else OnDate
  }

  /** The unit shown never gets smaller as the difference grows. */
  lemma AgeMonotone(d1: int, d2: int)
    requires d1 <= d2
    ensures Rank(AgeOf(d1)) <= Rank(AgeOf(d2))
  {
  }

  /** "<n> <unit> ago", with an 's' when `n` is more than one. */
  function Ago(n: int, unit: string): string {
    IntToString(n) + " " + unit + (if n > 1 then "s" else "") + " ago"
  }

  /** `formatTimestamp`: the age of `timestamp` at `now`; `localDate` is the
      browser's local date text for the timestamp, shown after a week. */
  function FormatTimestamp(timestamp: int, now: int, localDate: string): (r: string)
    ensures now - timestamp < MinuteMs ==> r == "Just now"
    ensures MinuteMs <= now - timestamp < 7 * DayMs ==> r != "Just now"
    ensures now - timestamp >= 7 * DayMs ==> r == localDate
    ensures AgeOf(now - timestamp).Minutes? ==> r == Ago(AgeOf(now - timestamp).n, "min")
    ensures AgeOf(now - timestamp).Hours? ==> r == Ago(AgeOf(now - timestamp).n, "hour")
    ensures AgeOf(now - timestamp).Days? ==> r == Ago(AgeOf(now - timestamp).n, "day")
  {
    match AgeOf(now - timestamp)
    case JustNow => "Just now"
    case Minutes(n) => AgoNotJustNow(n, "min"); Ago(n, "min")
    case Hours(n) => AgoNotJustNow(n, "hour"); Ago(n, "hour")
    case Days(n) => AgoNotJustNow(n, "day"); Ago(n, "day")
    case OnDate => localDate
  }

  lemma AgoNotJustNow(n: int, unit: string)
    requires n >= 1
    ensures Ago(n, unit) != "Just now"
  {
    var s := IntToString(n);
    assert s == NatToString(n) && |s| >= 1;
    assert Ago(n, unit)[0] == s[0];
    assert IsDigit(s[0]);
  }

  /** The unit takes an 's' exactly when the count is more than one. */
  lemma AgoPlural(n: int, unit: string)
    requires n >= 1
    ensures Ago(n, unit) == IntToString(n) + " " + unit + "s ago" <==> n > 1
  {
    if n == 1 {
      assert |Ago(n, unit)| < |IntToString(n) + " " + unit + "s ago"|;
    }
  }

  // ---------------------------------------------------------------------------
  // action labels

  /** The stored names of the eight actions. */
  const KnownActions: seq<string> :=
    ["login", "logout", "login_failed", "create", "update", "delete", "publish", "unpublish"]

  /** The known names are exactly the names actions are logged under. */
  lemma KnownActionsAreNames(action: string)
    ensures action in KnownActions <==> exists a: Action :: action == ActionName(a)
  {
    if action in KnownActions {
      var a :| 0 <= a < |KnownActions| && KnownActions[a] == action;
      var act := [Login, Logout, LoginFailed, Create, Update, Delete, Publish, Unpublish][a];
      assert action == ActionName(act);
    }
  }

  /** `getActionLabel`: the label of one of the eight known actions; any
      other action text is shown as it is. */
  function ActionLabel(action: string): (r: string)
    ensures action == "login" ==> r == "Logged in"
    ensures action == "logout" ==> r == "Logged out"
    ensures action == "login_failed" ==> r == "Failed login"
    ensures action == "create" ==> r == "Created"
    ensures action == "update" ==> r == "Updated"
    ensures action == "delete" ==> r == "Deleted"
    ensures action == "publish" ==> r == "Published"
    ensures action == "unpublish" ==> r == "Unpublished"
    ensures action !in KnownActions ==> r == action
  {
    match action
    case "login" => "Logged in"
    case "logout" => "Logged out"
    case "login_failed" => "Failed login"
    case "create" => "Created"
    case "update" => "Updated"
    case "delete" => "Deleted"
    case "publish" => "Published"
    case "unpublish" => "Unpublished"
    case _ => action
  }

  /** Every logged action gets its own label, different from its stored
      name, so the label tells the action apart. */
  lemma LabelsDistinct(a: Action, b: Action)
    ensures ActionLabel(ActionName(a)) != ActionName(a)
    ensures ActionLabel(ActionName(a)) == ActionLabel(ActionName(b)) ==> a == b
  {
  }

  /** `getActionColor`: the colour class of a known action, else 'text-ink'. */
  function ActionColor(action: string): (r: string)
    ensures action == "login" ==> r == "text-blue-600"
    ensures action == "logout" || action == "unpublish" ==> r == "text-gray-600"
    ensures action == "login_failed" || action == "delete" ==> r == "text-red-600"
    ensures action == "create" ==> r == "text-green-600"
    ensures action == "update" ==> r == "text-orange-600"
    ensures action == "publish" ==> r == "text-purple-600"
    ensures action !in KnownActions ==> r == "text-ink"
  {
    match action
    case "login" => "text-blue-600"
    case "logout" => "text-gray-600"
    case "login_failed" => "text-red-600"
    case "create" => "text-green-600"
    case "update" => "text-orange-600"
    case "delete" => "text-red-600"
    case "publish" => "text-purple-600"
    case "unpublish" => "text-gray-600"
    case _ => "text-ink"
  }

  /** Unknown actions are plain ink; every logged action is coloured. */
  lemma ColouredIffKnown(action: string)
    ensures ActionColor(action) != "text-ink" <==> exists a: Action :: action == ActionName(a)
  {
    KnownActionsAreNames(action);
  }

  // ---------------------------------------------------------------------------
  // the panel

  const PanelDays: int := 7
  const PanelSize: nat := 10

  /** Entries stamped newest first. */
  predicate NewestFirst(logs: seq<Entry>) {
    forall i, j :: 0 <= i < j < |logs| ==> logs[i].timestamp >= logs[j].timestamp
  }

  /** `loadActivity`: the first ten entries of the last seven days. */
  function LoadActivity(store: LogStore, now: int): (r: seq<Entry>)
    ensures |r| == Min(|GetRecentLogs(store, now, PanelDays)|, PanelSize)
    ensures r == GetRecentLogs(store, now, PanelDays)[..|r|]
    ensures forall e :: e in r ==> e in GetAllLogs(store) && e.timestamp >= now - PanelDays * DayMs
  {
    var recent := GetRecentLogs(store, now, PanelDays);
    recent[..Min(|recent|, PanelSize)]
  }

  /** A log kept newest first is shown newest first. */
  lemma PanelNewestFirst(store: LogStore, now: int)
    requires NewestFirst(GetAllLogs(store))
    ensures NewestFirst(LoadActivity(store, now))
  {
    var logs := GetAllLogs(store);
    var key := (e: Entry) => -e.timestamp;
    assert forall i, j :: 0 <= i < j < |logs| ==> key(logs[i]) <= key(logs[j]);
    FilterKeepsSorted(logs, Since(now - PanelDays * DayMs), key);
  }

  /** Logging with a clock that has not gone back keeps the log newest
      first, so the panel's order holds for every log built by `log`. */
  lemma LogKeepsNewestFirst(store: LogStore, p: LogParams, id: string, now: int)
    requires NewestFirst(GetAllLogs(store))
    requires forall e :: e in GetAllLogs(store) ==> e.timestamp <= now
    ensures NewestFirst(GetAllLogs(Log(store, p, id, now)))
  {
    var old_, logs := GetAllLogs(store), GetAllLogs(Log(store, p, id, now));
    forall i, j | 0 <= i < j < |logs| ensures logs[i].timestamp >= logs[j].timestamp {
      assert logs[j] == old_[j - 1];
      assert old_[j - 1] in old_;
      if i > 0 {
        assert logs[i] == old_[i - 1];
      }
    }
  }
}
