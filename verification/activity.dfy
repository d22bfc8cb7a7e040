/** The administrator activity log: an audit trail kept newest first under one
    storage key, capped at the 1000 most recent entries, with queries by time
    window, entity type and action, a CSV export and summary counts.
    Timestamps are epoch milliseconds; the clock is a parameter. */
module Activity {
  import opened Wrappers
  import opened Seqs
  import opened Text

  datatype Action = Login | Logout | LoginFailed | Create | Update | Delete | Publish | Unpublish

  datatype EntityType = Auth | Project | Blog | Profile | Skill | Config

  /** The stored spelling of an action. */
  function ActionName(a: Action): string {
    match a
    case Login => "login"
    case Logout => "logout"
    case LoginFailed => "login_failed"
    case Create => "create"
    case Update => "update"
    case Delete => "delete"
    case Publish => "publish"
    case Unpublish => "unpublish"
  }

  /** The stored spelling of an entity type. */
  function EntityTypeName(t: EntityType): string {
    match t
    case Auth => "auth"
    case Project => "project"
    case Blog => "blog"
    case Profile => "profile"
    case Skill => "skill"
    case Config => "config"
  }

  datatype Entry = Entry(
    id: string,
    action: Action,
    entityType: EntityType,
    entityId: Option<string>,
    entityName: Option<string>,
    userEmail: Option<string>,
    timestamp: int,
    details: Option<string>)

  /** What a caller passes to `log`. */
  datatype LogParams = LogParams(
    action: Action,
    entityType: EntityType,
    entityId: Option<string>,
    entityName: Option<string>,
    userEmail: Option<string>,
    details: Option<string>)

  const MaxLogs: nat := 1000
  const DayMs: int := 86400000
  const HourMs: int := 3600000

  /** The parsed contents of the log's storage key; `None` when the key is
      absent (or empty). */
  type LogStore = Option<seq<Entry>>

  /** `getAllLogs`: the stored list, or no entries when nothing is stored. */
  function GetAllLogs(store: LogStore): (r: seq<Entry>)
    ensures store.None? ==> r == []
    ensures store.Some? ==> r == store.value
  {
    store.GetOr([])
  }

  /** The entry `log` builds from its parameters, a fresh id and the clock. */
  function NewEntry(p: LogParams, id: string, now: int): (e: Entry)
    ensures e.id == id && e.timestamp == now
    ensures e.action == p.action && e.entityType == p.entityType
    ensures e.entityId == p.entityId && e.entityName == p.entityName
    ensures e.userEmail == p.userEmail && e.details == p.details
  {
    Entry(id, p.action, p.entityType, p.entityId, p.entityName, p.userEmail, now, p.details)
  }

  /** `unshift` followed by `slice(0, MaxLogs)`. */
  function Push(logs: seq<Entry>, e: Entry): seq<Entry> {
    ([e] + logs)[..Min(|logs| + 1, MaxLogs)]
  }

  /** `log`: the new entry goes first, the older entries follow in order, and
      only the oldest is dropped once the list is full. */
  function Log(store: LogStore, p: LogParams, id: string, now: int): (r: LogStore)
    ensures r.Some?
    ensures var old_ := GetAllLogs(store); var logs := GetAllLogs(r);
      && |logs| == Min(|old_| + 1, MaxLogs)
      && logs[0] == NewEntry(p, id, now)
      && logs[1..] == old_[..|logs| - 1]
  {
    Some(Push(GetAllLogs(store), NewEntry(p, id, now)))
  }

  /** Entries logged one after another, oldest first. */
  function PushAll(logs: seq<Entry>, es: seq<Entry>): seq<Entry>
    decreases |es|
  {
    if es == [] then logs else PushAll(Push(logs, es[0]), es[1..])
  }

  /** After logging `es` the log holds the newest entries first, followed by
      the earlier log, cut to the 1000 most recent. */
  lemma {:induction false} PushAllNewestFirst(logs: seq<Entry>, es: seq<Entry>)
    requires |logs| <= MaxLogs
    ensures PushAll(logs, es) == (Reverse(es) + logs)[..Min(|es| + |logs|, MaxLogs)]
    decreases |es|
  {
    if es != [] {
      var logs' := Push(logs, es[0]);
      PushAllNewestFirst(logs', es[1..]);
      var n := Min(|es| + |logs|, MaxLogs);
      var lhs := (Reverse(es[1..]) + logs')[..Min(|es| - 1 + |logs'|, MaxLogs)];
      var rhs := (Reverse(es) + logs)[..n];
      assert |lhs| == n;
      forall i | 0 <= i < n ensures lhs[i] == rhs[i] {
        if i >= |es| {
          assert lhs[i] == logs'[i - |es| + 1];
          assert logs'[i - |es| + 1] == logs[i - |es|];
        }
      }
    }
  }

  /** The cap holds after any number of entries, and a full log stays full. */
  lemma LogCapped(store: LogStore, p: LogParams, id: string, now: int)
    requires |GetAllLogs(store)| <= MaxLogs
    ensures |GetAllLogs(Log(store, p, id, now))| <= MaxLogs
    ensures |GetAllLogs(store)| == MaxLogs ==>
      GetAllLogs(Log(store, p, id, now)) == [NewEntry(p, id, now)] + GetAllLogs(store)[..MaxLogs - 1]
  {
  }

  /** `clearLogs` removes the storage key. */
  function ClearLogs(store: LogStore): (r: LogStore)
    ensures GetAllLogs(r) == []
  {
    None
  }

  // ---------------------------------------------------------------------------
  // queries

  /** The conditions the queries filter by. */
  function Since(cutoff: int): Entry -> bool { (e: Entry) => e.timestamp >= cutoff }
  function EntityIs(t: EntityType): Entry -> bool { (e: Entry) => e.entityType == t }
  function ActionIs(a: Action): Entry -> bool { (e: Entry) => e.action == a }
  function FailedSince(cutoff: int): Entry -> bool {
    (e: Entry) => e.action == LoginFailed && e.entityType == Auth && e.timestamp >= cutoff
  }

  /** `getRecentLogs(days)`: the entries stamped at or after `days` days ago
      (the cutoff is inclusive), in stored order. */
  function GetRecentLogs(store: LogStore, now: int, days: int): (r: seq<Entry>)
    ensures r == Filter(GetAllLogs(store), Since(now - days * DayMs))
    ensures forall e :: e in r <==> e in GetAllLogs(store) && e.timestamp >= now - days * DayMs
    ensures |r| <= |GetAllLogs(store)|
  {
    var r := Filter(GetAllLogs(store), Since(now - days * DayMs));
    forall e ensures e in r <==> e in GetAllLogs(store) && e.timestamp >= now - days * DayMs {
      FilterMembers(GetAllLogs(store), Since(now - days * DayMs), e);
    }
    r
  }

  /** `getLogsByEntity`: the stored entries of one entity type, in stored
      order. */
  function GetLogsByEntity(store: LogStore, t: EntityType): (r: seq<Entry>)
    ensures r == Filter(GetAllLogs(store), EntityIs(t))
    ensures forall e :: e in r <==> e in GetAllLogs(store) && e.entityType == t
  {
    var r := Filter(GetAllLogs(store), EntityIs(t));
    forall e ensures e in r <==> e in GetAllLogs(store) && e.entityType == t {
      FilterMembers(GetAllLogs(store), EntityIs(t), e);
    }
    r
  }

  /** `getLogsByAction`: the stored entries with one action, in stored order. */
  function GetLogsByAction(store: LogStore, a: Action): (r: seq<Entry>)
    ensures r == Filter(GetAllLogs(store), ActionIs(a))
    ensures forall e :: e in r <==> e in GetAllLogs(store) && e.action == a
  {
    var r := Filter(GetAllLogs(store), ActionIs(a));
    forall e ensures e in r <==> e in GetAllLogs(store) && e.action == a {
      FilterMembers(GetAllLogs(store), ActionIs(a), e);
    }
    r
  }

  /** `getFailedLoginAttempts(hours)`: failed sign-ins of the auth entity in
      the last `hours` hours, in stored order. */
  function GetFailedLoginAttempts(store: LogStore, now: int, hours: int): (r: seq<Entry>)
    ensures r == Filter(GetAllLogs(store), FailedSince(now - hours * HourMs))
    ensures forall e :: e in r <==>
      && e in GetAllLogs(store)
      && e.action == LoginFailed && e.entityType == Auth
      && e.timestamp >= now - hours * HourMs
  {
    var r := Filter(GetAllLogs(store), FailedSince(now - hours * HourMs));
    forall e ensures e in r <==> e in GetAllLogs(store) && FailedSince(now - hours * HourMs)(e) {
      FilterMembers(GetAllLogs(store), FailedSince(now - hours * HourMs), e);
    }
    r
  }

  /** Below the cap, logging an entry puts it at the head of every query it
      matches and leaves the other queries as they were. */
  lemma LogPrependsToQueries(store: LogStore, p: LogParams, id: string, now: int, t: EntityType, a: Action)
    requires |GetAllLogs(store)| < MaxLogs
    ensures var e := NewEntry(p, id, now); var after := Log(store, p, id, now);
      && GetLogsByEntity(after, t) == (if p.entityType == t then [e] else []) + GetLogsByEntity(store, t)
      && GetLogsByAction(after, a) == (if p.action == a then [e] else []) + GetLogsByAction(store, a)
  {
    var e := NewEntry(p, id, now);
    var logs := GetAllLogs(store);
    assert GetAllLogs(Log(store, p, id, now)) == [e] + logs;
    PrependFiltered(e, logs, EntityIs(t));
    PrependFiltered(e, logs, ActionIs(a));
  }

  lemma PrependFiltered(e: Entry, logs: seq<Entry>, q: Entry -> bool)
    ensures Filter([e] + logs, q) == (if q(e) then [e] else []) + Filter(logs, q)
  {
    FilterConcat([e], logs, q);
    assert Filter([e], q) == (if q(e) then [e] else []) + Filter([], q);
  }

  /** A wider window never reports fewer failed sign-ins: every failure
      within `h1` hours is also within `h2 >= h1` hours. */
  lemma FailedLoginWindowMonotone(store: LogStore, now: int, h1: int, h2: int)
    requires h1 <= h2
    ensures forall e :: e in GetFailedLoginAttempts(store, now, h1) ==> e in GetFailedLoginAttempts(store, now, h2)
  {
  }

  // ---------------------------------------------------------------------------
  // CSV export

  const HeaderFields: seq<string> :=
    ["Timestamp", "Action", "Entity Type", "Entity Name", "User Email", "Details"]

  /** `value || fallback` on an optional string: the empty string also falls
      back. */
  function OrElse(o: Option<string>, fallback: string): (r: string)
    ensures o.Some? && o.value != "" ==> r == o.value
    ensures o.None? || o.value == "" ==> r == fallback
  {
    if o.Some? && o.value != "" then o.value else fallback
  }

  /** The six cells exported for an entry; `localize` is the locale's
      rendering of the timestamp. */
  function Cells(e: Entry, localize: int -> string): (r: seq<string>)
    ensures |r| == |HeaderFields|
    ensures r[0] == localize(e.timestamp)
    ensures r[1] == ActionName(e.action) && r[2] == EntityTypeName(e.entityType)
    ensures r[3] == OrElse(e.entityName, "-")
    ensures r[4] == OrElse(e.userEmail, "Unknown")
    ensures r[5] == OrElse(e.details, "-")
    ensures e.entityName.None? ==> r[3] == "-"
    ensures e.userEmail.None? ==> r[4] == "Unknown"
    ensures e.details.None? ==> r[5] == "-"
  {
    [localize(e.timestamp), ActionName(e.action), EntityTypeName(e.entityType),
     OrElse(e.entityName, "-"), OrElse(e.userEmail, "Unknown"), OrElse(e.details, "-")]
  }

  /** Wraps a cell in double quotes, without escaping quotes inside it. */
  function Quote(cell: string): string { "\"" + cell + "\"" }

  function QuotedRow(cells: seq<string>): string {
    Join(seq(|cells|, k requires 0 <= k < |cells| => Quote(cells[k])), ",")
  }

  /** The lines of the export: the header, then one row per entry. */
  function CsvLines(logs: seq<Entry>, localize: int -> string): (r: seq<string>)
    ensures |r| == |logs| + 1
    ensures r[0] == Join(HeaderFields, ",")
    ensures forall i :: 0 <= i < |logs| ==> r[i + 1] == QuotedRow(Cells(logs[i], localize))
  {
    [Join(HeaderFields, ",")] + seq(|logs|, i requires 0 <= i < |logs| => QuotedRow(Cells(logs[i], localize)))
  }

  /** `exportToCSV`: the header line, then, when there are entries, a line
      break and their rows (see `ExportReadsBack`). */
  function ExportToCsv(store: LogStore, localize: int -> string): (r: string)
    ensures GetAllLogs(store) == [] ==> r == Join(HeaderFields, ",")
    ensures GetAllLogs(store) != [] ==> StartsWith(r, Join(HeaderFields, ",") + "\n")
  {
    var lines := CsvLines(GetAllLogs(store), localize);
    var r := Join(lines, "\n");
    assert GetAllLogs(store) != [] ==> r == (lines[0] + "\n") + Join(lines[1..], "\n");
    r
  }

  /** Reads a record of double-quoted fields as section 2 of RFC 4180 does:
      inside a field `""` stands for one quote, and a lone quote ends the
      field, which must then be followed by a comma or the end of the record. */
  function ReadQuotedRecord(s: string): Option<seq<string>>
    decreases |s|, 1
  {
    if |s| > 0 && s[0] == '"' then ReadField(s[1..], "") else None
  }

  function ReadField(s: string, acc: string): Option<seq<string>>
    decreases |s|, 0
  {
    if s == [] then None
    else if s[0] != '"' then ReadField(s[1..], acc + [s[0]])
    else if |s| >= 2 && s[1] == '"' then ReadField(s[2..], acc + ['"'])
    else if |s| == 1 then Some([acc])
    else if s[1] == ',' then
      match ReadQuotedRecord(s[2..])
      case None => None
      case Some(rest) => Some([acc] + rest)
    else None
  }

  lemma {:induction false} ReadFieldPlain(c: string, tail: string, acc: string)
    requires '"' !in c
    ensures ReadField(c + tail, acc) == ReadField(tail, acc + c)
    decreases |c|
  {
    if c != [] {
      assert (c + tail)[0] == c[0];
      assert (c + tail)[1..] == c[1..] + tail;
      ReadFieldPlain(c[1..], tail, acc + [c[0]]);
      assert acc + [c[0]] + c[1..] == acc + c;
    } else {
      assert c + tail == tail;
      assert acc + c == acc;
    }
  }

  /** A row of quoted cells with no double quote inside reads back as those
      cells. */
  lemma {:induction false} QuotedRowRoundTrip(cells: seq<string>)
    requires |cells| >= 1
    requires forall k :: 0 <= k < |cells| ==> '"' !in cells[k]
    ensures ReadQuotedRecord(QuotedRow(cells)) == Some(cells)
    decreases |cells|
  {
    var quoted := seq(|cells|, k requires 0 <= k < |cells| => Quote(cells[k]));
    var c := cells[0];
    if |cells| == 1 {
      var s := QuotedRow(cells);
      assert s == "\"" + c + "\"";
      assert s[1..] == c + "\"";
      ReadFieldPlain(c, "\"", "");
      assert "" + c == c;
      assert ReadField("\"", c) == Some([c]);
      assert cells == [c];
    } else {
      var rest := QuotedRow(cells[1..]);
      assert quoted[1..] == seq(|cells| - 1, k requires 0 <= k < |cells| - 1 => Quote(cells[1..][k]));
      var s := QuotedRow(cells);
      assert s == "\"" + c + "\"" + "," + rest;
      assert s[1..] == c + ("\"," + rest);
      ReadFieldPlain(c, "\"," + rest, "");
      assert "" + c == c;
      assert ("\"," + rest)[2..] == rest;
      QuotedRowRoundTrip(cells[1..]);
      assert [c] + cells[1..] == cells;
    }
  }

  /** The export does not escape embedded quotes, so a cell holding one is not
      read back: the quote is taken as the end of the field. */
  lemma EmbeddedQuoteNotRecovered()
    ensures ReadQuotedRecord(QuotedRow(["a\"b"])) == None
  {
    var s := QuotedRow(["a\"b"]);
    assert s == "\"a\"b\"";
    assert s[1..] == "a" + "\"b\"";
    ReadFieldPlain("a", "\"b\"", "");
  }

  lemma CellsHaveNo(e: Entry, localize: int -> string, c: char)
    requires c !in localize(e.timestamp)
    requires e.entityName.Some? ==> c !in e.entityName.value
    requires e.userEmail.Some? ==> c !in e.userEmail.value
    requires e.details.Some? ==> c !in e.details.value
    requires c != '-' && c !in "Unknown"
    requires c !in ActionName(e.action) && c !in EntityTypeName(e.entityType)
    ensures forall k :: 0 <= k < 6 ==> c !in Cells(e, localize)[k]
  {
  }

  /** A character that is not a quote or comma and not in any cell is not in
      the row. */
  lemma RowAvoids(cells: seq<string>, c: char)
    requires c != '"' && c != ','
    requires forall k :: 0 <= k < |cells| ==> c !in cells[k]
    ensures c !in QuotedRow(cells)
  {
    var quoted := seq(|cells|, k requires 0 <= k < |cells| => Quote(cells[k]));
    JoinAvoids(quoted, ",", c);
  }

  /** The free text of an entry: what the caller or the locale supplied. */
  predicate FreeTextAvoids(e: Entry, localize: int -> string, c: char) {
    && c !in localize(e.timestamp)
    && (e.entityName.Some? ==> c !in e.entityName.value)
    && (e.userEmail.Some? ==> c !in e.userEmail.value)
    && (e.details.Some? ==> c !in e.details.value)
  }

  lemma NamesAvoid(e: Entry)
    ensures '\n' !in ActionName(e.action) && '"' !in ActionName(e.action)
    ensures '\n' !in EntityTypeName(e.entityType) && '"' !in EntityTypeName(e.entityType)
  {
  }

  /** The row of an entry whose free text has no line break is one line. */
  lemma RowHasNoBreak(e: Entry, localize: int -> string)
    requires FreeTextAvoids(e, localize, '\n')
    ensures '\n' !in QuotedRow(Cells(e, localize))
  {
    NamesAvoid(e);
    CellsHaveNo(e, localize, '\n');
    RowAvoids(Cells(e, localize), '\n');
  }

  /** The row of an entry whose free text has no double quote reads back as
      the entry's cells. */
  lemma RowReadsBack(e: Entry, localize: int -> string)
    requires FreeTextAvoids(e, localize, '"')
    ensures ReadQuotedRecord(QuotedRow(Cells(e, localize))) == Some(Cells(e, localize))
  {
    NamesAvoid(e);
    CellsHaveNo(e, localize, '"');
    QuotedRowRoundTrip(Cells(e, localize));
  }

  /** Neither a comma nor a line break appears in a column name. */
  lemma HeaderFieldsPlain(k: nat)
    requires k < |HeaderFields|
    ensures ',' !in HeaderFields[k] && '\n' !in HeaderFields[k]
  {
    if k == 0 { assert HeaderFields[k] == "Timestamp"; }
    else if k == 1 { assert HeaderFields[k] == "Action"; }
    else if k == 2 { assert HeaderFields[k] == "Entity Type"; }
    else if k == 3 { assert HeaderFields[k] == "Entity Name"; }
    else if k == 4 { assert HeaderFields[k] == "User Email"; }
    else { assert HeaderFields[k] == "Details"; }
  }

  /** The header line reads back as the six column names. */
  lemma HeaderSplits()
    ensures '\n' !in Join(HeaderFields, ",")
    ensures SplitOn(Join(HeaderFields, ","), ",") == HeaderFields
  {
    forall k | 0 <= k < |HeaderFields|
      ensures ',' !in HeaderFields[k]
    {
      HeaderFieldsPlain(k);
    }
    HeaderHasNoBreak();
    SplitJoinChar(HeaderFields, ',');
  }

  /** The header is one line. */
  lemma HeaderHasNoBreak()
    ensures '\n' !in Join(HeaderFields, ",")
  {
    forall k | 0 <= k < |HeaderFields|
      ensures '\n' !in HeaderFields[k]
    {
      HeaderFieldsPlain(k);
    }
    JoinAvoids(HeaderFields, ",", '\n');
  }

  /** No line of the export holds a line break when no free text does. */
  lemma LinesHaveNoBreak(logs: seq<Entry>, localize: int -> string)
    requires forall i :: 0 <= i < |logs| ==> FreeTextAvoids(logs[i], localize, '\n')
    ensures forall k :: 0 <= k < |CsvLines(logs, localize)| ==> '\n' !in CsvLines(logs, localize)[k]
  {
    var lines := CsvLines(logs, localize);
    forall k | 0 <= k < |lines| ensures '\n' !in lines[k] {
      if k == 0 {
        HeaderHasNoBreak();
      } else {
        RowHasNoBreak(logs[k - 1], localize);
      }
    }
  }

  /** Splitting the export at line breaks gives back its lines when no free
      text holds a line break. */
  lemma ExportSplitsIntoLines(store: LogStore, localize: int -> string)
    requires forall i :: 0 <= i < |GetAllLogs(store)| ==> FreeTextAvoids(GetAllLogs(store)[i], localize, '\n')
    ensures SplitOn(ExportToCsv(store, localize), "\n") == CsvLines(GetAllLogs(store), localize)
  {
    LinesHaveNoBreak(GetAllLogs(store), localize);
    SplitJoinChar(CsvLines(GetAllLogs(store), localize), '\n');
  }

  /** The export is one header line followed by one line per stored entry,
      newest first; when no free text holds a line break or a double quote,
      each line reads back (RFC 4180) as exactly that entry's cells. */
  lemma ExportReadsBack(store: LogStore, localize: int -> string)
    requires forall i :: 0 <= i < |GetAllLogs(store)| ==> FreeTextAvoids(GetAllLogs(store)[i], localize, '\n')
    requires forall i :: 0 <= i < |GetAllLogs(store)| ==> FreeTextAvoids(GetAllLogs(store)[i], localize, '"')
    ensures var lines := SplitOn(ExportToCsv(store, localize), "\n");
      && |lines| == |GetAllLogs(store)| + 1
      && SplitOn(lines[0], ",") == HeaderFields
      && forall i :: 0 <= i < |GetAllLogs(store)| ==>
           ReadQuotedRecord(lines[i + 1]) == Some(Cells(GetAllLogs(store)[i], localize))
  {
    var logs := GetAllLogs(store);
    ExportSplitsIntoLines(store, localize);
    HeaderSplits();
    var lines := CsvLines(logs, localize);
    forall i | 0 <= i < |logs|
      ensures ReadQuotedRecord(lines[i + 1]) == Some(Cells(logs[i], localize))
    {
      RowReadsBack(logs[i], localize);
    }
  }

  // ---------------------------------------------------------------------------
  // statistics

  datatype Stats = Stats(
    totalActions: nat, logins: nat, failedLogins: nat,
    creates: nat, updates: nat, deletes: nat)

  function CountAction(logs: seq<Entry>, a: Action): nat {
    Count(logs, ActionIs(a))
  }

  /** `getStats(days)`: the number of entries of the last `days` days, and how
      many of them are sign-ins, failed sign-ins, creations, updates and
      deletions, so the five counts never exceed the total. */
  function GetStats(store: LogStore, now: int, days: int): (r: Stats)
    ensures var recent := GetRecentLogs(store, now, days);
      && r.totalActions == |recent|
      && r.logins == |GetLogsByAction(Some(recent), Login)|
      && r.failedLogins == |GetLogsByAction(Some(recent), LoginFailed)|
      && r.creates == |GetLogsByAction(Some(recent), Create)|
      && r.updates == |GetLogsByAction(Some(recent), Update)|
      && r.deletes == |GetLogsByAction(Some(recent), Delete)|
    ensures r.totalActions <= |GetAllLogs(store)|
    ensures r.logins + r.failedLogins + r.creates + r.updates + r.deletes <= r.totalActions
  {
    var recent := GetRecentLogs(store, now, days);
    CountsBounded(recent);
    Stats(|recent|, CountAction(recent, Login), CountAction(recent, LoginFailed),
          CountAction(recent, Create), CountAction(recent, Update), CountAction(recent, Delete))
  }

  /** An entry has one action, so the five counts never exceed the total. */
  lemma {:induction false} CountsBounded(logs: seq<Entry>)
    ensures CountAction(logs, Login) + CountAction(logs, LoginFailed) + CountAction(logs, Create)
      + CountAction(logs, Update) + CountAction(logs, Delete) <= |logs|
    decreases |logs|
  {
    if logs != [] {
      CountsBounded(logs[1..]);
    }
  }
}
