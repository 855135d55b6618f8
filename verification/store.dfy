/** The persistent state the access-decision engine and the admin actions
    read and write, shaped as maps keyed by the tables' unique constraints
    (app/db.py). Instants are whole UTC seconds; local calendar days are day
    numbers, so the ISO-date string order of the source is integer order. */
module Store {
  import opened Wrappers

  type User = string

  /** One reading of the clock: the UTC instant and, in the household's time
      zone, the day number, the weekday (0 = Monday) and the minute of the day. */
  datatype Clock = Clock(utc: int, day: int, weekday: int, minute: int)

  /** Window and budget for one weekday, in minutes since local midnight.
      Nothing checks the ranges: the form handler stores whatever it computes. */
  datatype ScheduleRow = ScheduleRow(startMin: int, endMin: int, dailyMinutes: int)

  datatype GrantKind = Hour | Day

  /** One timed grant; the table is append-only. */
  datatype OverrideRow = OverrideRow(user: User, grantUntil: int, kind: GrantKind, createdBy: string, createdAt: int)

  /** The single "unlimited today" toggle of a child. */
  datatype DayOverrideRow = DayOverrideRow(day: int, enabled: bool, updatedAt: int)

  /** Minutes charged on one local day and the instant the last charge was made. */
  datatype UsageRow = UsageRow(usedMinutes: int, lastSeenAt: int)

  /** Pre-warning threshold and the expiry mode ("LOCK" or "SCHOOL"). */
  datatype PolicyRow = PolicyRow(warnMinutes: int, afterExpiryMode: string)

  datatype Store = Store(
    children: set<User>,
    schedules: map<(User, int), ScheduleRow>,      // unique (username, weekday)
    overrides: seq<OverrideRow>,                    // every grant ever made
    dayOverrides: map<User, DayOverrideRow>,        // primary key username
    usage: map<(User, int), UsageRow>,              // unique (username, day)
    policies: map<User, PolicyRow>,                 // primary key username
    prewarn: map<(User, int, string), int>          // unique (username, day, mode) -> shown at, as a UTC instant
  )

  /** Whether a grant row is one of `user`'s, of the kind asked for (any kind when `kind` is None). */
  predicate Selects(row: OverrideRow, user: User, kind: Option<GrantKind>) {
    row.user == user && (kind.None? || row.kind == kind.value)
  }

  /** The latest `grantUntil` among the selected grant rows: what
      "order by grant_until desc, first" reads. */
  function Latest(rows: seq<OverrideRow>, user: User, kind: Option<GrantKind>): (r: Option<int>)
    ensures r.None? <==> forall i :: 0 <= i < |rows| ==> !Selects(rows[i], user, kind)
    ensures r.Some? ==> exists i :: 0 <= i < |rows| && Selects(rows[i], user, kind) && rows[i].grantUntil == r.value
    ensures r.Some? ==> forall i :: 0 <= i < |rows| && Selects(rows[i], user, kind) ==> rows[i].grantUntil <= r.value
  {
    if |rows| == 0 then None
    else
      var rest := Latest(rows[..|rows| - 1], user, kind);
      var last := rows[|rows| - 1];
      assert forall i :: 0 <= i < |rows| - 1 ==> rows[..|rows| - 1][i] == rows[i];
      if !Selects(last, user, kind) then rest
      else if rest.Some? && rest.value >= last.grantUntil then rest
      else Some(last.grantUntil)
  }
}
