/** The access-decision engine, `compute_access` in app/policy.py: a fixed
    precedence chain (unknown child, day toggle, timed grant, schedule row,
    window, zero budget, usage heartbeat, daily limit, pre-warning) that
    returns a reason-tagged decision and the store after the call. Only the
    heartbeat and the pre-warning write state. */
module Policy {
  import opened Wrappers
  import opened Store
  import Format

  const UnlimitedTodayText := "Heute unbegrenzt"
  const DefaultWarnMinutes := 10
  const DefaultMode := "LOCK"
  /** Usage rows of days older than this many days are deleted. */
  const RetentionDays := 14
  /** A heartbeat gap of more whole minutes than this is not charged. */
  const MaxBilledMinutes := 2

  /** The decision payload: one variant per reason, with exactly the fields
      the source attaches to that reason. */
  datatype Decision =
    | UnknownUser
    | OverrideDay(overrideText: string)
    | Override(until: int, overrideSecondsLeft: int, overrideText: string)
    | NoSchedule
    | OutsideTime
    | NoDailyMinutes(dailyLimit: int, dailyRemaining: int, dailyUsed: int)
    | DailyLimitReached(dailyUsed: int, dailyLimit: int, dailyRemaining: int)
    | ScheduleAllow(warn: bool, minutesLeftWindow: int, windowEndHm: string,
                    dailyUsed: int, dailyLimit: int, dailyRemaining: int)
  {
    predicate Allow() {
      OverrideDay? || Override? || ScheduleAllow?
    }

    /** The `reason` tag of the payload. */
    function Reason(): string {
      match this
      case UnknownUser => "unknown-user"
      case OverrideDay(_) => "override-day"
      case Override(_, _, _) => "override"
      case NoSchedule => "no-schedule"
      case OutsideTime => "outside-time"
      case NoDailyMinutes(_, _, _) => "no-daily-minutes"
      case DailyLimitReached(_, _, _) => "daily-limit-reached"
      case ScheduleAllow(_, _, _, _, _, _) => "schedule"
    }
  }

  /** A decision together with the store the call leaves behind. */
  datatype Response = Response(decision: Decision, store: Store)

  // ---------------------------------------------------------------------
  // The gates of the precedence chain, as conditions on the store

  predicate Known(s: Store, user: User) {
    user in s.children
  }

  /** The child's day toggle is on and dated today. */
  predicate DayOverrideOn(s: Store, user: User, day: int) {
    user in s.dayOverrides && s.dayOverrides[user].day == day && s.dayOverrides[user].enabled
  }

  /** Some grant of the child, of any kind, runs past instant `t`. */
  predicate GrantActive(s: Store, user: User, t: int) {
    exists i :: 0 <= i < |s.overrides| && s.overrides[i].user == user && s.overrides[i].grantUntil > t
  }

  /** Both ends of the window are inclusive. */
  predicate InWindow(row: ScheduleRow, minute: int) {
    row.startMin <= minute <= row.endMin
  }

  predicate PastDayOverride(s: Store, user: User, now: Clock) {
    Known(s, user) && !DayOverrideOn(s, user, now.day)
  }

  predicate PastGrants(s: Store, user: User, now: Clock) {
    PastDayOverride(s, user, now) && !GrantActive(s, user, now.utc)
  }

  predicate Scheduled(s: Store, user: User, now: Clock) {
    PastGrants(s, user, now) && (user, now.weekday) in s.schedules
  }

  predicate PastWindow(s: Store, user: User, now: Clock) {
    Scheduled(s, user, now) && InWindow(s.schedules[(user, now.weekday)], now.minute)
  }

  /** The call gets as far as the usage heartbeat. */
  predicate ReachesMeter(s: Store, user: User, now: Clock) {
    PastWindow(s, user, now) && s.schedules[(user, now.weekday)].dailyMinutes > 0
  }

  // ---------------------------------------------------------------------
  // State the engine owns

  /** One heartbeat: the whole minutes since the last charge are added when
      there are one or two of them, and the charge instant moves to now;
      a negative gap or a gap of three minutes or more charges nothing and
      leaves the row as it was. */
  function Heartbeat(row: UsageRow, nowUtc: int): (r: UsageRow)
    ensures row.usedMinutes <= r.usedMinutes <= row.usedMinutes + MaxBilledMinutes
    ensures r.usedMinutes > row.usedMinutes <==> 60 <= nowUtc - row.lastSeenAt < (MaxBilledMinutes + 1) * 60
    ensures r.usedMinutes > row.usedMinutes ==>
              && (r.usedMinutes - row.usedMinutes) * 60 <= nowUtc - row.lastSeenAt
              && nowUtc - row.lastSeenAt < (r.usedMinutes - row.usedMinutes + 1) * 60
              && r.lastSeenAt == nowUtc
    ensures r.usedMinutes == row.usedMinutes ==> r == row
  {
    var delta := (nowUtc - row.lastSeenAt) / 60;
    var billed := if delta < 0 then 0 else if delta > MaxBilledMinutes then 0 else delta;
    if billed > 0 then UsageRow(row.usedMinutes + billed, nowUtc) else row
  }

  /** Today's usage row, or the one created on the first check of the day. */
  function TodayRow(usage: map<(User, int), UsageRow>, user: User, now: Clock): UsageRow {
    if (user, now.day) in usage then usage[(user, now.day)] else UsageRow(0, now.utc)
  }

  /** Retention: rows of every child older than the cutoff day are deleted. */
  function Cleanup(usage: map<(User, int), UsageRow>, today: int): (r: map<(User, int), UsageRow>)
    ensures forall k :: k in r <==> k in usage && k.1 >= today - RetentionDays
    ensures forall k :: k in r ==> r[k] == usage[k]
  {
    map k | k in usage && k.1 >= today - RetentionDays :: usage[k]
  }

  /** The child's policy row, or the defaults 10 minutes / "LOCK". */
  function PolicyOf(s: Store, user: User): PolicyRow {
    if user in s.policies then s.policies[user] else PolicyRow(DefaultWarnMinutes, DefaultMode)
  }

  /** Insert into a unique-keyed log; a duplicate insert is swallowed, so the
      first write of a key wins. */
  function RecordPrewarn(log: map<(User, int, string), int>, key: (User, int, string), at: int): (r: map<(User, int, string), int>)
    ensures r.Keys == log.Keys + {key}
    ensures forall k :: k in log ==> r[k] == log[k]
    ensures key !in log ==> r[key] == at
  {
    if key in log then log else log[key := at]
  }

  // ---------------------------------------------------------------------
  // The engine

  /** Steps 6 and 7 of the chain on the usage table: retention cleanup, then
      fetch-or-create today's row and charge it by one heartbeat. */
  function ChargeToday(usage: map<(User, int), UsageRow>, user: User, now: Clock): (u: map<(User, int), UsageRow>)
    ensures (user, now.day) in u
    ensures u[(user, now.day)] == Heartbeat(TodayRow(usage, user, now), now.utc)
    ensures forall k :: k != (user, now.day) ==> (k in u <==> k in usage && k.1 >= now.day - RetentionDays)
    ensures forall k :: k != (user, now.day) && k in u ==> u[k] == usage[k]
  {
    var cleaned := Cleanup(usage, now.day);
    cleaned[(user, now.day) := Heartbeat(TodayRow(cleaned, user, now), now.utc)]
  }

  /** Steps 8 and 9 on a store whose row for today is already charged: the
      daily-limit check, then the pre-warning and the allowing decision. */
  function Verdict(s: Store, user: User, now: Clock, sched: ScheduleRow): (r: Response)
    requires (user, now.day) in s.usage
    requires InWindow(sched, now.minute)
    ensures r.store == s.(prewarn := r.store.prewarn)
    ensures r.decision.DailyLimitReached? || r.decision.ScheduleAllow?
    ensures r.decision.DailyLimitReached? <==> s.usage[(user, now.day)].usedMinutes >= sched.dailyMinutes
    ensures r.decision.DailyLimitReached? ==>
              && r.decision == DailyLimitReached(s.usage[(user, now.day)].usedMinutes, sched.dailyMinutes, 0)
              && r.store.prewarn == s.prewarn
    ensures r.decision.ScheduleAllow? ==>
              && r.decision.dailyUsed == s.usage[(user, now.day)].usedMinutes
              && r.decision.dailyLimit == sched.dailyMinutes
              && r.decision.dailyRemaining == sched.dailyMinutes - r.decision.dailyUsed >= 1
              && r.decision.minutesLeftWindow == sched.endMin - now.minute
              && 0 <= r.decision.minutesLeftWindow <= sched.endMin - sched.startMin
              && r.decision.windowEndHm == Format.FormatHM(sched.endMin)
    ensures r.decision.ScheduleAllow? ==>
              (r.decision.warn <==> PolicyOf(s, user).warnMinutes > 0 && 0 <= r.decision.minutesLeftWindow <= PolicyOf(s, user).warnMinutes)
    ensures r.decision.ScheduleAllow? && r.decision.warn ==>
              r.store.prewarn == RecordPrewarn(s.prewarn, (user, now.day, PolicyOf(s, user).afterExpiryMode), now.utc)
    ensures r.decision.ScheduleAllow? && !r.decision.warn ==> r.store.prewarn == s.prewarn
  {
    var used := s.usage[(user, now.day)].usedMinutes;
    var remaining := sched.dailyMinutes - used;
    var left := sched.endMin - now.minute;
    if remaining <= 0 then
      Response(DailyLimitReached(used, sched.dailyMinutes, 0), s)
    else
      var policy := PolicyOf(s, user);
      var warn := policy.warnMinutes > 0 && 0 <= left <= policy.warnMinutes;
      var s1 := if warn then s.(prewarn := RecordPrewarn(s.prewarn, (user, now.day, policy.afterExpiryMode), now.utc)) else s;
      Response(ScheduleAllow(warn, left, Format.FormatHM(sched.endMin), used, sched.dailyMinutes, remaining), s1)
  }

  /** Steps 6 to 9 of the chain, reached only inside the window with a
      positive budget. */
  function Meter(s: Store, user: User, now: Clock, sched: ScheduleRow): (r: Response)
    requires sched.dailyMinutes > 0 && InWindow(sched, now.minute)
    ensures r.store == s.(usage := r.store.usage, prewarn := r.store.prewarn)
  {
    Verdict(s.(usage := ChargeToday(s.usage, user, now)), user, now, sched)
  }

  /** `compute_access` at one clock reading. */
  function Decide(s: Store, user: User, now: Clock): (r: Response)
    ensures r.store == s.(usage := r.store.usage, prewarn := r.store.prewarn)
    ensures !ReachesMeter(s, user, now) ==> r.store == s
    ensures r.decision.UnknownUser? <==> !Known(s, user)
    ensures r.decision.OverrideDay? <==> Known(s, user) && DayOverrideOn(s, user, now.day)
    ensures r.decision.OverrideDay? ==> r.decision.overrideText == UnlimitedTodayText
    ensures r.decision.Override? <==> PastDayOverride(s, user, now) && GrantActive(s, user, now.utc)
    ensures r.decision.Override? ==>
              && r.decision.overrideSecondsLeft == r.decision.until - now.utc > 0
              && (exists i :: 0 <= i < |s.overrides| && s.overrides[i].user == user && s.overrides[i].grantUntil == r.decision.until)
              && (forall i :: 0 <= i < |s.overrides| && s.overrides[i].user == user ==> s.overrides[i].grantUntil <= r.decision.until)
              && r.decision.overrideText == "Noch " + Format.FormatRemaining(r.decision.overrideSecondsLeft)
    ensures r.decision.NoSchedule? <==> PastGrants(s, user, now) && (user, now.weekday) !in s.schedules
    ensures r.decision.OutsideTime? <==> Scheduled(s, user, now) && !InWindow(s.schedules[(user, now.weekday)], now.minute)
    ensures r.decision.NoDailyMinutes? <==> PastWindow(s, user, now) && s.schedules[(user, now.weekday)].dailyMinutes <= 0
    ensures r.decision.NoDailyMinutes? ==> r.decision == NoDailyMinutes(0, 0, 0)
    ensures ReachesMeter(s, user, now) ==> r == Meter(s, user, now, s.schedules[(user, now.weekday)])
    ensures r.decision.Allow() <==>
              && Known(s, user)
              && (|| DayOverrideOn(s, user, now.day)
                  || GrantActive(s, user, now.utc)
                  || (ReachesMeter(s, user, now) &&
                      r.store.usage[(user, now.day)].usedMinutes < s.schedules[(user, now.weekday)].dailyMinutes))
  {
    if user !in s.children then Response(UnknownUser, s)
    else if DayOverrideOn(s, user, now.day) then Response(OverrideDay(UnlimitedTodayText), s)
    else
      var latest := Latest(s.overrides, user, None);
      if latest.Some? && latest.value > now.utc then
        var left := latest.value - now.utc;
        Response(Override(latest.value, left, "Noch " + Format.FormatRemaining(left)), s)
      else if (user, now.weekday) !in s.schedules then Response(NoSchedule, s)
      else
        var sched := s.schedules[(user, now.weekday)];
        if !InWindow(sched, now.minute) then Response(OutsideTime, s)
        else if sched.dailyMinutes <= 0 then Response(NoDailyMinutes(0, 0, 0), s)
        else Meter(s, user, now, sched)
  }
}
