/** The administrator's state transitions that feed the engine (app/main.py):
    the stacking "+1 hour" grant, the "unlimited today" toggle and the
    reset of today's usage counter. Session checks and redirects are not
    modelled; each action is a function from store to store. */
module Admin {
  import opened Wrappers
  import opened Store
  import opened Policy

  const OneHourSeconds := 3600

  /** The latest grant of the HOUR kind for `user`, as `grant_hour` reads it. */
  function LatestHourGrant(s: Store, user: User): Option<int> {
    Latest(s.overrides, user, Some(Hour))
  }

  /** `grant_hour`: append one HOUR grant ending an hour after the later of
      now and the child's latest HOUR grant. Rows are never changed or removed. */
  function GrantHour(s: Store, user: User, nowUtc: int, grantedBy: string): (r: Store)
    ensures r == s.(overrides := r.overrides)
    ensures |r.overrides| == |s.overrides| + 1 && r.overrides[..|s.overrides|] == s.overrides
    ensures var g := r.overrides[|s.overrides|];
            && g.user == user && g.kind == Hour && g.createdBy == grantedBy && g.createdAt == nowUtc
            && nowUtc + OneHourSeconds <= g.grantUntil
            && (forall i :: 0 <= i < |s.overrides| && Selects(s.overrides[i], user, Some(Hour)) ==>
                  s.overrides[i].grantUntil + OneHourSeconds <= g.grantUntil)
            && (|| g.grantUntil == nowUtc + OneHourSeconds
                || exists i :: 0 <= i < |s.overrides| && Selects(s.overrides[i], user, Some(Hour)) &&
                                s.overrides[i].grantUntil + OneHourSeconds == g.grantUntil)
  {
    var last := LatestHourGrant(s, user);
    var base := if last.Some? && last.value > nowUtc then last.value else nowUtc;
    s.(overrides := s.overrides + [OverrideRow(user, base + OneHourSeconds, Hour, grantedBy, nowUtc)])
  }

  /** `grant_day_toggle`: the record always ends up dated today; it is
      switched on when it was missing or stale and flipped when it was
      already today's. In every case "unlimited today" is negated. */
  function GrantDayToggle(s: Store, user: User, today: int, nowUtc: int): (r: Store)
    ensures r == s.(dayOverrides := r.dayOverrides)
    ensures r.dayOverrides.Keys == s.dayOverrides.Keys + {user}
    ensures forall u :: u in s.dayOverrides && u != user ==> r.dayOverrides[u] == s.dayOverrides[u]
    ensures r.dayOverrides[user].day == today && r.dayOverrides[user].updatedAt == nowUtc
    ensures r.dayOverrides[user].enabled <==> !DayOverrideOn(s, user, today)
  {
    var enabled :=
      if user !in s.dayOverrides then true
      else if s.dayOverrides[user].day != today then true
      else !s.dayOverrides[user].enabled;
    s.(dayOverrides := s.dayOverrides[user := DayOverrideRow(today, enabled, nowUtc)])
  }

  /** `api_admin_reset_daily` and `ui_reset_daily`: delete the child's usage
      row for today and nothing else. */
  function ResetDaily(s: Store, user: User, today: int): (r: Store)
    ensures r == s.(usage := r.usage)
    ensures (user, today) !in r.usage
    ensures forall k :: k != (user, today) ==> (k in r.usage <==> k in s.usage)
    ensures forall k :: k in r.usage ==> r.usage[k] == s.usage[k]
  {
    s.(usage := s.usage - {(user, today)})
  }

  // ---------------------------------------------------------------------
  // How the actions interact with the engine

  /** Right after a grant, a check at the same instant allows through the
      timed grant with at least an hour left, unless the day toggle, which
      takes precedence, is on. The grant itself charges nothing. */
  lemma GrantThenDecide(s: Store, user: User, now: Clock, grantedBy: string)
    requires Known(s, user)
    ensures var s1 := GrantHour(s, user, now.utc, grantedBy);
            var r := Decide(s1, user, now);
            && r.store == s1
            && (DayOverrideOn(s, user, now.day) ==> r.decision.OverrideDay?)
            && (!DayOverrideOn(s, user, now.day) ==> r.decision.Override? && r.decision.overrideSecondsLeft >= OneHourSeconds)
  {
    var s1 := GrantHour(s, user, now.utc, grantedBy);
    var n := |s.overrides|;
    assert s1.overrides[n].user == user && s1.overrides[n].grantUntil > now.utc;
    assert GrantActive(s1, user, now.utc);
  }

  /** A second grant made before the first runs out extends it by another
      hour instead of restarting from now: grants stack. */
  lemma GrantsStack(s: Store, user: User, t1: int, t2: int, grantedBy1: string, grantedBy2: string)
    requires t2 < GrantHour(s, user, t1, grantedBy1).overrides[|s.overrides|].grantUntil
    ensures var s1 := GrantHour(s, user, t1, grantedBy1);
            var s2 := GrantHour(s1, user, t2, grantedBy2);
            s2.overrides[|s1.overrides|].grantUntil == s1.overrides[|s.overrides|].grantUntil + OneHourSeconds
  {
    var s1 := GrantHour(s, user, t1, grantedBy1);
    var n := |s.overrides|;
    var first := s1.overrides[n].grantUntil;
    assert forall i :: 0 <= i < n ==> s1.overrides[i] == s.overrides[i];
    assert Selects(s1.overrides[n], user, Some(Hour));
    assert LatestHourGrant(s1, user) == Some(first);
  }

  /** Toggling twice on the same day restores whether the child has
      unlimited access today. */
  lemma ToggleTwice(s: Store, user: User, today: int, t1: int, t2: int)
    ensures var s2 := GrantDayToggle(GrantDayToggle(s, user, today, t1), user, today, t2);
            DayOverrideOn(s2, user, today) == DayOverrideOn(s, user, today)
    ensures user in s.dayOverrides && s.dayOverrides[user].day == today ==>
              GrantDayToggle(GrantDayToggle(s, user, today, t1), user, today, t2).dayOverrides[user].enabled
              == s.dayOverrides[user].enabled
  {
  }

  /** After the toggle, a check the same day allows with "override-day"
      exactly when the toggle was not on before. */
  lemma ToggleThenDecide(s: Store, user: User, now: Clock, t: int)
    requires Known(s, user)
    ensures Decide(GrantDayToggle(s, user, now.day, t), user, now).decision.OverrideDay?
            <==> !DayOverrideOn(s, user, now.day)
  {
  }

  /** After a reset, the next check that gets to the heartbeat recreates
      today's row at zero and allows with the whole budget left. */
  lemma ResetThenDecide(s: Store, user: User, now: Clock)
    requires ReachesMeter(s, user, now)
    ensures var r := Decide(ResetDaily(s, user, now.day), user, now);
            var budget := s.schedules[(user, now.weekday)].dailyMinutes;
            && r.store.usage[(user, now.day)] == UsageRow(0, now.utc)
            && r.decision.ScheduleAllow?
            && r.decision.dailyUsed == 0
            && r.decision.dailyRemaining == budget
  {
    var s1 := ResetDaily(s, user, now.day);
    assert ReachesMeter(s1, user, now);
    assert TodayRow(s1.usage, user, now) == UsageRow(0, now.utc);
  }
}
