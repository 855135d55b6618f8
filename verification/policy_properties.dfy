/** Properties of the decision engine that relate several calls: repeating a
    check, polling at a steady cadence, polling after a gap, and what the
    usage and pre-warning tables can and cannot lose. */
module PolicyProperties {
  import opened Store
  import opened Policy
  import opened Wrappers
  import Format

  /** The store after a series of checks for one child, one per clock reading. */
  function Replay(s: Store, user: User, clocks: seq<Clock>): Store
    decreases |clocks|
  {
    if |clocks| == 0 then s else Replay(Decide(s, user, clocks[0]).store, user, clocks[1..])
  }

  /** A second heartbeat at the same instant charges nothing. */
  lemma HeartbeatSameInstant(row: UsageRow, t: int)
    ensures Heartbeat(Heartbeat(row, t), t) == Heartbeat(row, t)
  {
  }

  /** Charging twice at the same instant charges once. */
  lemma ChargeTodayIdempotent(usage: map<(User, int), UsageRow>, user: User, now: Clock)
    ensures ChargeToday(ChargeToday(usage, user, now), user, now) == ChargeToday(usage, user, now)
  {
    var u1 := ChargeToday(usage, user, now);
    HeartbeatSameInstant(TodayRow(usage, user, now), now.utc);
    var u2 := ChargeToday(u1, user, now);
    assert u2.Keys == u1.Keys;
  }

  /** Recording the same pre-warning twice records it once. */
  lemma RecordPrewarnIdempotent(log: map<(User, int, string), int>, key: (User, int, string), at: int)
    ensures RecordPrewarn(RecordPrewarn(log, key, at), key, at) == RecordPrewarn(log, key, at)
  {
  }

  /** The decision steps, repeated on the store they produced, change nothing more. */
  lemma VerdictIdempotent(s: Store, user: User, now: Clock, sched: ScheduleRow)
    requires (user, now.day) in s.usage
    requires InWindow(sched, now.minute)
    ensures Verdict(Verdict(s, user, now, sched).store, user, now, sched) == Verdict(s, user, now, sched)
  {
    var s1 := Verdict(s, user, now, sched).store;
    if s.usage[(user, now.day)].usedMinutes < sched.dailyMinutes {
      var policy := PolicyOf(s, user);
      assert PolicyOf(s1, user) == policy;
      var left := sched.endMin - now.minute;
      if policy.warnMinutes > 0 && 0 <= left <= policy.warnMinutes {
        RecordPrewarnIdempotent(s.prewarn, (user, now.day, policy.afterExpiryMode), now.utc);
      } else {
        assert s1 == s;
      }
    }
  }

  /** The usage steps, repeated at the same instant, change nothing more. */
  lemma MeterIdempotent(s: Store, user: User, now: Clock, sched: ScheduleRow)
    requires sched.dailyMinutes > 0 && InWindow(sched, now.minute)
    ensures Meter(Meter(s, user, now, sched).store, user, now, sched) == Meter(s, user, now, sched)
  {
    var charged := s.(usage := ChargeToday(s.usage, user, now));
    var s1 := Meter(s, user, now, sched).store;
    assert s1 == Verdict(charged, user, now, sched).store;
    ChargeTodayIdempotent(s.usage, user, now);
    assert s1.(usage := ChargeToday(s1.usage, user, now)) == s1;
    VerdictIdempotent(charged, user, now, sched);
  }

  /** Checking twice without the clock moving gives the same decision and
      leaves the store as the first check left it: no double charge, no
      second pre-warning row. */
  lemma DecideIdempotent(s: Store, user: User, now: Clock)
    ensures Decide(Decide(s, user, now).store, user, now) == Decide(s, user, now)
  {
    if ReachesMeter(s, user, now) {
      var sched := s.schedules[(user, now.weekday)];
      var s1 := Decide(s, user, now).store;
      assert ReachesMeter(s1, user, now);
      MeterIdempotent(s, user, now, sched);
    }
  }

  /** The window end an allowing decision reports is the schedule's end
      minute, written "HH:MM" (for ends before 100 hours), and reads back as
      that minute. */
  lemma WindowEndReadsBack(s: Store, user: User, now: Clock)
    requires ReachesMeter(s, user, now)
    ensures var d := Decide(s, user, now).decision;
            var end := s.schedules[(user, now.weekday)].endMin;
            d.ScheduleAllow? ==>
              && Format.ParseHM(d.windowEndHm) == Some(end)
              && (0 <= end < 6000 ==> |d.windowEndHm| == 5 && d.windowEndHm[2] == ':')
  {
    Format.FormatHMRoundTrip(s.schedules[(user, now.weekday)].endMin);
  }

  /** Today's charge grows by at most two minutes per check and never shrinks;
      checks that stop before the heartbeat do not touch it. */
  lemma UsageMonotone(s: Store, user: User, now: Clock)
    requires (user, now.day) in s.usage
    ensures var u := Decide(s, user, now).store.usage;
            && (user, now.day) in u
            && s.usage[(user, now.day)].usedMinutes <= u[(user, now.day)].usedMinutes
            && u[(user, now.day)].usedMinutes <= s.usage[(user, now.day)].usedMinutes + MaxBilledMinutes
  {
  }

  /** After a silence of three minutes or more, a check leaves today's row
      exactly as it was: nothing is charged and the charge instant stays put. */
  lemma StallAfterGap(s: Store, user: User, now: Clock)
    requires (user, now.day) in s.usage
    requires now.utc - s.usage[(user, now.day)].lastSeenAt >= (MaxBilledMinutes + 1) * 60
    ensures var u := Decide(s, user, now).store.usage;
            (user, now.day) in u && u[(user, now.day)] == s.usage[(user, now.day)]
  {
  }

  /** Because the charge instant does not move after such a gap, every later
      check of the same day charges nothing either: as written, usage stops
      accruing for the rest of the day. */
  lemma {:induction false} StallPersists(s: Store, user: User, day: int, clocks: seq<Clock>)
    requires (user, day) in s.usage
    requires forall i :: 0 <= i < |clocks| ==>
               clocks[i].day == day && clocks[i].utc - s.usage[(user, day)].lastSeenAt >= (MaxBilledMinutes + 1) * 60
    ensures (user, day) in Replay(s, user, clocks).usage
    ensures Replay(s, user, clocks).usage[(user, day)] == s.usage[(user, day)]
    decreases |clocks|
  {
    if |clocks| > 0 {
      StallAfterGap(s, user, clocks[0]);
      var s1 := Decide(s, user, clocks[0]).store;
      assert s1.usage[(user, day)] == s.usage[(user, day)];
      StallPersists(s1, user, day, clocks[1..]);
    }
  }

  /** A concrete stall: last charged at 0 s, the child polls at 180 s and
      again at 240 s. The second poll comes a minute after the first, yet
      neither is charged, because the charge instant stays at 0 s. */
  lemma HeartbeatStallExample()
    ensures var r1 := Heartbeat(UsageRow(5, 0), 180);
            r1 == UsageRow(5, 0) && Heartbeat(r1, 240) == UsageRow(5, 0)
  {
  }

  /** The heartbeat with the gap rule evidently intended: a gap of three
      minutes or more is still not billed, but the charge instant moves to
      now, so billing resumes with the next poll. Other gaps are handled
      exactly as `Heartbeat` does. */
  function ResumingHeartbeat(row: UsageRow, nowUtc: int): (r: UsageRow)
    ensures r.usedMinutes == Heartbeat(row, nowUtc).usedMinutes
    ensures row.lastSeenAt <= nowUtc ==> r.lastSeenAt == nowUtc || r == row
    ensures r.lastSeenAt != Heartbeat(row, nowUtc).lastSeenAt ==>
              nowUtc - row.lastSeenAt >= (MaxBilledMinutes + 1) * 60 && r.lastSeenAt == nowUtc
  {
    if nowUtc - row.lastSeenAt >= (MaxBilledMinutes + 1) * 60 then row.(lastSeenAt := nowUtc)
    else Heartbeat(row, nowUtc)
  }

  /** With the resuming heartbeat, a poll after a long gap charges nothing
      and a poll a minute later charges one minute again. */
  lemma ResumesAfterGap(row: UsageRow, t: int)
    requires t - row.lastSeenAt >= (MaxBilledMinutes + 1) * 60
    ensures var r1 := ResumingHeartbeat(row, t);
            && r1.usedMinutes == row.usedMinutes
            && ResumingHeartbeat(r1, t + 60).usedMinutes == row.usedMinutes + 1
  {
    HeartbeatOneMinuteLater(ResumingHeartbeat(row, t), t);
  }

  /** Same-day checks never lower today's charge, whatever else happens. */
  lemma {:induction false} ReplayNeverLowersUsage(s: Store, user: User, day: int, clocks: seq<Clock>)
    requires (user, day) in s.usage
    requires forall i :: 0 <= i < |clocks| ==> clocks[i].day == day
    ensures (user, day) in Replay(s, user, clocks).usage
    ensures Replay(s, user, clocks).usage[(user, day)].usedMinutes >= s.usage[(user, day)].usedMinutes
    decreases |clocks|
  {
    if |clocks| > 0 {
      UsageMonotone(s, user, clocks[0]);
      ReplayNeverLowersUsage(Decide(s, user, clocks[0]).store, user, day, clocks[1..]);
    }
  }

  /** Once today's charge has reached the weekday's budget, every check that
      gets to the heartbeat denies with "daily-limit-reached" and nothing left. */
  lemma LimitSticky(s: Store, user: User, now: Clock)
    requires ReachesMeter(s, user, now)
    requires (user, now.day) in s.usage
    requires s.usage[(user, now.day)].usedMinutes >= s.schedules[(user, now.weekday)].dailyMinutes
    ensures var d := Decide(s, user, now).decision;
            d.DailyLimitReached? && d.dailyRemaining == 0 && !d.Allow()
  {
  }

  /** A check that gets to the heartbeat leaves usage as the charge step made it. */
  lemma DecideUsage(s: Store, user: User, now: Clock)
    requires ReachesMeter(s, user, now)
    ensures Decide(s, user, now).store.usage == ChargeToday(s.usage, user, now)
  {
    var sched := s.schedules[(user, now.weekday)];
    assert Decide(s, user, now) == Verdict(s.(usage := ChargeToday(s.usage, user, now)), user, now, sched);
  }

  /** A heartbeat leaves the charge instant within the last minute when the
      previous one was less than three minutes old. */
  lemma HeartbeatRecent(row: UsageRow, t: int)
    requires t - (MaxBilledMinutes + 1) * 60 < row.lastSeenAt <= t
    ensures t - 60 < Heartbeat(row, t).lastSeenAt <= t
  {
  }

  /** A heartbeat a minute after one that was less than a minute ago charges one minute. */
  lemma HeartbeatOneMinuteLater(row: UsageRow, t: int)
    requires t - 60 < row.lastSeenAt <= t
    ensures Heartbeat(row, t + 60).usedMinutes == row.usedMinutes + 1
  {
  }

  /** Charging twice a minute apart adds one minute the second time. */
  lemma SteadyCharge(usage: map<(User, int), UsageRow>, user: User, n1: Clock, n2: Clock)
    requires n1.day == n2.day && n2.utc == n1.utc + 60
    requires (user, n1.day) in usage ==>
               n1.utc - (MaxBilledMinutes + 1) * 60 < usage[(user, n1.day)].lastSeenAt <= n1.utc
    ensures var u1 := ChargeToday(usage, user, n1);
            ChargeToday(u1, user, n2)[(user, n1.day)].usedMinutes == u1[(user, n1.day)].usedMinutes + 1
  {
    var row0 := TodayRow(usage, user, n1);
    HeartbeatRecent(row0, n1.utc);
    var u1 := ChargeToday(usage, user, n1);
    assert TodayRow(u1, user, n2) == Heartbeat(row0, n1.utc);
    HeartbeatOneMinuteLater(Heartbeat(row0, n1.utc), n1.utc);
  }

  /** A client polling once a minute is charged exactly one minute per poll,
      provided its previous charge is less than three minutes old (or today's
      row does not exist yet). */
  lemma SteadyPolling(s: Store, user: User, n1: Clock, n2: Clock)
    requires ReachesMeter(s, user, n1) && ReachesMeter(s, user, n2)
    requires n1.day == n2.day && n2.utc == n1.utc + 60
    requires (user, n1.day) in s.usage ==>
               n1.utc - (MaxBilledMinutes + 1) * 60 < s.usage[(user, n1.day)].lastSeenAt <= n1.utc
    ensures var s1 := Decide(s, user, n1).store;
            var s2 := Decide(s1, user, n2).store;
            s2.usage[(user, n1.day)].usedMinutes == s1.usage[(user, n1.day)].usedMinutes + 1
  {
    DecideUsage(s, user, n1);
    var s1 := Decide(s, user, n1).store;
    assert ReachesMeter(s1, user, n2);
    DecideUsage(s1, user, n2);
    SteadyCharge(s.usage, user, n1, n2);
  }

  /** Whether a check gets to the heartbeat does not depend on the usage or
      pre-warning tables, the only ones a check writes. */
  lemma ReachesMeterIgnoresCounters(s: Store, t: Store, user: User, now: Clock)
    requires t == s.(usage := t.usage, prewarn := t.prewarn)
    ensures ReachesMeter(t, user, now) == ReachesMeter(s, user, now)
  {
  }

  /** The first check of the day that gets to the heartbeat creates today's
      row and charges nothing: the charge instant starts at now. */
  lemma FirstPollOfDay(s: Store, user: User, now: Clock)
    requires ReachesMeter(s, user, now) && (user, now.day) !in s.usage
    ensures Decide(s, user, now).store.usage[(user, now.day)] == UsageRow(0, now.utc)
  {
    DecideUsage(s, user, now);
  }

  /** A client polling once a minute inside its window, whose last charge is
      less than a minute old, is charged exactly one minute per poll. After
      the first check of the day (`FirstPollOfDay`) the charge is exactly
      a minute old at the next poll, so this covers every poll but the first. */
  lemma {:induction false} SteadyPollingReplay(s: Store, user: User, day: int, t: int, clocks: seq<Clock>)
    requires (user, day) in s.usage
    requires t - 60 < s.usage[(user, day)].lastSeenAt <= t
    requires forall i :: 0 <= i < |clocks| ==>
               clocks[i].day == day && clocks[i].utc == t + 60 * (i + 1) && ReachesMeter(s, user, clocks[i])
    ensures (user, day) in Replay(s, user, clocks).usage
    ensures Replay(s, user, clocks).usage[(user, day)].usedMinutes == s.usage[(user, day)].usedMinutes + |clocks|
    decreases |clocks|
  {
    if |clocks| > 0 {
      var row := s.usage[(user, day)];
      DecideUsage(s, user, clocks[0]);
      var s1 := Decide(s, user, clocks[0]).store;
      assert s1.usage[(user, day)] == Heartbeat(row, t + 60);
      HeartbeatOneMinuteLater(row, t);
      assert s1.usage[(user, day)].lastSeenAt == t + 60;
      var rest := clocks[1..];
      assert forall i :: 0 <= i < |rest| ==>
               rest[i].day == day && rest[i].utc == (t + 60) + 60 * (i + 1) && ReachesMeter(s1, user, rest[i]) by {
        forall i | 0 <= i < |rest|
          ensures rest[i].day == day && rest[i].utc == (t + 60) + 60 * (i + 1) && ReachesMeter(s1, user, rest[i])
        {
          assert rest[i] == clocks[i + 1];
          ReachesMeterIgnoresCounters(s, s1, user, rest[i]);
        }
      }
      SteadyPollingReplay(s1, user, day, t + 60, rest);
    }
  }

  /** Pre-warning rows are write-once: a check never changes or removes an
      existing row and adds at most the row for (child, today, mode). */
  lemma PrewarnWriteOnce(s: Store, user: User, now: Clock)
    ensures var p := Decide(s, user, now).store.prewarn;
            && (forall k :: k in s.prewarn ==> k in p && p[k] == s.prewarn[k])
            && p.Keys <= s.prewarn.Keys + {(user, now.day, PolicyOf(s, user).afterExpiryMode)}
  {
  }
}
