/** What applying a preset does to a child's schedule and to the engine's
    decisions. */
module ProfileProperties {
  import opened Store
  import opened Policy
  import opened Schedules
  import opened Profiles

  /** In a sensible week the row of each weekday is read straight from its
      entry: no default is used. */
  lemma SaneWeekRow(week: map<WeekKey, Entry>, wd: int)
    requires SaneWeek(week) && IsWeekday(wd)
    ensures var e := week[Named(Decimal.NatToString(wd))];
            RowFor(week, wd) == ScheduleRow(e["start_min"], e["end_min"], e["daily_minutes"])
  {
    assert SaneEntry(week[Named(Decimal.NatToString(wd))]);
  }

  /** Applying a profile with a sensible week gives every weekday exactly
      the profile's row, and every such row is a window within the day
      holding no more minutes than the window is long. */
  lemma SaneProfileRows(s: Store, user: User, p: Profile)
    requires SaneWeek(p.week)
    ensures var sch := ApplyProfile(s, user, p).schedules;
            forall wd :: IsWeekday(wd) ==>
              var e := p.week[Named(Decimal.NatToString(wd))];
              && (user, wd) in sch
              && sch[(user, wd)] == ScheduleRow(e["start_min"], e["end_min"], e["daily_minutes"])
              && 0 <= sch[(user, wd)].startMin <= sch[(user, wd)].endMin <= 24 * 60
              && 0 <= sch[(user, wd)].dailyMinutes <= sch[(user, wd)].endMin - sch[(user, wd)].startMin
  {
    forall wd | IsWeekday(wd)
      ensures var e := p.week[Named(Decimal.NatToString(wd))];
              RowFor(p.week, wd) == ScheduleRow(e["start_min"], e["end_min"], e["daily_minutes"])
              && SaneEntry(e)
    {
      SaneWeekRow(p.week, wd);
    }
  }

  /** So does applying any of the presets. */
  lemma PresetRowsSane(s: Store, user: User, name: string)
    requires name in Presets
    ensures var sch := ApplyProfile(s, user, Presets[name]).schedules;
            forall wd :: IsWeekday(wd) ==>
              && (user, wd) in sch
              && 0 <= sch[(user, wd)].startMin <= sch[(user, wd)].endMin <= 24 * 60
              && 0 <= sch[(user, wd)].dailyMinutes <= sch[(user, wd)].endMin - sch[(user, wd)].startMin
  {
    PresetsWellFormed();
    SaneProfileRows(s, user, Presets[name]);
  }

  /** In a week with the same entry every day, each weekday reads that entry. */
  lemma UniformWeekRow(z: Entry, wd: int)
    requires z != map[] && IsWeekday(wd)
    ensures EntryFor(Week(z, z, z, z, z, z, z), wd) == z
  {
    assert Decimal.NatToString(wd) == [Decimal.DigitChar(wd)];
  }

  /** Every weekday of "Komplett gesperrt" has a budget of nothing. */
  lemma LockedWeekEmpty()
    ensures forall wd :: IsWeekday(wd) ==> RowFor(Presets[LockedPreset].week, wd).dailyMinutes == 0
  {
    var z := Entry3(0, 0, 0);
    assert "daily_minutes" in z && z["daily_minutes"] == 0;
    assert Presets[LockedPreset].week == Week(z, z, z, z, z, z, z);
    forall wd | IsWeekday(wd)
      ensures RowFor(Week(z, z, z, z, z, z, z), wd).dailyMinutes == 0
    {
      UniformWeekRow(z, wd);
    }
  }

  /** A profile with no minutes on any weekday lets the child through only
      by the day toggle or a timed grant, and the check charges nothing. */
  lemma EmptyBudgetDenies(s: Store, user: User, p: Profile, now: Clock)
    requires forall wd :: IsWeekday(wd) ==> RowFor(p.week, wd).dailyMinutes == 0
    requires IsWeekday(now.weekday)
    requires !DayOverrideOn(s, user, now.day) && !GrantActive(s, user, now.utc)
    ensures var s1 := ApplyProfile(s, user, p);
            var r := Decide(s1, user, now);
            !r.decision.Allow() && r.store == s1
  {
    var s1 := ApplyProfile(s, user, p);
    var key := (user, now.weekday);
    assert s1.dayOverrides == s.dayOverrides && s1.overrides == s.overrides;
    assert !DayOverrideOn(s1, user, now.day) && !GrantActive(s1, user, now.utc);
    assert s1.schedules[key].dailyMinutes == 0;
    assert !ReachesMeter(s1, user, now);
    var r := Decide(s1, user, now);
    assert r.store == s1;
  }

  /** Once "Komplett gesperrt" is applied, the schedule never lets the child
      through. */
  lemma LockedPresetDenies(s: Store, user: User, now: Clock)
    requires IsWeekday(now.weekday)
    requires !DayOverrideOn(s, user, now.day) && !GrantActive(s, user, now.utc)
    ensures var s1 := ApplyProfile(s, user, Presets[LockedPreset]);
            var r := Decide(s1, user, now);
            !r.decision.Allow() && r.store == s1
  {
    LockedWeekEmpty();
    EmptyBudgetDenies(s, user, Presets[LockedPreset], now);
  }
}
