/** The schedule plumbing of app/main.py: reading a week out of the store
    (creating default rows for missing weekdays), turning the editor's form
    fields into a profile, and writing a profile onto a child's seven
    weekday rows. Nothing range-checks the minutes. */
module Schedules {
  import opened Wrappers
  import opened Store
  import opened Decimal

  const DefaultStartMin := 900     // 15:00
  const DefaultEndMin := 1110      // 18:30
  const DefaultDailyMinutes := 120
  const DaysPerWeek := 7

  /** A key of a profile's week: the weekday's decimal name (as JSON and the
      form produce) or the weekday number itself. */
  datatype WeekKey = Named(name: string) | Numbered(n: int)

  /** One weekday's entry: field name to value ("start_min", "end_min",
      "daily_minutes"); any of them may be missing. */
  type Entry = map<string, int>

  /** A profile: its "week" mapping (empty when the profile has none). */
  datatype Profile = Profile(week: map<WeekKey, Entry>)

  function DefaultRow(): ScheduleRow {
    ScheduleRow(DefaultStartMin, DefaultEndMin, DefaultDailyMinutes)
  }

  predicate IsWeekday(wd: int) {
    0 <= wd < DaysPerWeek
  }

  /** The entry used for weekday `wd`: the one under the weekday's name, else
      the one under its number, else none; an empty entry counts as missing. */
  function EntryFor(week: map<WeekKey, Entry>, wd: nat): Entry {
    var byName := Named(NatToString(wd));
    if byName in week && week[byName] != map[] then week[byName]
    else if Numbered(wd) in week && week[Numbered(wd)] != map[] then week[Numbered(wd)]
    else map[]
  }

  function Field(e: Entry, name: string, default: int): int {
    if name in e then e[name] else default
  }

  /** The schedule row a profile prescribes for a weekday, defaults filled in. */
  function RowFor(week: map<WeekKey, Entry>, wd: nat): ScheduleRow {
    var e := EntryFor(week, wd);
    ScheduleRow(Field(e, "start_min", DefaultStartMin), Field(e, "end_min", DefaultEndMin),
                Field(e, "daily_minutes", DefaultDailyMinutes))
  }

  /** The keys a child's week occupies in the schedule table for days 0..n-1. */
  predicate OwnDay(k: (User, int), user: User, n: nat) {
    k.0 == user && 0 <= k.1 < n
  }

  /** Upsert of the rows for weekdays 0..n-1, one weekday after the other. */
  function ApplyDays(sch: map<(User, int), ScheduleRow>, user: User, week: map<WeekKey, Entry>, n: nat)
    : (r: map<(User, int), ScheduleRow>)
    ensures forall d :: 0 <= d < n ==> (user, d) in r && r[(user, d)] == RowFor(week, d)
    ensures forall k :: k in r <==> k in sch || OwnDay(k, user, n)
    ensures forall k :: k in sch && !OwnDay(k, user, n) ==> r[k] == sch[k]
    decreases n
  {
    if n == 0 then sch else ApplyDays(sch, user, week, n - 1)[(user, n - 1) := RowFor(week, n - 1)]
  }

  /** `_apply_profile_to_user`: the child ends up with exactly one row per
      weekday, each the one the profile prescribes; other rows are unchanged. */
  function ApplyProfile(s: Store, user: User, p: Profile): (r: Store)
    ensures r == s.(schedules := r.schedules)
    ensures forall wd :: IsWeekday(wd) ==> (user, wd) in r.schedules && r.schedules[(user, wd)] == RowFor(p.week, wd)
    ensures forall k :: k in r.schedules <==> k in s.schedules || OwnDay(k, user, DaysPerWeek)
    ensures forall k :: k in s.schedules && !OwnDay(k, user, DaysPerWeek) ==> r.schedules[k] == s.schedules[k]
  {
    s.(schedules := ApplyDays(s.schedules, user, p.week, DaysPerWeek))
  }

  /** Insert a default row for each of weekdays 0..n-1 the child lacks. */
  function FillDays(sch: map<(User, int), ScheduleRow>, user: User, n: nat): (r: map<(User, int), ScheduleRow>)
    ensures forall k :: k in r <==> k in sch || OwnDay(k, user, n)
    ensures forall k :: k in sch ==> r[k] == sch[k]
    ensures forall d :: 0 <= d < n ==> (user, d) in r
    ensures forall d :: 0 <= d < n && (user, d) !in sch ==> r[(user, d)] == DefaultRow()
    decreases n
  {
    if n == 0 then sch
    else
      var r := FillDays(sch, user, n - 1);
      if (user, n - 1) in r then r else r[(user, n - 1) := DefaultRow()]
  }

  /** A week as the editor reads it, and the store after the read. */
  datatype WeekRead = WeekRead(week: map<int, ScheduleRow>, store: Store)

  /** `_get_week_schedule`: all seven weekdays, a missing one created with the
      default row; existing rows are returned and left as they are. */
  function GetWeekSchedule(s: Store, user: User): (r: WeekRead)
    ensures r.store == s.(schedules := r.store.schedules)
    ensures forall wd :: wd in r.week <==> IsWeekday(wd)
    ensures forall wd :: IsWeekday(wd) ==>
              r.week[wd] == (if (user, wd) in s.schedules then s.schedules[(user, wd)] else DefaultRow())
    ensures forall k :: k in r.store.schedules <==> k in s.schedules || OwnDay(k, user, DaysPerWeek)
    ensures forall k :: k in s.schedules ==> r.store.schedules[k] == s.schedules[k]
    ensures forall wd :: IsWeekday(wd) ==> (user, wd) in r.store.schedules && r.store.schedules[(user, wd)] == r.week[wd]
  {
    var sch := FillDays(s.schedules, user, DaysPerWeek);
    WeekRead(map wd | 0 <= wd < DaysPerWeek :: sch[(user, wd)], s.(schedules := sch))
  }

  // ---------------------------------------------------------------------
  // The editor's form

  /** Submitted form fields by name. */
  type Form = map<string, string>

  /** `int(form.get(key, "<dflt>") or <fallback>)`: a missing field reads as
      its default, an empty one as its fallback, anything else as an integer
      (None where `int` would raise). */
  function FormInt(form: Form, key: string, dflt: int, fallback: int): Option<int> {
    if key !in form then Some(dflt)
    else if form[key] == "" then Some(fallback)
    else ParseInt(form[key])
  }

  function FieldName(wd: nat, suffix: string): string {
    "wd" + NatToString(wd) + suffix
  }

  /** The row the form describes for one weekday: start and end as
      hours * 60 + minutes, the daily budget as given; None when a field is
      not an integer. Defaults: 15:00, 18:00, 120 minutes. */
  function FormRow(form: Form, wd: nat): Option<ScheduleRow> {
    var sh := FormInt(form, FieldName(wd, "_start_h"), 15, 15);
    var sm := FormInt(form, FieldName(wd, "_start_m"), 0, 0);
    var eh := FormInt(form, FieldName(wd, "_end_h"), 18, 18);
    var em := FormInt(form, FieldName(wd, "_end_m"), 0, 0);
    var dm := FormInt(form, FieldName(wd, "_daily"), 120, 0);
    if sh.None? || sm.None? || eh.None? || em.None? || dm.None? then None
    else Some(ScheduleRow(sh.value * 60 + sm.value, eh.value * 60 + em.value, dm.value))
  }

  function EntryOf(row: ScheduleRow): Entry {
    map["start_min" := row.startMin, "end_min" := row.endMin, "daily_minutes" := row.dailyMinutes]
  }

  /** The rows the form describes for weekdays 0..6, in loop order. */
  function FormRows(form: Form): (rows: seq<Option<ScheduleRow>>)
    ensures |rows| == DaysPerWeek
    ensures forall wd :: 0 <= wd < DaysPerWeek ==> rows[wd] == FormRow(form, wd)
  {
    seq(DaysPerWeek, wd requires 0 <= wd => FormRow(form, wd))
  }

  /** The decimal names of days 0..n-1: the keys of a collected week. */
  function DayKeys(n: nat): set<WeekKey> {
    set d | 0 <= d < n :: Named(NatToString(d))
  }

  /** Entries for weekdays 0..|rows|-1 under their decimal names and no other
      keys; fails with the first weekday whose fields are not all integers. */
  function Collect(rows: seq<Option<ScheduleRow>>): (r: Result<map<WeekKey, Entry>, nat>)
    ensures r.Success? <==> forall d :: 0 <= d < |rows| ==> rows[d].Some?
    ensures r.Failure? ==> r.error < |rows| && rows[r.error].None? && forall d :: 0 <= d < r.error ==> rows[d].Some?
    ensures r.Success? ==> r.value.Keys == DayKeys(|rows|)
    ensures r.Success? ==> forall d :: 0 <= d < |rows| ==>
              Named(NatToString(d)) in r.value && r.value[Named(NatToString(d))] == EntryOf(rows[d].value)
  {
    CollectFirst(rows, |rows|)
  }

  /** `Collect` on the first `n` rows. */
  function CollectFirst(rows: seq<Option<ScheduleRow>>, n: nat): (r: Result<map<WeekKey, Entry>, nat>)
    requires n <= |rows|
    ensures r.Success? <==> forall d :: 0 <= d < n ==> rows[d].Some?
    ensures r.Failure? ==> r.error < n && rows[r.error].None? && forall d :: 0 <= d < r.error ==> rows[d].Some?
    ensures r.Success? ==> r.value.Keys == DayKeys(n)
    ensures r.Success? ==> forall d :: 0 <= d < n ==>
              Named(NatToString(d)) in r.value && r.value[Named(NatToString(d))] == EntryOf(rows[d].value)
  {
    if n == 0 then Success(map[])
    else
      match CollectFirst(rows, n - 1)
      case Failure(e) => Failure(e)
      case Success(w) =>
        if rows[n - 1].None? then Failure(n - 1)
        else Success(AddDay(w, rows, n - 1))
  }

  /** Day `k`'s entry added to a week holding exactly days 0..k-1: the
      result holds exactly days 0..k, and the earlier entries are kept. */
  function AddDay(w: map<WeekKey, Entry>, rows: seq<Option<ScheduleRow>>, k: nat): (w': map<WeekKey, Entry>)
    requires k < |rows| && rows[k].Some?
    requires w.Keys == DayKeys(k)
    requires forall d :: 0 <= d < k ==>
               rows[d].Some? && Named(NatToString(d)) in w && w[Named(NatToString(d))] == EntryOf(rows[d].value)
    ensures w'.Keys == DayKeys(k + 1)
    ensures forall d :: 0 <= d <= k ==>
              rows[d].Some? && Named(NatToString(d)) in w' && w'[Named(NatToString(d))] == EntryOf(rows[d].value)
  {
    AddDayKeys(w, k, EntryOf(rows[k].value));
    AddDayEntries(w, rows, k);
    w[Named(NatToString(k)) := EntryOf(rows[k].value)]
  }

  /** Adding day `k` to days 0..k-1 gives days 0..k. */
  lemma AddDayKeys(w: map<WeekKey, Entry>, k: nat, e: Entry)
    requires w.Keys == DayKeys(k)
    ensures w[Named(NatToString(k)) := e].Keys == DayKeys(k + 1)
  {
    DayKeysNext(k);
  }

  /** Adding day `k`'s entry keeps the entries of the days before it. */
  lemma AddDayEntries(w: map<WeekKey, Entry>, rows: seq<Option<ScheduleRow>>, k: nat)
    requires k < |rows| && rows[k].Some?
    requires forall d :: 0 <= d < k ==>
               rows[d].Some? && Named(NatToString(d)) in w && w[Named(NatToString(d))] == EntryOf(rows[d].value)
    ensures var w' := w[Named(NatToString(k)) := EntryOf(rows[k].value)];
            forall d :: 0 <= d <= k ==>
              rows[d].Some? && Named(NatToString(d)) in w' && w'[Named(NatToString(d))] == EntryOf(rows[d].value)
  {
    var w' := w[Named(NatToString(k)) := EntryOf(rows[k].value)];
    NewDayKey(k);
    forall d | 0 <= d <= k
      ensures rows[d].Some? && Named(NatToString(d)) in w' && w'[Named(NatToString(d))] == EntryOf(rows[d].value)
    {
      if d < k {
        assert Named(NatToString(d)) != Named(NatToString(k));
      }
    }
  }

  /** The key of day `n` is none of the keys of the days before it. */
  lemma NewDayKey(n: nat)
    ensures forall d :: 0 <= d < n ==> NatToString(d) != NatToString(n)
  {
    forall d | 0 <= d < n ensures NatToString(d) != NatToString(n) {
      if NatToString(d) == NatToString(n) { NatToStringInjective(d, n); }
    }
  }

  /** The names of days 0..n are those of days 0..n-1 and day n's. */
  lemma DayKeysNext(n: nat)
    ensures DayKeys(n + 1) == DayKeys(n) + {Named(NatToString(n))}
  {
  }

  /** `_profile_from_form`: one entry per weekday "0".."6" and no other
      key; fails (the handler would raise) at the first weekday with a field
      that is not an integer. */
  function ProfileFromForm(form: Form): (r: Result<Profile, nat>)
    ensures r.Success? <==> forall wd :: IsWeekday(wd) ==> FormRow(form, wd).Some?
    ensures r.Failure? ==> IsWeekday(r.error) && FormRow(form, r.error).None?
    ensures r.Success? ==> r.value.week.Keys == DayKeys(DaysPerWeek)
    ensures r.Success? ==> forall wd :: IsWeekday(wd) ==> RowFor(r.value.week, wd) == FormRow(form, wd).value
  {
    var rows := FormRows(form);
    match Collect(rows)
    case Failure(e) => Failure(e)
    case Success(w) =>
      assert forall wd :: IsWeekday(wd) ==> RowFor(w, wd) == rows[wd].value by {
        forall wd | IsWeekday(wd) ensures RowFor(w, wd) == rows[wd].value {
          assert Named(NatToString(wd)) in w;
          assert "start_min" in w[Named(NatToString(wd))];
          assert EntryFor(w, wd) == EntryOf(rows[wd].value);
        }
      }
      Success(Profile(w))
  }

  // ---------------------------------------------------------------------
  // Round trips

  /** Saving the editor's form and reading the week back gives exactly the
      minutes the form describes, and the read inserts nothing. */
  lemma FormRoundTrip(s: Store, user: User, form: Form)
    requires forall wd :: IsWeekday(wd) ==> FormRow(form, wd).Some?
    ensures ProfileFromForm(form).Success?
    ensures var s1 := ApplyProfile(s, user, ProfileFromForm(form).value);
            var read := GetWeekSchedule(s1, user);
            && read.store == s1
            && forall wd :: IsWeekday(wd) ==> read.week[wd] == FormRow(form, wd).value
  {
    var s1 := ApplyProfile(s, user, ProfileFromForm(form).value);
    var read := GetWeekSchedule(s1, user);
    assert read.store.schedules == s1.schedules;
  }

  /** A field holding the decimal text of an integer reads as that integer. */
  lemma FormIntReadsDecimal(form: Form, key: string, i: int, dflt: int, fallback: int)
    ensures FormInt(form[key := IntToString(i)], key, dflt, fallback) == Some(i)
  {
    ParseIntOfIntToString(i);
  }

  /** An empty form describes 15:00 to 18:00 with 120 minutes every day. */
  lemma EmptyFormDefaults()
    ensures ProfileFromForm(map[]).Success?
    ensures forall wd :: IsWeekday(wd) ==> RowFor(ProfileFromForm(map[]).value.week, wd) == ScheduleRow(900, 1080, 120)
  {
    forall wd | IsWeekday(wd) ensures FormRow(map[], wd) == Some(ScheduleRow(900, 1080, 120)) {
      EmptyFormRow(wd);
    }
  }

  lemma EmptyFormRow(wd: nat)
    ensures FormRow(map[], wd) == Some(ScheduleRow(900, 1080, 120))
  {
  }

  /** Empty fields are not missing ones: an empty budget reads as 0, an empty
      start hour as 15. */
  lemma EmptyFieldFallbacks(form: Form, wd: nat)
    requires FieldName(wd, "_daily") in form && form[FieldName(wd, "_daily")] == ""
    requires FieldName(wd, "_start_h") in form && form[FieldName(wd, "_start_h")] == ""
    requires FormRow(form, wd).Some?
    ensures FormRow(form, wd).value.dailyMinutes == 0
    ensures FormRow(form, wd).value.startMin == 15 * 60 + FormInt(form, FieldName(wd, "_start_m"), 0, 0).value
  {
  }
}
