# Kids-Control access decisions, in Dafny

Kids-Control decides whether a child may use the computer right now. Its
core is `compute_access`, a fixed precedence chain:

1. unknown child;
2. the "unlimited today" toggle;
3. a running timed grant;
4. the weekday's schedule row;
5. the time window;
6. a zero daily budget;
7. a per-minute usage heartbeat;
8. the daily limit;
9. the pre-warning before the window closes.

Around that core sit the administrator's actions:

- the stacking "+1 hour" grant;
- the day toggle;
- the reset of today's counter;
- the schedule editor, which reads a week, turns form fields into a profile, and writes a profile onto a child's weekday rows;
- saved profiles kept as JSON files under sanitised names, plus three built-in presets.

This project models those parts as pure functions over an immutable store.
It proves what the code promises and a few things it does not.

Modules:

- `Store`: the tables as maps keyed by their unique constraints. The grant table is an append-only sequence.
- `Policy`: the engine.
  - `Decide` is `compute_access` at one clock reading. It returns a reason-tagged `Decision` and the store after the call.
  - `Heartbeat`, `ChargeToday`, `Verdict` and `Meter` are its stateful steps.
- `PolicyProperties`: properties that relate several calls, such as idempotence, steady polling, the stall after a gap, and write-once pre-warnings.
- `Format`: `fmt_hm_from_minutes` and `fmt_remaining`, each with a reader that recovers what was printed.
- `Decimal`: Python's `str` and `int` on integers.
- `Admin`: `grant_hour`, `grant_day_toggle` and the two reset handlers, and how each interacts with `Decide`.
- `Schedules`: `_get_week_schedule`, `_profile_from_form` and `_apply_profile_to_user`.
- `Profiles`: `_safe_name`, `save_profile`, `load_profile` and `list_profiles` over a directory modelled as a map from file name to profile, plus `PRESETS`.
- `StringOrder`: Python's string order and `sorted`.
- `ProfileProperties`: what applying a preset does to the engine.

Clock readings, the order in which the directory hands out its files, and the
administrator's user name are parameters. A clock reading is `Clock(utc, day, weekday, minute)`. Instants are whole UTC
seconds. Local days are day numbers, whose order is the order of the ISO date
strings the source compares.

## Model

| member | source | states |
|---|---|---|
| Policy.Decide | app/policy.py:37-187 | Each reason is returned exactly when its gate is the first one that fires. The unknown child is denied. The toggle wins over grants. The timed grant reported is the latest of the child's grants of any kind, with its seconds left and "Noch …" text. No schedule row, outside the inclusive window, and a zero budget each deny with their own reason. Only a call that reaches the heartbeat may change the store, and only its usage and pre-warning tables. The decision allows exactly when the toggle is on, a grant is running, or the charged usage is below the budget. |
| Policy.Heartbeat | app/policy.py:116-138 | One or two whole minutes since the last charge are added and the charge instant moves to now. A negative gap, or one of three minutes or more, leaves the row untouched. The charge never exceeds two minutes and never exceeds the elapsed time. |
| Policy.Cleanup | app/policy.py:111-114 | Usage rows of every child older than 14 days before today are deleted. All others are kept unchanged. |
| Policy.ChargeToday | app/policy.py:111-138 | After the cleanup, today's row is created at zero if it is missing and then charged by one heartbeat. No other row changes. |
| Policy.RecordPrewarn | app/policy.py:162-169 | The insert into the unique pre-warning log is swallowed on a duplicate, so the first write of a key wins. |
| Policy.Verdict | app/policy.py:140-187 | "daily-limit-reached" with 0 remaining is returned exactly when usage has reached the budget. Otherwise the decision allows and reports used, limit, remaining (at least 1), minutes left in the window, and the end formatted "HH:MM". It warns exactly when the warn threshold (default 10) is positive and the window closes within it. A pre-warning row keyed by child, day and mode (default "LOCK") is recorded exactly when it warns. |
| PolicyProperties.DecideIdempotent | app/policy.py:116-169 | Two checks at the same instant give the same decision, and the second leaves the store as the first left it: no double charge and no second pre-warning. |
| PolicyProperties.ChargeTodayIdempotent | app/policy.py:129-138 | Charging twice at one instant charges once. |
| PolicyProperties.VerdictIdempotent | app/policy.py:140-169 | Repeating the limit and pre-warning steps on their own result changes nothing. |
| PolicyProperties.MeterIdempotent | app/policy.py:111-187 | Repeating the usage steps at the same instant changes nothing. |
| PolicyProperties.WindowEndReadsBack | app/policy.py:171-180 | The reported window end reads back as the schedule's end minute. For ends below 100 hours it has the form HH:MM. |
| PolicyProperties.UsageMonotone | app/policy.py:129-138 | A check raises today's charge by zero to two minutes and never lowers it. |
| PolicyProperties.StallAfterGap | app/policy.py:129-138 | After three minutes or more of silence, a check leaves today's row exactly as it was, including the charge instant. |
| PolicyProperties.StallPersists | app/policy.py:129-138 | Consequently every later same-day check charges nothing: as written, usage stops accruing for the rest of the day after one such gap. |
| PolicyProperties.ReplayNeverLowersUsage | app/policy.py:129-138 | Any series of same-day checks never lowers today's charge. |
| PolicyProperties.LimitSticky | app/policy.py:140-155 | Once usage has reached the budget, every check that reaches the heartbeat denies with nothing remaining. |
| PolicyProperties.DecideUsage | app/policy.py:111-138 | A check that reaches the heartbeat leaves the usage table exactly as the cleanup-and-charge step makes it. |
| PolicyProperties.SteadyCharge | app/policy.py:129-138 | Two charges a minute apart, the first following a charge less than three minutes old, add exactly one minute the second time. |
| PolicyProperties.SteadyPolling | app/policy.py:116-138 | Of two in-window polls a minute apart, the first following a charge less than three minutes old (or creating today's row), the second is charged exactly one minute. |
| PolicyProperties.FirstPollOfDay | app/policy.py:116-138 | The first check of the day that reaches the heartbeat creates today's row with nothing charged and the charge instant at now. |
| PolicyProperties.SteadyPollingReplay | app/policy.py:116-138 | Any number of in-window polls a minute apart, starting from a charge less than a minute old, add exactly one minute per poll. With the first check of the day this covers every poll after the first. |
| PolicyProperties.HeartbeatStallExample | app/policy.py:129-138 | As written: last charged at 0 s, polls at 180 s and 240 s both charge nothing, although the second comes a minute after the first. |
| PolicyProperties.ResumingHeartbeat | app/policy.py:129-138 | Corrected heartbeat: charges exactly what the heartbeat charges, and differs only by moving the charge instant to now after a gap of three minutes or more. |
| PolicyProperties.ResumesAfterGap | app/policy.py:129-138 | With the corrected heartbeat, a poll after a long gap charges nothing and a poll a minute later charges one minute again. |
| PolicyProperties.PrewarnWriteOnce | app/policy.py:162-169 | A check never changes or removes a pre-warning row. It adds at most the row for this child, today and the child's mode. |
| PolicyProperties.HeartbeatSameInstant | app/policy.py:129-137 | A second heartbeat at the same instant charges nothing. |
| Format.FormatHMRoundTrip | app/policy.py:22-25 | The "H:MM" text of any integer minute, negative or past midnight included, reads back as exactly that minute. Floor division and a non-negative remainder match Python's `//` and `%`. |
| Format.FormatHM | app/policy.py:22-25 | For minutes from 0 up to 100 hours the text is five characters: two digits, ':' and two digits. |
| Format.FormatRemaining | app/policy.py:27-35 | The text shows hours ("h") exactly when at least an hour remains. |
| Format.FormatRemainingRoundTrip | app/policy.py:27-35 | The text reads back as hours and minutes below 60 naming the clamped time rounded down to whole minutes. A negative count shows as zero. |
| Decimal.ParseIntOfIntToString | app/main.py:397-401 | `int(str(i)) == i` for every integer, with the sign handled. |
| Decimal.ParseNatOfNatToString | app/main.py:397-401 | Reading the decimal digits of a natural number gives it back. |
| Decimal.NatToStringInjective | app/main.py:402 | Distinct weekday numbers get distinct `str` keys, so the seven entries of a week never collide. |
| Admin.GrantHour | app/main.py:176-210 | Exactly one HOUR row is appended for the child, stamped by the granting admin, and nothing else changes. It ends an hour after the later of now and the latest HOUR grant, so at least an hour from now and an hour past every earlier HOUR grant of the child. |
| Admin.GrantsStack | app/main.py:188-197 | A second grant made before the first runs out ends exactly one hour after the first, rather than an hour from now. |
| Admin.GrantThenDecide | app/main.py:176-210 | Right after a grant, a check at the same instant allows through the timed grant with at least an hour left, or through the day toggle when that is on. |
| Admin.GrantDayToggle | app/main.py:213-236 | The toggle row ends up dated today. It is on exactly when "unlimited today" was off before. No other child's row changes. |
| Admin.ToggleTwice | app/main.py:222-231 | Two toggles on one day restore whether the child has unlimited access, and restore the stored flag when the row was already dated today. |
| Admin.ToggleThenDecide | app/main.py:213-236 | After a toggle, a same-day check answers "override-day" exactly when the toggle was off before. |
| Admin.ResetDaily | app/main.py:158-170 | Only the child's row for today is deleted. Every other row is kept unchanged. |
| Admin.ResetThenDecide | app/main.py:239-251 | After a reset, the next check that reaches the heartbeat recreates today's row at zero and allows with the whole budget left. |
| Schedules.GetWeekSchedule | app/main.py:382-392 | All seven weekdays are returned. A missing weekday is created as 15:00–18:30 with 120 minutes. Existing rows are returned unchanged, and nothing else is written. |
| Schedules.ProfileFromForm | app/main.py:394-403 | Succeeds exactly when every field of every weekday reads as an integer. Otherwise it names the first weekday that fails. The week has exactly the keys "0" to "6". Each weekday's entry is hours × 60 + minutes with the stated defaults and empty-field fallbacks. |
| Schedules.Collect | app/main.py:396-402 | The week has one entry per weekday under its decimal name and no other key, or reports the first weekday whose row failed. |
| Schedules.ApplyProfile | app/main.py:405-420 | The child ends up with exactly one row for each of the seven weekdays. Each row is taken from the entry under the weekday's name, else its number, else the defaults 900/1110/120. Other children's rows are untouched. |
| Schedules.FormRoundTrip | app/main.py:394-420 | When every field of the form reads as an integer, the form becomes a profile. Writing it and reading the week back then gives exactly the minutes the form describes, and the read inserts nothing. |
| Schedules.FormIntReadsDecimal | app/main.py:397-401 | A field holding the decimal text of an integer reads as that integer. |
| Schedules.EmptyFormDefaults | app/main.py:397-401 | An empty form describes 15:00 to 18:00 with 120 minutes every day. |
| Schedules.EmptyFieldFallbacks | app/main.py:397-401 | An empty budget field reads as 0 rather than 120. An empty start hour reads as 15. |
| Profiles.SafeName | app/profiles.py:36-42 | At most 60 characters, each a letter, digit, '-' or '_'. |
| Profiles.SafeNameEmpty | app/profiles.py:36-42 | The name is empty exactly when the input holds no letter, digit, '-' or '_'. |
| Profiles.SafeNameIdempotent | app/profiles.py:36-42 | Sanitising twice is sanitising once. |
| Profiles.SafeNameFixesStems | app/profiles.py:36-42 | A name that is already a valid stem passes through unchanged. |
| Profiles.SafeNameIgnoresSurroundingSpace | app/main.py:299-307 | The handler's own `strip()` before saving or loading does not change the file used. |
| Profiles.KeepAllowedCounts | app/profiles.py:38-40 | The filter keeps every occurrence of a letter, digit, '-', '_' or space and drops every other character. |
| Profiles.KeepAllowedOne | app/profiles.py:38-40 | On a single character the filter keeps it exactly when it is a letter, digit, '-', '_' or space. |
| Profiles.KeepAllowedAppend | app/profiles.py:38-40 | The filter of a concatenation is the concatenation of the filters, so the kept characters stay in their order. |
| Profiles.FileNameStaysInDirectory | app/profiles.py:57 | The file name has no '/', and its only '.' starts the ".json" suffix, so a save never leaves the profile directory. |
| Profiles.SaveProfile | app/profiles.py:52-60 | A name with no usable character is refused and nothing changes. Otherwise exactly the file of the sanitised name is written or overwritten, and it holds the saved profile. |
| Profiles.LoadProfile | app/profiles.py:62-71 | The saved profile is found exactly when the name has a usable character and its file exists. |
| Profiles.SaveThenLoad | app/profiles.py:52-71 | Loading after saving gives back the saved profile under the same name and under every name that sanitises alike. Loads of other names are unaffected. |
| Profiles.SaveOverwrites | app/profiles.py:52-60 | Saving twice under one name keeps only the second profile. |
| Profiles.ListProfiles | app/profiles.py:44-50 | The list is sorted, holds each JSON file's name once (with '_' shown as a space), and holds only names of JSON files in the directory. |
| Profiles.ListedMembers | app/profiles.py:47-49 | A name is listed exactly when some JSON file shows as it. |
| Profiles.ListedPermutation | app/profiles.py:47-49 | Permuting the directory's files permutes the names collected. |
| Profiles.ListingOrderIrrelevant | app/profiles.py:44-50 | Whatever order the directory hands out its files in, the returned list is the same. |
| Profiles.DisplayRoundTrip | app/profiles.py:36-49 | A stem that does not start or end with '_' sanitises back to itself from its listed name. |
| Profiles.ListedNameLoads | app/profiles.py:44-71 | When no stem starts or ends with '_', loading any listed name finds the file it was listed from. |
| Profiles.LeadingUnderscoreDoesNotRoundTrip | app/profiles.py:36-49 | A stem starting with '_' can be saved, but is listed with a leading space that the sanitiser strips, so loading the listed name looks for a different file. |
| Profiles.PresetsWellFormed | app/profiles.py:5-31 | Every preset names each weekday "0" to "6" with all three fields, a window inside the day, and no more minutes than the window holds. |
| ProfileProperties.PresetRowsSane | app/main.py:292-294 | Applying any preset gives every weekday a window inside the day and a budget no longer than the window. |
| ProfileProperties.SaneProfileRows | app/main.py:405-420 | Applying a well-formed profile gives each weekday exactly the profile's entry, with no defaults. |
| ProfileProperties.LockedWeekEmpty | app/profiles.py:28-30 | Every weekday of "Komplett gesperrt" has a zero budget. |
| ProfileProperties.EmptyBudgetDenies | app/policy.py:98-109 | After applying a profile with no minutes on any weekday, a check without toggle or grant denies and charges nothing. |
| ProfileProperties.LockedPresetDenies | app/main.py:292-294 | Once "Komplett gesperrt" is applied, the schedule never lets the child through. Only the toggle or a timed grant can. |
| StringOrder.Sort | app/profiles.py:50 | The result is sorted by Python's string order and is a permutation of the input. |
| StringOrder.Insert | app/profiles.py:50 | Inserting into a sorted list keeps it sorted and adds exactly the one element. |
| StringOrder.SortedUnique | app/profiles.py:50 | A collection of strings has only one sorted arrangement. |
| StringOrder.LessEqTotal | app/profiles.py:50 | Python's string order is total. |
| StringOrder.LessEqTransitive | app/profiles.py:50 | Python's string order is transitive. |
| StringOrder.LessEqAntisymmetric | app/profiles.py:50 | Python's string order is antisymmetric. |
| Store.Latest | app/policy.py:59-64 | "Order by grant_until desc, first" is the largest end among the selected grants, and none exists exactly when no grant is selected. |

## Left out

- The debug trace (`include_debug`) is left out. It echoes the clock reading, the schedule row and the warn threshold for display. No decision field and no store change depends on it.
- Sessions, admin checks, redirects, HTML rendering, LDAP login and the child-view token are left out. They do not affect any decision.
- Time zones, DST and sub-second clocks are not modelled. One reading `Clock(utc, day, weekday, minute)` stands for the four clock reads, and instants are whole seconds, so `int(total_seconds() // 60)` is floor division of the whole-second gap.
- Concurrency is not modelled. Each call is atomic. The `IntegrityError` race on the pre-warning insert is modelled only as a duplicate insert being swallowed.
- `ChildPolicy.hard_lock` is never read by the core and is not modelled. `after_expiry_mode` is read only to form the pre-warning key.
- `int(sched.daily_minutes or 0)` is not modelled: a NULL budget cannot occur in the model, because budgets are integers.
- Decimal.ParseInt: Python's `int()` also accepts surrounding whitespace, '_' between digits and non-ASCII digits. The model accepts only an optional sign followed by ASCII digits and rejects everything else, where the handler would raise.
- Profiles.SafeName: `str.isalnum` is modelled on ASCII letters and digits, and `str.strip` on ASCII whitespace and the separators U+001C to U+001F. Python keeps non-ASCII letters and digits ('ü'.isalnum() is true); the model drops them. So "Prüfung" is saved by the source as `Prüfung.json` and by the model as `Prfung.json`, and a name such as "ÄÖÜ" is saved by the source but refused by the model (SaveProfile and LoadProfile inherit this). Non-ASCII whitespace such as U+00A0, which Python strips, is kept by the model's trims and then dropped by its filter.
- Profiles.DisplayRoundTrip and Profiles.ListedNameLoads: proved only for stems made of ASCII letters, digits, '-' and '_' (`IsStem`). Stems with non-ASCII letters, which the source can write, are not covered.
- Profiles.SaveProfile: JSON encoding is not modelled. A profile is stored and loaded as the same value, so integer week keys coming back as strings, non-integer values, and files that are not valid JSON are outside the model.
- Profiles.LoadProfile: the handler's `if prof:` skips an empty JSON object. The model returns the loaded profile and leaves that check to the caller.
- `ensure_profile_dir` and the `PROFILE_DIR` path are left out. The directory is a map from file name to profile.
- `os.listdir` order is a parameter of `ListProfiles`: any duplicate-free enumeration of the directory.
- The pre-warning row's `shown_at` is local ISO text in the source. The model stores the UTC instant of the check instead. Nothing in the core reads the value back.
- Schedules.ApplyProfile: the `int(...)` conversions of stored profile values are identities, because profile values are integers in the model.
- `_display_name` and the display names of children are left out.

Notes on the code as written:

- The form's default end time (18:00) differs from the default row the schedule reader creates (18:30). Both are modelled as written.
- A heartbeat gap of three minutes or more charges nothing and does not move the charge instant. After such a gap a child is never charged again that day (`PolicyProperties.StallPersists`). The engine is modelled as written; see "## Findings" for the corrected heartbeat.
- A saved stem that starts or ends with '_' is listed under a name that does not load it back (`Profiles.LeadingUnderscoreDoesNotRoundTrip`). This is modelled as written.

## Findings

| source | as written | input that shows it | evidently intended | confidence | as-written member | corrected member |
|---|---|---|---|---|---|---|
| app/policy.py:129-138 | A gap of three minutes or more is clamped to zero minutes, and because only a positive charge moves `last_seen_at`, the charge instant stays where it was. Every later poll of the day sees an ever larger gap and is never charged. | Last charged at 0 s, polls at 180 s and 240 s: neither is charged, and no later poll that day is either. | Leave the gap unbilled but move `last_seen_at` to now, so polling a minute later is charged again. | high (not executed) | PolicyProperties.HeartbeatStallExample, PolicyProperties.StallPersists | PolicyProperties.ResumingHeartbeat, PolicyProperties.ResumesAfterGap |

The decision engine (`Policy.Decide`) keeps the heartbeat as written, so that every decision matches the source. The corrected heartbeat stands beside it, together with its resume property.
