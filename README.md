# studiolog practice statistics, in Dafny

This project models the computational core of studiolog, a practice journal
where a musician logs sessions (a date and a duration, optionally an
instrument and a piece). The model covers these parts:

- the **current streak** shown on the practice list. The ORM query keeps the
  user's dates up to today, latest first. A greedy walk then starts from a
  cursor set to tomorrow. A date one day before the cursor extends the streak.
  A repeat of the cursor's day is skipped. Anything else ends the walk.
- the **most practiced** instrument or piece. A scan keeps the strictly largest
  session total, so the first entity wins a tie. Entities without sessions are
  skipped. The result is `("", 0)` when nothing exceeds zero.
- the **duration validator** of the practice create and update forms. It
  accepts exactly the durations in [0, 23:59:59].
- the `time` and `total_time` **template filters**. They render a duration as
  `"{hrs}h{mins}m"`, `"{mins}m"` or `"{hours}h"`, and a missing one as `"0m"`.

Modules, one per concern:

- `Wrappers`: `Option` (Python's `None`) and `Outcome` (pass, or fail with the
  validator's message).
- `Decimal`: `str` of a non-negative integer. `NatToString` has a partner,
  `DigitsValue`, that reads the digits back.
- `Durations`: a non-negative `timedelta` as days plus seconds in [0, 86399].
  `FromSeconds` is Python's normalisation of a second count into that form.
- `Modulo`: the two filters.
- `DurationValidator`: `validate_duration`.
- `Streak`: `current_streak`. `RunEndingToday` is the specification: the length
  of the run of consecutive days ending today that all occur among the dates. It is
  defined over the set of distinct days. The method `CurrentStreak` is the
  walk, proved equal to it.
- `MostPracticed`: `get_most_practiced`, plus the `Sum` and `Max` aggregates
  as in-memory reductions that are `None` when there are no sessions.

Day numbers stand for dates. Session durations are whole seconds as `nat`.
`today` is a parameter.

A single session dated yesterday gives a streak of 0. The cursor starts at
tomorrow, so the first gap is 2 and the walk stops at once
(`Streak.StreakNeedsToday`).

## Model

| member | source | states |
|---|---|---|
| `Streak.CurrentStreak` | base/views.py:63-89 | The walk returns exactly `RunEndingToday(dates, today)`. Every day in (today − result, today] has a session; the day today − result has none. |
| `Streak.EntryDates` | base/views.py:71 | The query result is in descending order. A date occurs in it iff it is a session date ≤ today. |
| `Streak.EntryDatesKeepsEverySession` | base/views.py:71 | The query keeps one entry per session dated ≤ today: each such date occurs as often as in the input. Later dates do not occur. |
| `Streak.SortDescending` | base/views.py:71 | `order_by("-date")`: the result is descending and a permutation (same multiset) of the input. |
| `Streak.OnOrBefore` | base/views.py:71 | `date__lte = today`: each date ≤ today occurs as often as in the input, and later dates do not occur. |
| `Streak.RunEndingAtIsLongestRun` | base/views.py:73-84 | The run ending at a day covers every day from there back to the run's start. The day before that start is absent. The run is no longer than the number of distinct days. |
| `Streak.RunEndingAtUnique` | base/views.py:73-84 | A run that is present and not extended is the one the specification finds, so the specification is the largest such run. |
| `Streak.StreakIsLongestRunEndingToday` | base/views.py:71-84 | The streak is the largest k such that today, today−1, …, today−k+1 all occur. It is at most the number of distinct dates, which is at most the number of entries. |
| `Streak.StreakNeedsToday` | base/views.py:64-82 | An empty list gives 0. The streak is positive iff there is a session dated today, since the cursor starts at tomorrow. |
| `Streak.StreakIgnoresFutureDates` | base/views.py:71 | Appending sessions dated after today never changes the streak. |
| `Streak.StreakIgnoresRepeatedDay` | base/views.py:79-80 | Inserting another session on a day already present, at any position, leaves the streak unchanged. |
| `Streak.RunEndingAtIgnoresLaterDays` | base/views.py:71-84 | The run ending at a day depends only on which days up to that day are present. |
| `Streak.StreakExamples` | base/views.py:63-89 | Worked cases: [today] gives 1; three consecutive days give 3; [today, today, today−1] gives 2; [today−1] gives 0; [today, today−2] gives 1. |
| `MostPracticed.GetMostPracticed` | base/views.py:187-199 | The result satisfies `IsMostPracticed`: the hours are ≥ every entity's total. Positive hours come with the name of the first entity whose total equals them. Zero hours come with the name "". The copy for pieces at base/views.py:264-276 is the same code. |
| `MostPracticed.IsMostPracticedUnique` | base/views.py:195-197 | That description determines the (name, hours) pair uniquely. So the strict `>` with first-wins ties is fully specified. |
| `MostPracticed.NothingPracticed` | base/views.py:188-193 | With no entities, or only entities whose sessions add up to zero or that have no sessions, the pair is ("", 0). |
| `MostPracticed.TieGoesToFirst` | base/views.py:195-197 | Two entities tied at 2 hours and a third without sessions: the first-listed name wins with 7200 seconds. |
| `MostPracticed.SumDurations` | base/views.py:191-193 | `Sum('duration')` is absent iff there are no sessions. Otherwise it is the total of the durations. |
| `MostPracticed.MaxDuration` | base/views.py:97 | `Max('duration')` is absent iff there are no sessions. Otherwise it is one of the durations and ≥ each of them. |
| `MostPracticed.TotalOfConcat` | base/views.py:191 | The sum is additive over splitting the sessions into two lists. |
| `MostPracticed.TotalBoundsEachSession` | base/views.py:191 | Every session's duration is ≤ the total. |
| `DurationValidator.ValidateDuration` | base/views.py:117-125 | Passes iff 0 ≤ value ≤ 23:59:59. A negative value fails with "duration is too low". One above the bound fails with "duration is too high". The copy at base/views.py:153-161 is identical. |
| `DurationValidator.AcceptedIffLessThanADay` | base/views.py:117-125 | Accepted iff non-negative with no whole day in its normalised form, i.e. shorter than 24 hours. |
| `DurationValidator.AcceptedSessionHasAtMost23Hours` | base/views.py:122-125 | An accepted duration shows at most 23 hours in the filters. |
| `DurationValidator.ValidatorBoundaries` | base/views.py:118-124 | 0 and exactly 23:59:59 are accepted. −1 second is too low. 23:59:59 plus one second is too high. |
| `Durations.FromSeconds` | base/templatetags/modulo.py:12-13 | The days/seconds split of a timedelta keeps the total number of seconds. |
| `Durations.FromSecondsOfSeconds` | base/templatetags/modulo.py:12-13 | Every (days, seconds in 0..86399) value is the normalisation of its own total, so the split is unique. |
| `Decimal.NatToString` | base/templatetags/modulo.py:15-16 | `str` of a non-negative int is non-empty. It is all digits, with no leading zero except for 0 itself. |
| `Decimal.DigitsValueOfNatToString` | base/templatetags/modulo.py:15-16 | Reading the rendered digits back gives the number. |
| `Decimal.NatToStringCanonical` | base/templatetags/modulo.py:15-16 | The rendering of `n` is canonical for `n`: non-empty digits with value `n` and no leading zero except for "0". |
| `Decimal.NatToStringInjective` | base/templatetags/modulo.py:15-16 | Distinct numbers render differently. |
| `Modulo.Hours` | base/templatetags/modulo.py:12 | `days*24 + seconds//3600` is the duration's whole hours. |
| `Modulo.Minutes` | base/templatetags/modulo.py:13 | The minutes are in 0..59 and are the whole minutes within the last partial hour. Leftover seconds are dropped. |
| `Modulo.Time` | base/templatetags/modulo.py:8-16 | `time(None)` is "0m". Every output ends in 'm'. An 'h' appears iff there is a duration with a positive hour count. With zero hours the digits before 'm' are the minutes in canonical decimal: non-empty, no leading zero. Otherwise the digits before the 'h' are the hours and those between 'h' and 'm' the minutes, both canonical. |
| `Modulo.HoursMinutesText` | base/templatetags/modulo.py:14-16 | The text for (hours, minutes) ends in 'm' and has an 'h' iff hours > 0. Its digit groups are the canonical decimal forms (non-empty, no leading zero) of the hours (when positive) and the minutes. |
| `Modulo.TotalTime` | base/templatetags/modulo.py:18-25 | `total_time(None)` is "0m". The output contains 'h' iff the hours are positive. With positive hours it is the hours in canonical decimal (non-empty, no leading zero) then 'h'. With zero hours it is the minutes in canonical decimal then 'm'. |
| `Modulo.HoursAndMinutesAreWholeMinutes` | base/templatetags/modulo.py:12-13 | hrs·60 + mins equals the total seconds divided by 60 (floor), each day counted as 24 hours. |
| `Modulo.TotalTimeIsPrefixOfTime` | base/templatetags/modulo.py:14-25 | `total_time` is always a prefix of `time`. The two are equal iff there is no duration or the hours are 0. |
| `Modulo.TimeDeterminesHoursAndMinutes` | base/templatetags/modulo.py:14-16 | Equal `time` strings mean equal hours and minutes, so the rendering is unambiguous. |
| `Modulo.HoursMinutesTextInjective` | base/templatetags/modulo.py:14-16 | The text written for (hours, minutes) determines both numbers. |
| `Modulo.FormatNinetyMinutes` | base/templatetags/modulo.py:8-25 | 90 minutes renders "1h30m" by `time` and "1h" by `total_time`. |
| `Modulo.FormatWholeHour` | base/templatetags/modulo.py:13-16 | One hour renders "1h0m": zero minutes are still written. |
| `Modulo.FormatMinutesWithoutPadding` | base/templatetags/modulo.py:13-16 | 65 minutes renders "1h5m": no padding. |
| `Modulo.FormatFortyFiveMinutes` | base/templatetags/modulo.py:8-25 | 45 minutes renders "45m" by both filters. |

## Left out

- Django views, forms, widgets, login, registration and redirects (base/views.py:23-51, 104-180, 212-345): presentation and authentication glue with no computation.
- The `Avg` and `Count` aggregates (base/views.py:98, 209, 219, 284, 294): `Avg` of durations yields fractional timedeltas, and both are database calls. `Sum` and `Max` are modelled as reductions; where they are used in `get_context_data` is not.
- `datetime.date.today()` and `datetime.now()`: `today` is a parameter of the streak.
- The user filter of the streak query (`user=self.request.user`): the dates passed in are taken to be one user's already.
- The `print` calls in `get_most_practiced` (base/views.py:194, 271): output only.
- The database's internal order among sessions with equal dates: the model sorts by day number only, which is all the walk looks at.
- `DurationValidator.ValidateDuration`: works on whole seconds, so it does not model sub-second durations (the source refuses 23:59:59.5, which whole seconds cannot express).
- `Modulo.Time`, `Modulo.TotalTime`: defined on non-negative durations only; negative timedeltas and microseconds are not modelled. The validator refuses negative durations anyway.
- `MostPracticed.GetMostPracticed`: session durations are whole seconds, so sub-second differences between totals are not modelled.
- base/filters.py, base/urls.py and base/models.py are not part of this model beyond the data shapes (a session's date and duration, and the `sessions` back-reference of instruments and pieces).
