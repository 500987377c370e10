# Creation streak tracker

A model of the daily "creation streak" tracker of the `motivation` web
application (`useMotivation()` in `src/composables/useMotivation.ts`). The
tracker keeps a streak count and the day of the last marked creation,
loads both from browser local storage once, and writes them back whenever
they change:

- `markCreated` refuses a second mark on the same day; otherwise it starts,
  extends or restarts the streak depending on the day gap since the last
  mark, moves the marker to today, persists both and congratulates the user
  with the count ("jour" or "jours").
- `checkStreak` zeroes a streak whose last mark is more than a day old and
  reports that it was broken; it never touches the marker.
- `hasCreatedToday` tells whether the marker is today.
- `scheduleNotification` persists the configured "HH:MM" reminder time and
  arms a timer for its next occurrence strictly in the future.

Files:

- `wrappers.dfy` — `Option`.
- `decimal.dfy` — decimal rendering and reading of the stored numbers
  (`toString` and `parseInt`), with their round trips.
- `streak.dfy` — the streak state, the pure transitions `Mark` and `Check`,
  their replies and messages, and what a history of marks and checks adds up
  to: the count is the length of the run of consecutive days ending with the
  last mark.
- `schedule.dfy` — splitting "HH:MM" and the delay to its next occurrence.
- `motivation.dfy` — the `Tracker` class: its four fields (`streak`, `last`,
  `notificationTime`, `storage`), the initial load, and the methods that
  update them in place. Its invariant `Valid()` says that loading the
  storage again gives back the same tracker.

Calendar days are integer day numbers, so the day gap the source computes
from two date strings is `today - last`. The stored marker is rendered by a
stand-in for the date string: the decimal day number. The source uses the
marker twice: it compares it as a string with today's (lines 54 and 107),
and it parses it back into a date to compute the day gap (lines 59 and 90).
`DateStringInjective` shows that comparing the strings is comparing the
days, and `Decimal.ParseIntToString` shows that reading a stored marker
back (`StoredLast`) gives exactly the day that was written. Times of day are
milliseconds since local midnight. The current day and time are parameters
of the methods.

Edge cases of the source, as the model states them:

- The source has no case for a clock that moved back: such a mark falls
  through both gap tests (lines 64-68), so it succeeds, keeps the count
  and moves the marker to the earlier day (line 73). `Streak.Mark` states
  that.
- Marks and checks keep "no streak without a marker"
  (`Streak.RunConsistent`); the load at lines 38-39 does not enforce it,
  so a stored count with no stored marker is loaded as it is.
- A stored marker that is the empty string behaves exactly like no marker
  (it is falsy and never equals today), so it is loaded as no marker.
- A caller may write any string to the exported `notificationTime` ref
  (line 182), modelled by `SetNotificationTime`; storage only catches up
  when `scheduleNotification` persists it (line 149). The class invariant
  is therefore split: `StreakSaved()` holds after every method, and
  `TimeSaved()` holds again after every schedule of a non-empty time.

## Model

| member | source | states |
|---|---|---|
| `Decimal.ParseNatToString` | src/composables/useMotivation.ts:38 | reading back the stored decimal count (`parseInt` of `toString`) gives the same count |
| `Decimal.ParseIntToString` | src/composables/useMotivation.ts:39 | reading back a stored marker gives the same day |
| `Decimal.NatToString` | src/composables/useMotivation.ts:75 | the stored count is a non-empty string of digits without a leading zero |
| `Motivation.DateStringInjective` | src/composables/useMotivation.ts:54 | two markers are equal as strings exactly when they are the same day |
| `Motivation.StoredTime` | src/composables/useMotivation.ts:40 | the loaded notification time is the stored one when present and non-empty, otherwise "09:00"; never empty |
| `Motivation.LoadAfterMark` | src/composables/useMotivation.ts:73-75 | after the two writes of a successful mark, loading storage yields exactly the new count and marker, and the notification time is unchanged |
| `Motivation.LoadAfterBreak` | src/composables/useMotivation.ts:96-97 | after a break writes "0", loading storage yields count 0 and the same marker |
| `Motivation.Tracker.Load` | src/composables/useMotivation.ts:38-40 | each field is read from its key, absent or empty entries giving count 0, no marker and "09:00"; the result satisfies `Valid()` |
| `Motivation.Tracker.HasCreatedToday` | src/composables/useMotivation.ts:105-108 | true exactly when a marker exists and its date string equals today's |
| `Motivation.Tracker.MarkCreated` | src/composables/useMotivation.ts:51-84 | succeeds exactly when the tracker had not created today; the new state is `Mark`'s; a refusal changes nothing; a success writes marker and count to storage, makes `HasCreatedToday` true and returns the new count; keeps the streak and marker saved and the time saved if it was |
| `Motivation.Tracker.CheckStreak` | src/composables/useMotivation.ts:86-103 | the new state is `Check`'s; the marker is kept and the count never grows; storage gets "0" exactly when the reply says broken, otherwise nothing changes; keeps the streak and marker saved and the time saved if it was |
| `Motivation.Tracker.SetNotificationTime` | src/composables/useMotivation.ts:182 | a write to the exported time ref replaces the time and nothing else; storage is not written |
| `Motivation.Tracker.ScheduleNotification` | src/composables/useMotivation.ts:147-159 | stores the notification time, so that storage reads it back (a non-empty time makes the whole tracker reload as it is), keeps the streak and marker saved, and returns the delay `DelayFor` gives for it |
| `Streak.Mark` | src/composables/useMotivation.ts:54-73 | refused exactly when the marker is already today; otherwise the marker becomes today and: no marker or a gap over one day gives count 1, a gap of exactly one day adds one, a marker after today keeps the count |
| `Streak.MarkReply` | src/composables/useMotivation.ts:54-83 | a refusal fails with the "already marked" message and no count; a success carries the new count and its congratulation |
| `Streak.SuccessMessagePlural` | src/composables/useMotivation.ts:81 | the message ends in "jours !" exactly when the count exceeds one, in " jour !" otherwise, and the count can be read back from it |
| `Streak.Check` | src/composables/useMotivation.ts:89-99 | the marker is kept; the count survives when there is no marker or the last mark is at most a day old, and is 0 otherwise; the state changes exactly under the break condition; a second check on the same day breaks nothing; never increases the count |
| `Streak.CheckReply` | src/composables/useMotivation.ts:95-102 | broken exactly when the check lowers the count, and then with the warning message; no message otherwise |
| `Streak.Collapse` | src/composables/useMotivation.ts:54-56 | dropping repeated days keeps exactly the same set of days, keeps the last day, and days in calendar order become strictly increasing (which fixes the result as the distinct days in order) |
| `Streak.ReplayCollapse` | src/composables/useMotivation.ts:54-56 | a mark repeated on the day of the previous mark changes nothing, so a history of marks acts as its distinct days |
| `Streak.RunOfDistinctDays` | src/composables/useMotivation.ts:58-73 | after marks on strictly increasing days from an empty storage, the count is the length of the longest run of consecutive days ending with the last mark |
| `Streak.ReplayCountsRun` | src/composables/useMotivation.ts:54-73 | after marks in calendar order from an empty storage, same-day repeats included, the count is the length of the longest run of consecutive marked days ending with the last mark, and the marker is that day |
| `Streak.CheckAfterReplay` | src/composables/useMotivation.ts:89-99 | after such marks, a check shows that run while the last mark is at most a day old, and 0 afterwards |
| `Streak.RunConsistent` | src/composables/useMotivation.ts:65-73 | any sequence of marks and checks keeps "no count without a marker" |
| `Schedule.TimeOfDay` | src/composables/useMotivation.ts:153 | hours:minutes:00.000 is a whole minute within the day |
| `Schedule.BeforeColon` | src/composables/useMotivation.ts:148 | a field of `split(':')` is a prefix without ':', followed by ':' or the end of the string |
| `Schedule.SplitTimeFields` | src/composables/useMotivation.ts:148 | the hours are the text before the first ':', the minutes the text up to the next ':', and any further fields are ignored |
| `Schedule.SplitTimeNoColon` | src/composables/useMotivation.ts:148 | a time with no ':' is all hours and its minutes default to "0" |
| `Schedule.ParseHoursOnly` | src/composables/useMotivation.ts:148-153 | an hour alone, with no ':', reads as that hour and 0 minutes |
| `Schedule.ParseFormatTime` | src/composables/useMotivation.ts:148-153 | every "HH:MM" with a valid hour and minute is split and read back as that hour and minute |
| `Schedule.DefaultTimeIsNine` | src/composables/useMotivation.ts:40 | the default "09:00" reads as 9 hours 0 minutes |
| `Schedule.NextDelay` | src/composables/useMotivation.ts:151-159 | the delay is positive and at most one day, lands exactly on hours:minutes:00.000, and lands tomorrow exactly when today's instance is not after now |
| `Schedule.NextDelayIsNext` | src/composables/useMotivation.ts:155-159 | no earlier moment after now is at the configured time of day |
| `Schedule.RearmIsOneDay` | src/composables/useMotivation.ts:161-164 | when the timer fires on time and re-arms itself, the next delay is exactly one day |
| `Schedule.DelayFor` | src/composables/useMotivation.ts:148-159 | a time string that names a time of day gets a delay that is positive and at most one day |
| `Schedule.DelayForFormatted` | src/composables/useMotivation.ts:148-159 | every "HH:MM" with a valid hour and minute gets exactly the `NextDelay` of that hour and minute, so it lands on that time, tomorrow exactly when today's instance is not after now |

## Left out

- Vue reactivity: `ref` and `computed` values are plain fields and functions.
- Real local storage I/O: storage is an in-memory map field.
- `getRandomMotivation`, `updateMotivation` and the displayed phrase, including the phrase refresh inside `markCreated`: they rely on `Math.random` and floating-point `floor`.
- `lastCreatedDisplay`: its output is locale date formatting (`toLocaleDateString('fr-FR')`), which the model does not have.
- `requestNotificationPermission` and `sendNotification`: they are thin wrappers over the browser notification service and an asynchronous permission prompt.
- The `setTimeout` chain itself: only the delay it is armed with, and the one-day delay of each re-arm, are modelled.
- Date strings, their parsing and daylight-saving time: days are integer day numbers, so a 23-hour day that the source floors to a gap of 0 is not modelled.
- Decimal.ParseNat: reads a non-digit as the digit 0 and `Decimal.ParseInt` reads a sign only as a leading '-', where `parseInt` reads an optional sign and the leading digits, stops at the first non-digit, and gives NaN only when there are no digits; the tracker only reads back strings it wrote itself.
- Schedule.DelayFor: gives None for a time field that is empty, not all digits, or out of range (hour over 23, minute over 59), where the source prefix-parses, produces NaN, or lets `setHours` overflow into the next hour or day.
- JavaScript numbers are doubles; the count is an unbounded natural number.
