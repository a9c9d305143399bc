# Common free time across time zones

The registration page of `login.py` stores, for every user, a free-time label
built from a range slider over the hours 0..48, where an end above 24 means "on
the next day". The same page, on request ("Find Common Available Hours"),
converts every stored label to UTC hours of the day and reports the window
from the latest start to the earliest end, when that window is not empty.

This project models that computation and proves what it does:

- `results.dfy`: `Option` and `Result`, for the places where the source raises.
- `text.dfy`: the pieces of Python string handling the code relies on:
  `str.split`, `int()` on a string, and the `:02d` format.
- `free_time_label.dfy`: the label built at lines 45-48. It comes with a
  reference reader (`ParseLabel`) and a round-trip proof.
- `utc_conversion.dfy`: `convert_to_utc` (lines 56-61). The time zone is a
  whole-hour offset `k` (UTC+k). The parse at line 57 is modelled literally.
  It splits the text before " - " at ':', so its two values are the start
  hour and the start's minute field. The end the user chose is never read,
  and the "end" always converts to local midnight. The lemmas
  `ParseHoursOfLabel` and `ConvertLabel` state this outright.
- `common_hours.dfy`: `find_common_hours` (lines 64-77). It is an imperative
  method whose loop collects the ranges, proved equal to the specification
  function `CommonHoursOf`. Lemmas cover the max/min rule, containment, order
  independence, monotone shrinking, the loss of windows that cross midnight,
  and what the literal parse implies for registered users.

Consequences of the code as written:

- A user in UTC+2 free 10:00 - 12:00 gets the window 8 - 22 UTC, because the
  end that is read is the start's minute field, which converts to local
  midnight (`ConvertExample`, `SingleUserExample`).
- An empty user list is a precondition. `max([])` would raise, and the only
  caller (`main`, line 125) checks `users_df.empty` first (line 119).
- A UTC range that crosses midnight is taken literally as an empty range, so a
  single such range makes the result "no common time" (`CrossingRangeEmpties`),
  even where the users share an hour on the clock (`MidnightWindowLost`,
  `MidnightWindowLostFromForm`).

## Model

| member | source | states |
|---|---|---|
| Text.Pad2 | login.py:46-48 | `:02d` of an hour below 100 is exactly two ASCII digits whose value is that hour |
| Text.Pad2OfDigits | login.py:46-48 | two digits re-formatted with `:02d` give the same two digits (padding inverts reading) |
| Text.ParseInt | login.py:57 | `int()` of a string of ASCII digits is its decimal value; the empty string, and any text holding a character that is neither a digit nor a leading sign, is rejected (`ValueError`) |
| Text.Split | login.py:57 | `str.split(sep)` gives at least one piece, and the pieces joined with `sep` give back the string; where it cuts is stated by `SplitJoin`, `SplitAfter` and `SplitNone` |
| Text.SplitAfter | login.py:57 | when no character of `a` opens `sep`, the first cut falls right after `a` |
| Text.SplitNone | login.py:57 | a string in which `sep` cannot start is not cut |
| Text.SplitJoin | login.py:57 | splitting pieces joined with `sep`, none of which contains a character opening `sep`, gives back exactly those pieces: every occurrence of `sep` cuts, and nothing else does |
| FreeTimeLabel.Label | login.py:45-48 | the label carries " (next day)" exactly when end > 24; it is 13 characters long, or 24 with the mark |
| FreeTimeLabel.LabelRoundTrip | login.py:45-48 | reading a label gives back the start hour, the end (minus 24 past midnight), and the next-day mark exactly when end > 24 |
| FreeTimeLabel.LabelFromShown | login.py:45-48 | conversely, any text that reads as a slider window is exactly that window's label |
| FreeTimeLabel.LabelInjective | login.py:45-48 | different slider pairs never share a label |
| UtcConversion.UtcHour | login.py:59-61 | the UTC hour lies in 0..23, and adding the zone's offset back gives the local hour (mod 24) |
| UtcConversion.UtcHourUnique | login.py:59-61 | no other hour of the day converts back to the local hour, so the UTC hour is `(local - k) mod 24` |
| UtcConversion.ConvertToUtc | login.py:56-61 | conversion succeeds exactly when the parse yields two integers that both lie in 0..23, and then each result is `UtcHour` of the parsed hour, so it lies in 0..23 and adding the offset back gives the parsed hour; otherwise it fails with the malformed-text or hour-out-of-range error |
| UtcConversion.ParseHours | login.py:57 | the parse as written: the text before the first " - ", split at ':', must give exactly two integer fields (each read up to its first ':'); what it returns on a stored label is stated by `ParseHoursOfLabel` |
| UtcConversion.ParseHoursOfLabel | login.py:57 | on a stored label the parse returns the start hour (the round trip of the start) and 0, the start's minute field, for every end |
| UtcConversion.ConvertLabel | login.py:56-61 | a label with start < 24 converts to `((start - k) mod 24, (-k) mod 24)`; a start of 24..48 raises hour-out-of-range |
| UtcConversion.ConvertIgnoresEnd | login.py:57 | the end hour the user chose has no influence on the converted range |
| UtcConversion.ConvertExample | login.py:56-61 | UTC+2, "10:00 - 12:00": the start 10 becomes 8 UTC and the end comes out as 22 UTC |
| CommonHours.MaxStart | login.py:70 | the result is the largest start: no start exceeds it and some start equals it |
| CommonHours.MinEnd | login.py:71 | the result is the smallest end: no end is below it and some end equals it |
| CommonHours.Intersect | login.py:70-77 | a reported window has start < end and lies inside every range |
| CommonHours.IntersectFound | login.py:70-77 | `Found(s, e)` exactly when `s` is the largest start, `e` the smallest end and `s < e` |
| CommonHours.IntersectIsCommonTime | login.py:70-77 | an hour is inside every range exactly when it is inside the reported window, so `NotFound` means no common hour |
| CommonHours.IntersectSameRanges | login.py:70-71 | the result depends only on which ranges occur |
| CommonHours.IntersectReorder | login.py:70-71 | a permutation of the ranges gives the same result |
| CommonHours.IntersectAddRange | login.py:70-77 | one more range never widens the window, and a window for the longer list implies one for the shorter |
| CommonHours.CrossingRangeEmpties | login.py:70-77 | any collected range whose end is not after its start (it crosses UTC midnight) makes the result `NotFound`, whatever the other ranges |
| CommonHours.MidnightWindowLost | login.py:70-77 | with ranges 20 - 2 and 0 - 6 `NotFound` is reported and the rule sees no common hour, although on a 24-hour clock (`OnClock`) both ranges hold 01:00 |
| CommonHours.MidnightWindowLostFromForm | login.py:45-77 | reachable from the form: a user in UTC-2 who picked 18 to 26 and a user in UTC-6 who picked 18 to 30 get `NotFound` |
| CommonHours.IntersectExamples | login.py:70-77 | 8-18 with 10-20 gives 10-18; 8-10 with 14-16 gives nothing; 9-17 alone gives 9-17 |
| CommonHours.Convert | login.py:67 | the call `convert_to_utc(row['Free Time'], row['Time Zone'])` for one user; its properties are those of `ConvertToUtc` |
| CommonHours.FirstFailure | login.py:65-68 | the loop stops at the first user whose conversion raises: every earlier user converts, and that one does not |
| CommonHours.UtcRanges | login.py:65-68 | on success there is one range per user, in order, each that user's converted range; on failure the error is that of the first user who fails |
| CommonHours.CommonHoursOf | login.py:64-77 | reference definition of `find_common_hours`: the first failing user's error, or `Intersect` of the collected ranges; its properties are stated by `CommonHoursContained`, `CommonHoursInDay`, `CommonHoursReorder` and `CommonHoursAddUser` |
| CommonHours.CommonHoursOfConverted | login.py:64-77 | when every user converts, the result is `Intersect` of their converted ranges in order (the converse of `UtcRanges`) |
| CommonHours.FindCommonHours | login.py:64-77 | the loop-based computation returns exactly `CommonHoursOf(users)`: the error of the first failing user, or the max/min window of all converted ranges |
| CommonHours.CommonHoursContained | login.py:64-77 | a reported window lies inside every user's converted range |
| CommonHours.CommonHoursInDay | login.py:64-77 | a reported window satisfies `0 <= start < end <= 23` |
| CommonHours.UtcRangesOkSameUsers | login.py:65-68 | whether all users convert depends only on which users there are |
| CommonHours.UtcRangesSubset | login.py:65-68 | with all of `a`'s users present in `b`, every range collected for `a` is also collected for `b` |
| CommonHours.CommonHoursReorder | login.py:64-77 | listing the users in another order gives the same success or failure and the same window |
| CommonHours.CommonHoursAddUser | login.py:64-77 | registering one more user never widens the common window |
| CommonHours.RegisteredUserRange | login.py:45-61 | a user registered through the slider converts to a range that ends at their local midnight in UTC |
| CommonHours.RegisteredRangeEnds | login.py:45-68 | for registered users, every collected range ends at that user's local midnight in UTC |
| CommonHours.RegisteredWindowEndsAtMidnight | login.py:45-77 | any window found for registered users ends at some user's local midnight, whatever ends they chose |
| CommonHours.UtcUsersNeverOverlap | login.py:45-77 | when every registered user is in UTC (offset 0), no common window is ever reported |
| CommonHours.SingleUserExample | login.py:45-77 | a single user in UTC+2 who picked 10 to 12 gets the window 8 - 22 UTC |

## Left out

- The Streamlit forms, buttons and pages, CSV storage, and the event calendar. They are storage and display only.
- The name, email and location fields of a user. They are not used by the computation.
- The time-zone database (`pytz`) and daylight saving. A zone is a fixed whole-hour offset `k`, and the UTC hour is `(local - k) mod 24`. Zones with a 30- or 45-minute offset, where `astimezone(...).hour` would truncate, are not modelled.
- `datetime.now()`. The current date only anchors the conversion, and with a fixed offset it cannot change the UTC hour of the day.
- The sentence `find_common_hours` returns. The model returns `Found(start, end)` or `NotFound` in its place.
- Text.ParseInt: accepts only an optional sign and ASCII digits. `int()` also allows surrounding whitespace, underscores between digits and non-ASCII digits, none of which a stored label contains.
- Text.Pad2: defined for values below 100 only. The slider never produces larger values.
- The form's own range check. The slider's 0..48 bounds are the `IsSliderHour` precondition of `Label`.
