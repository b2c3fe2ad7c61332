# Attendance dashboard: classification core in Dafny

This project models the attendance classification logic of a React attendance
dashboard. The dashboard reads daily check-in/check-out sheets and a monthly
summary sheet. It shows three views:

- **Daily dashboard** (`src/App.jsx`). Each employee-day row is scanned over its
  pairs `Check-in 1`/`Check-out 1` … `Check-in 10`/`Check-out 10`. The scan yields:
  - the worked time;
  - the first check-in and the last check-out;
  - a `Checked In`/`Checked Out` status;
  - a severity tier (Late after 11:00, Late after 10:30, Completed, Early Out,
    Under 7 Hours, No Work Recorded, No Data).

  The rows are then counted against the roster (KPI cards), filtered (present,
  on time, exceptions, absent, whole roster, name search), and given table headers.
- **Employee month calendar** (`attendance-dashboard/src/EmployeePage.jsx`).
  - The same scan, with an `isCheckedIn` flag and raw first/last strings.
  - Every day of the month gets a status, first match wins:
    Future → Holiday → Checked In → Half Day/Present (4 h cutoff) → Absent
    (summary hint `A` or `P`) → NoRecord.
  - Present, absent and half-day counters are accumulated along the way.
- **Master log** (`src/AttendanceLog.jsx`).
  - The monthly summary rows are grouped by `Name`. A later row only fills fields
    that are missing, empty or `'-'`.
  - The table headers are the first merged record's keys without `UID`.
  - Status cells are normalised to `P`/`A`/`H`, the value itself, or `-`.

Modules, one per file:

| file | module | contents |
|---|---|---|
| `wrappers.dfy` | `Wrappers` | `Option` |
| `js_text.dfy` | `JsText` | the JavaScript string operations the code relies on: number-to-string, `padStart(2,'0')`, `split`, `includes`, ASCII `toLowerCase`, `trim()`-blankness |
| `calendar_date.dfy` | `CalendarDate` | Gregorian dates: month length, weekday, `formatDate`, `getYearMonth`, `isHoliday` |
| `time_parse.dfy` | `TimeParse` | `parseTime` on a host with a fixed UTC offset; the HH:MM:SS display |
| `pair_scan.dfy` | `PairScan` | the pair scan both `processRowData` loops perform, as functions of the prefix scanned |
| `today_view.dfy` | `TodayView` | the daily dashboard: `processRowData`, tiers, `kpiData`, `filteredData`, `getTableHeaders` |
| `calendar_view.dfy` | `CalendarView` | the employee calendar: `processRowData` with `isCheckedIn`, hints, working days, the day loop and counters |
| `attendance_log.dfy` | `AttendanceLog` | the group-by-`Name` merge, headers, status normaliser |

Modelling choices:

- **Parsed times.** A time value is a JavaScript `Date`: `At(ms)` on the epoch
  timeline or `InvalidDate`, wrapped in `Option` for `null`. An Invalid Date is
  truthy, so it sets `status` and `firstCheckIn`, yet it fails every comparison.
  The model keeps that behaviour.
- **The host.** The host is a fixed UTC offset together with `utcClockOf`. That
  function gives the UTC clock of a string that `new Date()` accepts, and `None`
  when the string is not a valid date; it is a parameter of the model.
- **Durations.** Durations are integer milliseconds. `totalHours >= 7` becomes
  `totalMs >= 7 * 3600000` and `totalHours < 4` becomes `totalMs < 4 * 3600000`.
  Both are exact, because dividing by 3600000 in floating point preserves these
  comparisons for millisecond integers of this size.
- **Time of day.** A bare `"HH:MM[:SS]"` value is read on the local day of the
  epoch. An ISO timestamp keeps only its UTC clock, on the UTC day of the epoch.
  `TimeParse.BranchesAgreeOnlyAtUtc` shows that the same clock text written both
  ways gives the same instant only on a host whose offset is a whole number of days.
- **The shared scan.** `PairScan` defines once what the scan computes. Each
  `processRowData` loop is proved against it, and `CalendarView.ViewsAgree` shows
  that the two loops agree on duration, first and last times, and checked-in state.
- **Two behaviours worth knowing, modelled as written.**
  - A summary hint of `'P'` on a day without hours marks the day **Absent**, the
    same as `'A'` (EmployeePage.jsx:257-264).
  - A daily row whose UID is not on the roster counts as present. It is not
    subtracted from anyone, so `present + absent` can exceed the roster size
    (`TodayView.UnknownUidInflatesPresent`).

## Model

| member | source | states |
|---|---|---|
| JsText.DigitChar | src/App.jsx:84-85 | the character is a decimal digit whose value is the given digit |
| JsText.NatToString | src/App.jsx:83-86 | `String(n)` is a non-empty string of digits, one digit exactly below 10 and two exactly for 10..99 |
| JsText.DigitsRoundTrip | src/App.jsx:83-86 | reading back the digits of `String(n)` gives `n` |
| JsText.LeadingZero | src/App.jsx:84-85 | a leading `'0'` does not change the value of a digit string |
| JsText.IntToString | src/AttendanceLog.jsx:9-11 | `String(y)` starts with `-` exactly when `y` is negative; the digits that follow read back as `y`, or as `-y` after the sign |
| JsText.IntToStringInjective | src/AttendanceLog.jsx:9-11 | different integers give different texts |
| JsText.PadStart2 | src/App.jsx:84-85 | `padStart(2,'0')` leaves strings of length 2 or more unchanged and left-fills shorter ones with `'0'` to length 2, keeping the original as the suffix |
| JsText.Pad2RoundTrip | src/App.jsx:84-85 | the padded form of `n` < 100 has two digits whose value is `n` |
| JsText.Pad2Injective | src/App.jsx:84-85 | two numbers below 100 with the same padded form are equal |
| JsText.Split | src/App.jsx:41 | `split(':')` yields at least one part, and no part contains the separator |
| JsText.SplitCount | src/App.jsx:41 | there is one more part than there are separators |
| JsText.SplitJoin | src/App.jsx:41 | joining the parts back with the separator gives the original string |
| JsText.SplitAfter | src/App.jsx:41 | a separator-free prefix followed by the separator becomes the first part, and the rest splits on its own |
| JsText.Includes | src/App.jsx:96 | `FESTIVAL_HOLIDAYS.includes(s)` holds exactly when `s` is in the list |
| JsText.Lower | src/App.jsx:440 | `toLowerCase()` keeps the length, leaves no upper-case ASCII letter, turns each upper-case letter into its lower-case partner and keeps every other character |
| JsText.LowerIdempotent | src/App.jsx:440 | lower-casing twice is lower-casing once, so the lower-cased term and name are already in normal form |
| CalendarDate.DaysInMonth | attendance-dashboard/src/EmployeePage.jsx:127 | the Gregorian month length: 31 or 30 by month, February 29 exactly in leap years and 28 otherwise |
| CalendarDate.Weekday | src/App.jsx:93 | `getDay()` is in 0..6 |
| CalendarDate.NextDay | attendance-dashboard/src/EmployeePage.jsx:185-186 | the day after a valid date is a valid date |
| CalendarDate.DivSteps | src/App.jsx:93 | the leap-day counts floor(y/4), floor(y/100), floor(y/400) step by one exactly at multiples |
| CalendarDate.YearLength | src/App.jsx:93 | a year has 366 days exactly when it is a leap year, and 365 otherwise |
| CalendarDate.NextDayNumber | src/App.jsx:93 | the day number of the next day is one more |
| CalendarDate.ModSevenStep | src/App.jsx:93 | stepping a day number by one steps its residue mod 7 by one |
| CalendarDate.WeekdayAdvances | src/App.jsx:93 | consecutive dates have consecutive weekdays, wrapping from Saturday to Sunday |
| CalendarDate.KnownSunday | src/App.jsx:93 | 19 October 2025 is a Sunday, which anchors the weekday numbering |
| CalendarDate.FormatDate | src/App.jsx:82-87 | `formatDate` is the year's text, `'-'`, two digits reading back as the month, `'-'`, and two digits reading back as the day |
| CalendarDate.FormatDateInjective | src/App.jsx:82-87 | two valid dates with the same `formatDate` text are the same date |
| CalendarDate.GetYearMonth | src/AttendanceLog.jsx:8-12 | `getYearMonth` is the year's text, a `'-'`, and two digits whose value is the month |
| CalendarDate.FormatDateInMonth | src/App.jsx:82-87 | `formatDate` is the year-month text, a `'-'` and the two-digit day, so it starts with the month prefix |
| CalendarDate.FestivalList | src/App.jsx:20-24 | the festival strings are the `formatDate` texts of three valid dates |
| CalendarDate.FestivalTexts | src/App.jsx:20-24 | a valid date's text is in `FESTIVAL_HOLIDAYS` exactly when the date is one of those festival dates |
| CalendarDate.IsHoliday | src/App.jsx:90-100 | a date is a holiday exactly when it is a Sunday or one of the festival dates |
| CalendarDate.HolidayExamples | src/App.jsx:90-100 | every Sunday is a holiday, the festival date 2025-10-20 is a holiday though a Monday, and 2025-10-21 is not |
| TimeParse.LocalMidnight | src/App.jsx:42-43 | the local midnight starting the epoch's local day is a whole local day and lies within a day before the epoch |
| TimeParse.NumberOf | src/App.jsx:43 | `Number(part)` is a number exactly for digit strings (the empty string included), and never negative |
| TimeParse.BareTime | src/App.jsx:40-45 | a bare time splits into at least two fields; it is Invalid Date exactly when the hour, the minute or a present second field is not a digit string; otherwise it lies at or after the epoch's local midnight |
| TimeParse.ParseTime | src/App.jsx:36-61 | `parseTime`: null for a missing or empty value; never null for a string of 1..8 characters containing `':'`; Invalid Date only from that branch; a longer value is null exactly when it is not a valid date |
| TimeParse.SplitNone | src/App.jsx:41 | a string without the separator splits into itself |
| TimeParse.ClockTextSplit | src/App.jsx:40-41 | `"HH:MM:SS"` is 8 characters, contains `':'` and splits into its three padded fields |
| TimeParse.BareTimeOfParts | src/App.jsx:41-44 | three numeric fields give local midnight plus h:m:s |
| TimeParse.BareTimeOfTwoParts | src/App.jsx:41-44 | two numeric fields give local midnight plus h:m, the missing seconds read as 0 |
| TimeParse.NumberOfPad2 | src/App.jsx:43 | a two-digit field reads back as its number |
| TimeParse.ParseBare | src/App.jsx:40-45 | `parseTime("HH:MM:SS")` is that clock time on the epoch's local day |
| TimeParse.ParseBareNoSeconds | src/App.jsx:40-45 | `parseTime("HH:MM")` is that clock time with seconds 0 |
| TimeParse.ClockLiterals | src/App.jsx:137-171 | the threshold literals are the clock texts of 11:00, 10:30 and 17:30, so by `ParseBare` they parse to those local clock times |
| TimeParse.ThresholdLiterals | src/App.jsx:137-171 | `parseTime` of `"11:00:00"`, `"10:30:00"` and `"17:30:00"` is 11:00, 10:30 and 17:30 on the epoch's local day |
| TimeParse.BranchesAgreeOnlyAtUtc | src/App.jsx:40-56 | a timestamp parses to its UTC clock time, which equals the bare parse of the same clock text exactly on hosts whose offset is a whole number of days |
| TimeParse.BareTextRoundTrip | src/App.jsx:198-199 | `toTimeString().split(' ')[0]` of a parsed bare time gives back its `"HH:MM:SS"` text |
| TimeParse.TimeText | src/App.jsx:198-199 | `toTimeString().split(' ')[0]` is `"Invalid"` exactly for an Invalid Date, and otherwise an `HH:MM:SS` text of digits and two colons |
| TimeParse.LocalOfDay | src/App.jsx:42-43 | an offset k into the epoch's local day has local time-of-day k |
| TimeParse.ModDayShift | src/App.jsx:42-43 | whole days do not change the time of day |
| TimeParse.ClockFields | src/App.jsx:198-199 | hours, minutes and seconds are recovered from a valid clock's milliseconds |
| TimeParse.DisplayTime | src/App.jsx:198-199 | the display is `'—'` exactly when there is no time |
| PairScan.PairWork | src/App.jsx:125-127 | a pair adds a non-negative amount, and a positive one exactly when both sides are valid dates with check-out strictly after check-in |
| PairScan.WorkUpTo | src/App.jsx:111-130 | `totalWorkMilliseconds` after any number of pairs is never negative |
| PairScan.FirstInUpTo | src/App.jsx:115-118 | the remembered first check-in is the check-in of a scanned pair |
| PairScan.LastOutUpTo | src/App.jsx:120-123 | the remembered last check-out is the check-out of a scanned pair |
| PairScan.StatusUpTo | src/App.jsx:115-123 | the status is `Checked In` only with a remembered first check-in and `Checked Out` only with a remembered last check-out |
| PairScan.WorkNonNegative | src/App.jsx:125-130 | the total is never negative, so `Math.max(0, …)` changes nothing, and it is zero exactly when no pair is correctly ordered |
| PairScan.WorkMonotone | src/App.jsx:111-128 | scanning more pairs never lowers the total |
| PairScan.FirstInIsFirst | src/App.jsx:115-118 | `firstCheckIn` is the check-in of the lowest-index pair that has one, and is absent exactly when no pair has one |
| PairScan.LastOutIsLast | src/App.jsx:120-123 | `lastCheckOut` is the check-out of the highest-index pair that has one, and is absent exactly when no pair has one |
| PairScan.NoEventsIff | src/App.jsx:108-123 | the status stays `'—'` exactly when no pair has an event |
| PairScan.LastEventDecides | src/App.jsx:115-123 | the highest-index pair with an event decides: `Checked Out` when it has a check-out, else `Checked In` |
| PairScan.LastEventWitness | src/App.jsx:115-123 | every status other than `'—'` was decided by such a last pair |
| PairScan.StatusWitnesses | src/App.jsx:108-130 | a status of `'—'` comes with no first check-in, no last check-out and zero work |
| PairScan.LaterColumnsIgnored | src/App.jsx:109-111 | columns after pair 10 do not affect the scan |
| TodayView.TierOf | src/App.jsx:132-192 | each tier holds exactly under its condition in the cascade: No Data iff no events; Completed iff checked out with at least 7 h; the two Late tiers by 11:00 then 10:30 for any other row with events; Checked In, Early Out, Under 7 Hours and No Work Recorded for what remains |
| TodayView.ThresholdsOrdered | src/App.jsx:138-143 | a check-in later than 11:00 is also later than 10:30 |
| TodayView.RowClassAndLabel | src/App.jsx:132-192 | `row-good` is given exactly to Completed rows, and different tiers have different labels |
| TodayView.ProcessRowData | src/App.jsx:104-204 | the loop's result is the scan of pairs 1..10 with its tier; total ≥ 0; status `'—'` iff no pair has an event; first/last `'—'` iff no check-in/check-out parses |
| TodayView.ProcessAll | src/App.jsx:348 | every daily row is processed, in order |
| TodayView.ProcessedIsCoherent | src/App.jsx:153-158 | a processed row has `row-good` only when `Checked Out` |
| TodayView.UidsOf | src/App.jsx:373 | the set of present UIDs is exactly the UIDs of the daily rows |
| TodayView.AbsentRoster | src/App.jsx:374 | the absent list is exactly the roster rows whose UID is not present, in roster order |
| TodayView.AbsentRosterOrder | src/App.jsx:374 | the absent list of two roster parts is the two absent lists in turn, and a single row is kept exactly when its UID is not present, so order and repeats follow the roster |
| TodayView.Select | src/App.jsx:387-388 | a filter keeps exactly the rows meeting its criterion |
| TodayView.SelectOrder | src/App.jsx:387-388 | a filter of two parts is the two filtered parts in turn, and a single row is kept exactly when it meets the criterion, so order and repeats are kept |
| TodayView.KpiData | src/App.jsx:369-391 | zeros while loading; on a holiday the whole roster is absent; otherwise present = daily rows, absent = roster rows not present, onTime/exceptions = checked-out rows with/without `row-good` |
| TodayView.NobodyPresent | src/App.jsx:380-382 | with no daily rows the whole roster is absent, so the early return agrees with the general formula |
| TodayView.CheckedOutSplit | src/App.jsx:387-388 | onTime + exceptions = the number of checked-out rows |
| TodayView.OnTimeIsGood | src/App.jsx:387-422 | on processed rows, the on-time KPI and the `onTime` filter select the same rows |
| TodayView.DailyUidsCount | src/App.jsx:373-377 | with distinct UIDs, the present set has as many UIDs as there are daily rows |
| TodayView.RosterUidsMember | src/App.jsx:374 | a UID is in the roster's UIDs exactly when some roster row has it |
| TodayView.AbsentCount | src/App.jsx:374-378 | absent rows plus present roster UIDs = roster size (roster UIDs distinct) |
| TodayView.RosterConservation | src/App.jsx:376-378 | when every daily UID is on the roster and UIDs are distinct, present + absent = totalRoster |
| TodayView.UnknownUidInflatesPresent | src/App.jsx:373-378 | for any roster and daily rows, one more daily row whose UID is not on the roster raises present by one and leaves absent and totalRoster unchanged |
| TodayView.SearchRows | src/App.jsx:438-442 | the name search keeps exactly the rows whose lower-cased name contains the lower-cased term |
| TodayView.DataToShow | src/App.jsx:394-436 | on a holiday row i is roster row i tagged `Holiday`/`row-good`; otherwise `present` and the default show exactly the daily rows, index by index; `all_roster` shows the daily rows index by index, then absent-roster row i at position n + i (n daily rows) tagged `Absent`/`row-late-danger`, and nothing else; `absent` shows absent-roster row i at position i and nothing else; `onTime` shows row i of `Select(allData, Good)` at position i and nothing else, and `exceptions` likewise row i of `Select(allData, Exception)`, so they keep the daily rows' order and repeats (by `SelectOrder`); in membership terms, every `row-good` daily row, or every checked-out daily row without it |
| TodayView.SelectedDaily | src/App.jsx:421-426 | the `onTime`/`exceptions` table has one row per selected daily row, row i being `Select(allData, c)[i]`, so order and repeats follow `allData` (by `SelectOrder`); it holds a row exactly when it is a daily row meeting the filter's condition |
| TodayView.DailyThenAbsent | src/App.jsx:430-431 | the spread `[...allData, ...absentList]` keeps the daily rows at their indices and puts absent row i at n + i for n daily rows, with no other rows |
| TodayView.FilteredData | src/App.jsx:394-446 | with no search term the result is the selected data; otherwise exactly the selected rows matching the term |
| TodayView.AbsentFilterExact | src/App.jsx:396-429 | the `absent` filter shows as many rows as the absent roster, row i being absent-roster row i tagged `Absent`/`row-late-danger` with 0 hours (so in roster order); every shown row comes from a roster row that no daily row shares a UID with; and a roster row is shown exactly when no daily row has its UID |
| TodayView.HolidayShowsRoster | src/App.jsx:408-415 | on a holiday every filter shows the whole roster tagged `Holiday`/`row-good` |
| TodayView.KpiCardsMatchFilters | src/App.jsx:369-435 | each KPI card's number is the size of the list its filter shows, and all_roster shows present + absent rows |
| TodayView.SearchDistributes | src/App.jsx:431-442 | searching the whole roster view is searching the daily rows then the absent rows, so the order is kept |
| TodayView.SearchIdempotent | src/App.jsx:438-442 | searching twice for the same term changes nothing |
| TodayView.MaxPairColumnsIsMax | src/App.jsx:451-463 | `maxPairs` is at least every shown row's pair count and equals one of them |
| TodayView.PairHeaders | src/App.jsx:470-473 | the pair headers number two per pair |
| TodayView.TableHeaders | src/App.jsx:450-476 | only `Name`/`Status` for the absent filter, a holiday, or shown rows without daily data; otherwise Name, Status, the pair headers up to `maxPairs`, and Total Work |
| TodayView.PairHeaderAt | src/App.jsx:470-473 | header 2k is `Check-in k+1` and header 2k+1 is `Check-out k+1` |
| TodayView.NatToStringInjective | src/App.jsx:471-472 | different pair numbers give different header texts |
| TodayView.FullHeaders | src/App.jsx:469-475 | the full header row has 2·maxPairs + 3 entries |
| TodayView.FullHeaderAt | src/App.jsx:469-475 | the full header row is Name, Status, the alternating pair headers, then Total Work |
| TodayView.PairHeaderNames | src/App.jsx:471-472 | check-in and check-out headers never coincide, and each is determined by its number |
| TodayView.FullHeaderPairDistinct | src/App.jsx:469-475 | two positions of the header row hold different names |
| TodayView.HeadersDistinct | src/App.jsx:469-475 | no header is repeated |
| CalendarView.ProcessRowData | attendance-dashboard/src/EmployeePage.jsx:67-96 | total ≥ 0; `isCheckedIn` iff some pair has a check-in, no check-out, and no later pair has an event; first/last are absent iff no check-in/check-out parses; they are the raw strings that parse to the scan's first/last |
| CalendarView.FactsMeaning | attendance-dashboard/src/EmployeePage.jsx:67-96 | the scan's facts: total ≥ 0, `isCheckedIn` iff the last pair with an event has a check-in and no check-out, first/last absent iff nothing parses, and they parse to the scan's first/last |
| CalendarView.ViewsAgree | attendance-dashboard/src/EmployeePage.jsx:67-96 | the two `processRowData` loops (src/App.jsx:104-128 and this one) agree on total work, first and last times, and `isCheckedIn` iff `Checked In` |
| CalendarView.LastDayToProcess | attendance-dashboard/src/EmployeePage.jsx:123-128 | today's day in the current month, the month's length otherwise, always within the month |
| CalendarView.CollectHints | attendance-dashboard/src/EmployeePage.jsx:144-149 | the hints are exactly the employee's keys starting with the viewed month's prefix, with their values |
| CalendarView.HintsAgree | attendance-dashboard/src/EmployeePage.jsx:144-256 | looking up a day of the viewed month in the hints gives what the employee record holds |
| CalendarView.WorkingDaysMember | attendance-dashboard/src/EmployeePage.jsx:155-159 | every non-holiday day up to the last processed day is fetched |
| CalendarView.WorkingDaysOnly | attendance-dashboard/src/EmployeePage.jsx:155-159 | only non-holiday days up to the last processed day are fetched |
| CalendarView.WorkingDayStrings | attendance-dashboard/src/EmployeePage.jsx:152-175 | the loop collects the working-day strings in day order, at most one per day |
| CalendarView.NormalizeFetch | attendance-dashboard/src/EmployeePage.jsx:160-172 | rows survive only from a successful, error-free answer whose sheet name is absent or the requested date, and such an answer's data are kept unchanged |
| CalendarView.IndexOf | attendance-dashboard/src/EmployeePage.jsx:213 | `indexOf` is the first position holding the value, or -1 (None) exactly when absent |
| CalendarView.FindRow | attendance-dashboard/src/EmployeePage.jsx:217 | `find` returns the first row with the UID (no earlier row has it), or none exactly when no row has it |
| CalendarView.CountStatusAppend | attendance-dashboard/src/EmployeePage.jsx:271 | pushing a day adds one to its status's count only |
| CalendarView.CalendarDay | attendance-dashboard/src/EmployeePage.jsx:186-270 | one iteration builds the day's info, and increments present on Checked In/Present, halfDay on Half Day, absent on Absent, and nothing otherwise |
| CalendarView.BuildCalendar | attendance-dashboard/src/EmployeePage.jsx:180-272 | exactly `daysInSelectedMonth` entries, entry i for day i+1; the counters equal the numbers of Checked In + Present, Absent and Half Day days |
| CalendarView.DayStatusConditions | attendance-dashboard/src/EmployeePage.jsx:189-268 | each day status holds exactly under its first-match-wins condition: Future after the last processed day, then Holiday, Checked In, Half Day below 4 h, Present from 4 h, Absent on hint `A` or `P`, NoRecord |
| CalendarView.FutureOnlyInCurrentMonth | attendance-dashboard/src/EmployeePage.jsx:123-202 | Future days occur only in the current month, after today |
| CalendarView.IsTodayExactly | attendance-dashboard/src/EmployeePage.jsx:197 | `isToday` holds exactly on today's date |
| CalendarView.MissingRowIsAbsentOrNoRecord | attendance-dashboard/src/EmployeePage.jsx:208-267 | a working day without the employee's row has 0 hours, is not checked in, and is Absent or NoRecord by the hint |
| CalendarView.FoundRowFacts | attendance-dashboard/src/EmployeePage.jsx:217-224 | a found row's facts are its scan's, with non-negative hours |
| CalendarView.FetchedRowsFor | attendance-dashboard/src/EmployeePage.jsx:213-216 | a processed working day reads the normalised fetch result of its own date |
| CalendarView.WorkingDayStatus | attendance-dashboard/src/EmployeePage.jsx:235-267 | never Future or Holiday; Checked In iff `isCheckedIn`; Half Day iff not checked in with 0 < hours < 4; Present iff not checked in with at least 4 h; Absent iff no hours and hint `A` or `P`; NoRecord otherwise |
| CalendarView.CountsPartition | attendance-dashboard/src/EmployeePage.jsx:185-272 | every day has exactly one of the seven statuses |
| CalendarView.CountersConserve | attendance-dashboard/src/EmployeePage.jsx:236-267 | present + absent + halfDay = days − Future − Holiday − NoRecord |
| CalendarView.FindEmployee | attendance-dashboard/src/EmployeePage.jsx:139-140 | the first roster entry with the UID (no earlier entry has it), or none exactly when the roster has no such UID |
| CalendarView.MonthReport | attendance-dashboard/src/EmployeePage.jsx:117-275 | `Employee not found` exactly when no roster entry has the UID; otherwise the first matching entry's name with one cell per day of the month, each the cell its own date's fetch and the employee's hint determine, present = Checked In + Present days, absent = Absent days, halfDay = Half Day days, and their sum = days − Future − Holiday − NoRecord |
| CalendarView.EmployeeMonth | attendance-dashboard/src/EmployeePage.jsx:144-272 | the hints, working days, their fetches and the day loop build exactly that month and those counters |
| CalendarView.MonthCell | attendance-dashboard/src/EmployeePage.jsx:186-267 | the loop's cell for a day, read through `workingDayStrings`/`dailyResults` and the collected hints, is the cell that day's own fetch and summary cell determine |
| AttendanceLog.AddRow | src/AttendanceLog.jsx:45-59 | after a row, the names in insertion order are exactly the grouped names |
| AttendanceLog.GroupState | src/AttendanceLog.jsx:43-59 | after any number of rows, the names in insertion order are exactly the grouped names |
| AttendanceLog.MergeInto | src/AttendanceLog.jsx:51-57 | the inner loop merges a later row into its group as the key-by-key merge specifies |
| AttendanceLog.GroupByName | src/AttendanceLog.jsx:42-61 | the merged log is the group of each name, in insertion order |
| AttendanceLog.MergeKeysField | src/AttendanceLog.jsx:51-55 | a field other than Name/UID takes the later row's value exactly when the row has it and the field is missing, empty or `'-'`; every other field is unchanged |
| AttendanceLog.MergeKeysWellFormed | src/AttendanceLog.jsx:51-55 | merging keeps the record's keys distinct and matching its values |
| AttendanceLog.FirstIndex | src/AttendanceLog.jsx:47 | the first position holding a name |
| AttendanceLog.FirstIndexAppend | src/AttendanceLog.jsx:47 | appending a row does not move an existing first position; a new name's first position is the new row |
| AttendanceLog.OrderKnownName | src/AttendanceLog.jsx:49-58 | a row with a known name keeps the group order |
| AttendanceLog.OrderNewName | src/AttendanceLog.jsx:47-48 | a row with a new name appends that name to the group order |
| AttendanceLog.GroupOrder | src/AttendanceLog.jsx:43-61 | exactly one group per distinct name, ordered by first appearance |
| AttendanceLog.FirstWith | src/AttendanceLog.jsx:47-48 | the row at the name's first position among the rows, absent exactly when no row has the name |
| AttendanceLog.FirstKeptAppend | src/AttendanceLog.jsx:53-54 | one more value replaces the kept value exactly when the kept value is empty or `'-'` |
| AttendanceLog.KnownNames | src/AttendanceLog.jsx:43-59 | the groups are exactly the names occurring |
| AttendanceLog.IdentityFromFirstRow | src/AttendanceLog.jsx:47-52 | a group's Name and UID are its first row's, never overwritten or added later |
| AttendanceLog.NameOfGroup | src/AttendanceLog.jsx:46-48 | each merged record carries its group's name |
| AttendanceLog.FieldStep | src/AttendanceLog.jsx:51-55 | merging one more row keeps every other field equal to the first non-blank value seen, or the last one |
| AttendanceLog.FieldFromRows | src/AttendanceLog.jsx:45-59 | every other field is the first value among the group's rows that is neither empty nor `'-'`, else the last value; it exists iff some row of the group has the key, so keys only later rows have are added |
| AttendanceLog.NoValuesBeforeName | src/AttendanceLog.jsx:47 | no values are collected for a name before it occurs |
| AttendanceLog.GroupsWellFormed | src/AttendanceLog.jsx:48-55 | every merged record has distinct keys matching its values |
| AttendanceLog.MergedLog | src/AttendanceLog.jsx:42-61 | the merged log's names list each row name once, by first appearance, and every merged record is well-formed |
| AttendanceLog.WithoutUid | src/AttendanceLog.jsx:71 | the filter keeps exactly the keys other than `UID` |
| AttendanceLog.WithoutUidAppend | src/AttendanceLog.jsx:71 | the filter distributes over concatenation, so the kept keys stay in their order |
| AttendanceLog.WithoutUidSingle | src/AttendanceLog.jsx:71 | a single key is dropped exactly when it is `UID` |
| AttendanceLog.Headers | src/AttendanceLog.jsx:71 | no headers for an empty log; otherwise exactly the first record's keys other than `UID` |
| AttendanceLog.WithoutUidDistinct | src/AttendanceLog.jsx:71 | distinct keys stay distinct after filtering |
| AttendanceLog.HeadersOfLog | src/AttendanceLog.jsx:71 | the headers of a merged log are the first record's keys filtered in their order, none repeated |
| AttendanceLog.NormalizeStatus | src/AttendanceLog.jsx:117-123 | the tests run in the source's order: class `present` iff the cell is `P`, `p` or lower-cases to `present`; else `absent` iff it is `A`, `a` or lower-cases to `absent`; else `holiday` iff it is `H` or lower-cases to `holiday` or `hol`; no other class; the value is P, A, H with its class, and a value without a class is `'-'` or the non-blank cell itself |
| AttendanceLog.AnyCasePresent | src/AttendanceLog.jsx:120 | any capitalisation of `present` (`Present`, `PRESENT`, …) shows `P` with class `present` |
| AttendanceLog.AnyCaseAbsent | src/AttendanceLog.jsx:121 | any capitalisation of `absent` shows `A` with class `absent` |
| AttendanceLog.AnyCaseHoliday | src/AttendanceLog.jsx:122 | any capitalisation of `holiday` or `hol` shows `H` with class `holiday` |
| AttendanceLog.NormalizeStatusShape | src/AttendanceLog.jsx:117-123 | the shown value is never blank; it is `'-'` exactly for a missing, blank or `'-'` cell; it has a class exactly when it is P, A or H |
| AttendanceLog.BlankIsNoStatus | src/AttendanceLog.jsx:120-123 | a blank cell matches none of the status spellings |
| AttendanceLog.NormalizeIdempotent | src/AttendanceLog.jsx:117-123 | normalising a shown value again changes nothing |
| AttendanceLog.LetterCase | src/AttendanceLog.jsx:120-122 | lower-case `p` and `a` are recognised but lower-case `h` is shown as itself |

## Left out

- Fetching, `Promise.all`, the 60-second auto-refresh, `.json()` parsing, and error
  propagation in all three components. They are I/O. A day's answer is the
  parameter `fetchDay` (a `FetchOutcome`). The daily dashboard's summary and daily
  responses are the already-fetched `roster` and `allData`. The summary-sheet error
  and loading states are parameters (`loading`, `holiday`) or left out.
- React state, hooks, JSX, colours (`barFillColor`), the mobile menu, the calendar
  padding from the first weekday, and `toLocaleString` month names. These are
  presentation only.
- Daylight-saving time. The host has one fixed UTC offset.
- `new Date(string)` for the timestamp branch. Which strings are valid dates, and
  their UTC clock, are given by the host parameter `utcClockOf`.
- `formatISOTimeString` (src/App.jsx:65-79). It displays raw times in the table and
  calendar cells on the host's local clock, so it is presentation only.
- Non-string cell values (numbers, booleans) in the sheets. Every cell is a string
  or missing, except the `UID` of a daily or roster row: it is a plain `uid: string`,
  so a row without a UID is not expressible. In the source its `undefined` enters
  `presentUIDs` (src/App.jsx:373 and :396) and then matches every roster row that
  has no UID either (src/App.jsx:374 and :399).
- `Number()` of signed, decimal, exponent or whitespace-padded fields in a bare
  time. Only digit strings are read as numbers; anything else is `NaN` and so
  Invalid Date.
- String lengths in UTF-16 code units. A Dafny `char` is one unit of the length check.
- Floating-point `totalHours`, `avgHours` and `toFixed(2)`. Hours are integer
  milliseconds.
- Non-ASCII case folding in `toLowerCase()`. Only ASCII letters are lower-cased.
- A row whose `Name` is missing in the name search (which throws in the source).
  The model's rows always carry a name.
- Key ordering of `Object.values` and `Object.keys`. JavaScript lists integer-like
  keys first, in numeric order; the model keeps insertion order. This affects the
  field order of a merged record (`Object.keys(row)`, src/AttendanceLog.jsx:51) and
  the table headers (`Object.keys(logData[0])`, src/AttendanceLog.jsx:71) when a
  column name is integer-like. Names that are `Object.prototype`
  properties (such as `constructor`) are not modelled either.
- The mobile list's display keys and its `slice(0, 8)` of the headers
  (src/AttendanceLog.jsx:106-115). They are presentation only.
- `getTableHeaders` reads the pair number of a `Check-in N` key by `parseInt`. The
  model counts the pair columns a row has, numbered 1..n without gaps.
- `new Date(y, m, d)` reads years 0..99 as 1900..1999. The model's dates keep the
  year as given, which matters only for such years.
- `getTableHeaders`' pair-column count assumes roster rows carry no `Check-in N`
  keys, as the roster sheet has none.
- TodayView.SearchRows: its contract states membership only. The order it keeps
  is stated by `TodayView.SearchDistributes`.
