# Calendar widget: month grid and event store

This project models the logic core of a React calendar widget. The core comes in
two copies: the handlers inside the `Calendar` component (`src/App.jsx`) and the
helper module `src/dateUtils.js`. The model covers:

- **The 42-cell month grid.** `getDaysInMonth` is built over a proleptic Gregorian
  civil date (year, 0-based month, day). Weekdays are computed from a day number
  counted from 1970-01-01.
- **Day equality, "today", the date key and month navigation.**
- **Time-conflict detection.** Both copies use the same three-clause overlap test
  on `[start, end)` ranges. They read time strings differently:
  - `dateUtils.js` uses `getMinutes`, which splits on `:` and applies `Number`.
  - `App.jsx` uses `new Date("2000-01-01T" + time)`.

  An unreadable time is `NaN`, modelled as `None`, and every comparison with it is false.
- **The event store.** This is a map from date key to that day's events, in
  insertion order. The model covers add, delete, edit, the edit-button prefill
  and the search filter, each as a pure function that builds the new map.
- **The component state.** Class `CalendarApp.Calendar` holds the component's state
  variables as fields. Its handlers are methods proved against those functions.

Modules, one file each:

| file | module | contents |
|---|---|---|
| wrappers.dfy | `Wrappers` | `Option`, `Result` |
| js_text.dfy | `JsText` | decimal digits, `Number(string)`, `split`/`join`, ASCII `toLowerCase`, `includes` |
| js_array.dfy | `JsArray` | `Array.prototype.filter` and the subsequence relation |
| civil_date.dfy | `CivilDate` | dates, month lengths, weekday, navigation, `isSameDay`, `isToday`, `formatDate` |
| month_grid.dfy | `MonthGrid` | `getDaysInMonth` (the three loops) and the grid's layout |
| events.dfy | `Events` | ids, events, the dialog draft, JavaScript truthiness and `==` on ids |
| time_conflict.dfy | `TimeConflict` | both readings of a time and `hasTimeConflict` |
| event_store.dfy | `EventStore` | the new `events` maps the handlers build |
| calendar.dfy | `CalendarApp` | class `Calendar`: state fields and handler methods |

Where the code and its description disagree, the model follows the code:

- `formatDate` formats as en-US `MM/DD/YYYY`, then splits, reverses and joins, so
  the key is `YYYY-DD-MM`, not `YYYY-MM-DD`. `CivilDate.FormatDate` builds that
  order, and `FormatDateInjective` shows it still identifies the day.
- `SubmitEditEvent` runs the conflict test only when both the start and the end
  changed. It does not exclude the edited event from the test. The model keeps
  both behaviours: `EditConflictsWithItself` and `EditCanBreakAccepted` exhibit them.
- `App.jsx` compares `Date` values, not minutes. `CopiesAgree` proves the two
  readings give the same answer on well-formed `HH:MM` times. Both read `"24:00"`
  as 1440. They differ on out-of-range fields: `getMinutes("25:70")` is 1570, but
  the `Date` is invalid (`ReadingsAtTheEdges`). They also differ on unpadded fields
  such as `"9:00"`, which only `getMinutes` reads.
- `handleDeleteEvent` and `SubmitEditEvent` read `prev[dateStr]` without a
  fallback, so they throw on a date with no list. `SubmitEditEvent` and
  `handleEditEvent` also throw when no event has the id. The model returns
  `Failure(MissingValue)` and leaves the state unchanged.

## Model

| member | source | states |
|---|---|---|
| JsText.ToNumber | src/dateUtils.js:51 | `Number` of a time field; what it reads back is stated by `ToNumberRoundTrip` |
| JsText.ToNumberRoundTrip | src/dateUtils.js:51 | `Number(String(n)) === n`, and `Number` of a zero-padded 2-digit field gives back its value |
| JsText.Split | src/dateUtils.js:51 | `split(sep)` gives at least one part, no part contains the separator, and joining the parts with it gives back the string |
| JsText.Digits | src/dateUtils.js:2-6 | the decimal text of a number has no leading zero and reads back as the number |
| JsText.DigitsInjective | src/dateUtils.js:2-6 | different numbers have different decimal texts |
| JsText.Pad2 | src/App.jsx:32-33 | a 2-digit field has length 2 and reads back as its value |
| JsText.ToLower | src/App.jsx:223-224 | `toLowerCase` keeps the length; its meaning is given by `ToLowerIdempotent` and `IncludesIgnoresCase` |
| JsText.ToLowerIdempotent | src/App.jsx:223-224 | lower-casing twice is lower-casing once |
| JsText.Includes | src/App.jsx:223-224 | `s.includes(t)` holds exactly when `t` occurs at some position of `s` |
| JsArray.Filter | src/App.jsx:169 | the result is an order-preserving subsequence holding each passing element as many times as the input does, and no failing element |
| JsArray.FilterIdempotent | src/App.jsx:166-171 | filtering twice with the same test equals filtering once |
| JsArray.FilterKeepsAll | src/App.jsx:220-221 | when every element passes, the filter returns the array unchanged |
| JsArray.FilterAgrees | src/App.jsx:221-225 | two tests that agree on every element select the same elements |
| JsArray.SubsequenceMembers | src/App.jsx:169 | every element of a subsequence is an element of the whole |
| JsArray.SubsequenceKeepsPairs | src/App.jsx:169 | a relation between every earlier and later element carries over to any subsequence |
| CivilDate.DaysInMonth | src/App.jsx:53 | `new Date(year, month + 1, 0).getDate()` is between 28 and 31, and is 29 exactly for February of a leap year |
| CivilDate.MonthsFillYear | src/App.jsx:53 | the twelve month lengths add up to the length of the year |
| CivilDate.Weekday | src/App.jsx:57 | `getDay()` lies in 0..6; `Weekday2000` anchors it and `NextDayWeekday` steps it |
| CivilDate.DaysBeforeYearSince1970 | src/App.jsx:57 | from 1970 to 2100, January 1 comes 365 days a year plus one per leap year after 1970 |
| CivilDate.Weekday2000 | src/App.jsx:57 | January 1, 2000 is a Saturday (weekday 6) |
| CivilDate.NextDay | src/App.jsx:63-65 | the day after a valid date is a valid date: the next day of the month, or day 1 of the next month |
| CivilDate.NextDayNumber | src/App.jsx:63-65 | the day after a date has the next day number |
| CivilDate.NextDayWeekday | src/App.jsx:279 | the day after a date falls on the next day of the week, with Saturday followed by Sunday |
| CivilDate.PreviousMonth | src/App.jsx:128-132 | (year, month - 1), wrapped: a valid month one month earlier |
| CivilDate.NextMonth | src/App.jsx:134-138 | (year, month + 1), wrapped: a valid month one month later |
| CivilDate.NextOfPreviousMonth | src/App.jsx:128-138 | stepping back then forward, or forward then back, returns the same (year, month) |
| CivilDate.FirstOfNextMonth | src/App.jsx:53 | the next month's first day comes `DaysInMonth` days after this month's first day |
| CivilDate.StartOfPreviousMonth | src/App.jsx:128-132 | the new current date is a valid day 1 of the month before |
| CivilDate.StartOfNextMonth | src/App.jsx:134-138 | the new current date is a valid day 1 of the month after |
| CivilDate.NavigationRoundTrip | src/App.jsx:128-138 | next-then-previous and previous-then-next both land on day 1 of the starting month |
| CivilDate.IsSameDay | src/dateUtils.js:33-40 | true exactly when both dates are present and have the same year, month and day |
| CivilDate.IsSameDayProperties | src/App.jsx:77-84 | false when either date is absent; reflexive on present dates; symmetric |
| CivilDate.IsToday | src/dateUtils.js:42-45 | with "now" given as a parameter, true exactly for that day |
| CivilDate.YearTextInjective | src/App.jsx:30-31 | different years give different year fields |
| CivilDate.FormatDate | src/App.jsx:29-39 | the key is the year, `-`, the 2-digit day, `-`, the 2-digit month (1-based) |
| CivilDate.FormatDateInjective | src/dateUtils.js:1-7 | two valid dates have the same key exactly when they are the same day |
| MonthGrid.FirstDayOfWeek | src/App.jsx:57 | the number of leading cells from the previous month is in 0..6 |
| MonthGrid.Cell | src/App.jsx:58-71 | every cell of the grid is a valid calendar date |
| MonthGrid.GetDaysInMonth | src/dateUtils.js:9-31 | exactly 42 dates, and cell `k` is `GridCell(year, month, k)` |
| MonthGrid.PushGridDays | src/App.jsx:54-73 | the three push loops produce exactly 42 cells, equal to the layout `Cell` describes |
| MonthGrid.GridCellDayNumber | src/App.jsx:57-71 | cell `k` is `k - firstDayOfWeek` days from day 1 of the month |
| MonthGrid.GridIsConsecutive | src/App.jsx:58-71 | consecutive cells are consecutive days |
| MonthGrid.GridCellWeekday | src/App.jsx:57-65 | cell `k` falls on weekday `k % 7`, so cell 0 is a Sunday |
| MonthGrid.GridCellMonth | src/dateUtils.js:16-28 | the leading cells are in the previous month, cell `firstDayOfWeek + d - 1` is day `d`, and the trailing cells are in the next month |
| MonthGrid.GridHoldsEachDayOnce | src/dateUtils.js:21-23 | each day of the month appears once, at index `firstDayOfWeek + d - 1` |
| MonthGrid.IsCurrentMonth | src/App.jsx:264 | the month-only comparison; `CurrentMonthCells` says which cells it marks |
| MonthGrid.IsWeekend | src/App.jsx:279 | Sunday or Saturday; `WeekendColumns` says which cells it marks |
| MonthGrid.CurrentMonthCells | src/App.jsx:264 | comparing `getMonth()` alone marks exactly the cells of the displayed month |
| MonthGrid.WeekendColumns | src/App.jsx:279 | the weekend shading falls exactly on grid columns 0 and 6 |
| Events.Truthy | src/App.jsx:114 | `excludeEventId &&`: an absent id, `0` and `""` are falsy; `FalsyExcludeIsIgnored` and `ExcludedEventsNeverConflict` state what this does to the exclusion |
| Events.LooseEquals | src/App.jsx:193 | `==` between ids, with a string converted by `Number`; its properties are stated by `LooseEqualsProperties` |
| Events.LooseEqualsProperties | src/App.jsx:193 | `==` on ids is symmetric, implied by `===`, equal to it on ids of one kind, and `0 == ""` |
| TimeConflict.GetMinutes | src/dateUtils.js:50-53 | never negative, and NaN when the text has no `:` |
| TimeConflict.GetMinutesClockText | src/dateUtils.js:50-53 | on any two-digit `HH:MM`, in range or not, `getMinutes` is `HH*60 + MM` |
| TimeConflict.GetMinutesWellFormed | src/dateUtils.js:50-53 | on `HH:MM` with HH < 24 and MM < 60, `getMinutes` is `HH*60 + MM`, in [0, 1440) |
| TimeConflict.ReadingsAtTheEdges | src/App.jsx:115-118 | both copies read `"24:00"` as 1440; `"25:70"` is 1570 to `getMinutes` but an invalid `Date` |
| TimeConflict.DateOn2000 | src/App.jsx:115-118 | a time read as a `Date` on 2000-01-01 lies in [0, 1440] minutes, and every well-formed time is readable |
| TimeConflict.ReadingsAgree | src/App.jsx:115-118 | on well-formed times the two readings give the same minute |
| TimeConflict.EmptyTimeIsNaN | src/dateUtils.js:51-52 | the empty time reads as NaN in both copies |
| TimeConflict.Overlaps | src/dateUtils.js:64-68 | the three clauses; `OverlapsIsIntersection`, `BackToBackDoNotOverlap`, `ContainmentOverlaps` and `NaNNeverOverlaps` state what they mean |
| TimeConflict.Skipped | src/dateUtils.js:59 | an event is skipped when the exclusion id is truthy and `===` its id; `ExcludedEventsNeverConflict` and `FalsyExcludeIsIgnored` state the effect |
| TimeConflict.HasTimeConflict | src/dateUtils.js:58-69 | true exactly when some event of the list is not skipped and overlaps the new range |
| TimeConflict.OverlapsIsIntersection | src/App.jsx:119-123 | for ranges with start < end, the three clauses say exactly `newStart < eventEnd && eventStart < newEnd` |
| TimeConflict.OverlapsSymmetric | src/dateUtils.js:64-68 | for ranges with start < end, swapping the new and the existing range gives the same answer |
| TimeConflict.BackToBackDoNotOverlap | src/dateUtils.js:64-68 | a range that ends where the other starts, in either order, does not overlap it |
| TimeConflict.ContainmentOverlaps | src/dateUtils.js:64-68 | a range inside the other, in either direction, overlaps it |
| TimeConflict.NaNNeverOverlaps | src/dateUtils.js:64-68 | a NaN event bound, or a NaN new start and end, makes every clause false |
| TimeConflict.ExcludedEventsNeverConflict | src/App.jsx:114 | with a truthy `excludeEventId`, the answer equals the answer on the list without that id's events |
| TimeConflict.FalsyExcludeIsIgnored | src/dateUtils.js:59 | an `excludeEventId` of `""`, `0` or null skips nothing |
| TimeConflict.EmptyTimesNeverConflict | src/dateUtils.js:51-52 | an empty start and end never conflict with anything |
| TimeConflict.CopiesAgree | src/App.jsx:106-125 | on well-formed times the `App.jsx` and `dateUtils.js` copies give the same answer |
| TimeConflict.ConflictExamples | src/App.jsx:119-123 | [10:00,11:00) against [09:00,12:00) and the reverse conflict; [10:00,11:00) after [09:00,10:00) does not |
| EventStore.DayEvents | src/App.jsx:112 | the day's list, or `[]` when the date has none; `SearchEvents` and `AddEvent` state their results through it |
| EventStore.NewEvent | src/App.jsx:150-154 | the added event; `FirstAddKeepsEmptyId` and `AddAfterResetUsesClock` state which id wins |
| EventStore.AddEvent | src/App.jsx:141-163 | rejected exactly on a conflict with the day's events; otherwise exactly one event is appended to that day's list (created if absent), and every other key is unchanged |
| EventStore.FirstAddKeepsEmptyId | src/App.jsx:18-24 | the first add from the initial draft stores the id `""`, not the clock value |
| EventStore.AddAfterResetUsesClock | src/App.jsx:150-154 | a draft without an `id` key gets the clock reading as its id |
| EventStore.AddKeepsDatesAgree | src/App.jsx:150-159 | an add keeps every event filed under its own `date` |
| EventStore.AddKeepsAccepted | src/App.jsx:145-159 | an add keeps every later event free of conflict with the earlier ones of its day |
| EventStore.DeleteEvent | src/App.jsx:166-171 | fails exactly on a date with no list; otherwise it removes every event with the id and keeps each other event as many times as before, in order, leaving other keys unchanged |
| EventStore.DeleteIdempotent | src/App.jsx:166-171 | deleting twice equals deleting once |
| EventStore.AddThenDelete | src/App.jsx:150-169 | deleting the id just added restores the day's list, when no other event of the day had that id |
| EventStore.FilterDropsRejectedLast | src/App.jsx:169 | a rejected last element does not change the filter's result |
| EventStore.DeleteKeepsDatesAgree | src/App.jsx:166-171 | a delete keeps every event filed under its own `date` |
| EventStore.DeleteKeepsAccepted | src/App.jsx:166-171 | a delete keeps the day's events free of add-time conflicts |
| EventStore.FirstWithId | src/App.jsx:176 | the index of the first event whose id is `===` the given one, or none when no event has it |
| EventStore.FirstOfFilter | src/App.jsx:205 | `filter(e => e.id === id)[0]` is the event at `FirstWithId` |
| EventStore.ReplaceMatching | src/App.jsx:192-197 | keeps the length, and replaces each event whose id is `==` the edited one, leaving the others in place |
| EventStore.EditedEvent | src/App.jsx:185-188 | the draft with `date` set; `EditEvent` and `EditReplacesInPlace` state where it goes |
| EventStore.EditEvent | src/App.jsx:173-202 | throws on a missing list or id; conflicts exactly when both times changed and the new range overlaps some event of the day, itself included; otherwise the list keeps its length and the matching entries are replaced in place with `date = dateStr` |
| EventStore.EditReplacesInPlace | src/App.jsx:190-198 | with unique ids, an edit replaces only the edited event, at its position |
| EventStore.EditKeepsDatesAgree | src/App.jsx:185-198 | an edit keeps every event filed under its own `date` |
| EventStore.UnchangedTimeNeverConflicts | src/App.jsx:178 | an edit that keeps the start or the end never reports a conflict |
| EventStore.EditConflictsWithItself | src/App.jsx:178-182 | moving a day's only event from 09:00-10:00 to 09:30-10:30 is refused as a conflict with itself |
| EventStore.EditCanBreakAccepted | src/App.jsx:178-198 | changing only the start can make two events of a day overlap |
| EventStore.PrefillDraft | src/App.jsx:204-215 | fails exactly when the list or the event is missing; otherwise the draft holds the fields of the first event with that id, as `filter(...)[0]` picks it |
| EventStore.PrefillThenSubmitIsIdentity | src/App.jsx:173-215 | opening an event and submitting it unchanged leaves the store as it was |
| EventStore.MatchesTerm | src/App.jsx:222-224 | the search test; `SearchIgnoresCase` and `TitleContainingTermIsFound` state what it finds |
| EventStore.SearchEvents | src/App.jsx:218-226 | `[]` for an absent date, the whole list for an empty term, otherwise the order-preserving sublist holding each event whose lower-cased title or description contains the lower-cased term, as many times as the day does, and no other |
| EventStore.SearchIgnoresCase | src/App.jsx:223-224 | searching for the lower-cased term finds the same events |
| EventStore.TitleContainingTermIsFound | src/App.jsx:223 | an event whose title contains the term as typed is found |
| EventStore.IncludesIgnoresCase | src/App.jsx:223-224 | an occurrence survives lower-casing both strings |
| CalendarApp.Calendar.constructor | src/App.jsx:14-26 | the initial state: today's month, nothing selected, no events, dialog closed, the initial draft, empty search, not editing |
| CalendarApp.Calendar.GetDaysInMonth | src/App.jsx:49-74 | 42 valid dates for the current month, cell `k` on weekday `k % 7` |
| CalendarApp.Calendar.HandlePreviousMonth | src/App.jsx:128-132 | the current date becomes day 1 of the previous month |
| CalendarApp.Calendar.HandleNextMonth | src/App.jsx:134-138 | the current date becomes day 1 of the next month |
| CalendarApp.Calendar.SelectDate | src/App.jsx:282 | a click selects that cell's date |
| CalendarApp.Calendar.SetSearchTerm | src/App.jsx:247 | the search box sets the term |
| CalendarApp.Calendar.OpenAddDialog | src/App.jsx:318 | the dialog opens only when a date is selected |
| CalendarApp.Calendar.ChangeDraft | src/App.jsx:335-377 | an input changes its own draft field and no other |
| CalendarApp.Calendar.HandleAddEvent | src/App.jsx:141-163 | ignored without a selection; alerts exactly on a conflict; otherwise the store is `AddEvent`'s, the draft is reset and the dialog closed; conflict-freedom of the days is preserved |
| CalendarApp.Calendar.HandleDeleteEvent | src/App.jsx:166-171 | throws exactly on a date with no list; otherwise the store is `DeleteEvent`'s; conflict-freedom is preserved |
| CalendarApp.Calendar.SubmitEditEvent | src/App.jsx:173-202 | ignored without a selection; throws, alerts or updates exactly as `EditEvent` fails or succeeds; on success the draft is reset, the dialog closed and edit mode left |
| CalendarApp.Calendar.HandleEditEvent | src/App.jsx:204-215 | on success the draft holds the event's fields and the dialog opens in edit mode; otherwise nothing changes |
| CalendarApp.Calendar.SubmitDialog | src/App.jsx:382 | in edit mode the outcome and new store are `EditEvent`'s, otherwise `AddEvent`'s; on success the draft is reset, the dialog closed and edit mode left; otherwise nothing changes |
| CalendarApp.Calendar.GetFilteredEvents | src/App.jsx:218-226 | the events shown are `SearchEvents`' result, each filed under the shown date |
| CalendarApp.EditWithoutChanges | src/App.jsx:173-215 | opening an event and saving it untouched leaves the events unchanged and leaves edit mode |

## Left out

- React rendering, JSX markup, the dialog and button components, and the hooks
  as framework mechanics. Only the state transitions the handlers compute are
  modelled, and each handler's state update is applied at once.
- `localStorage` loading and saving, with `JSON.parse`/`JSON.stringify`
  (src/App.jsx:93-103). This is browser I/O.
- `alert()`: shown as the `Alerted` outcome, with no state change.
- `Date.now()` and the clock read of `isToday`. The fresh id (`now`) and today's
  date are parameters.
- `Intl.DateTimeFormat` internals. The key is built directly in the
  `YYYY-DD-MM` order the code produces. Years are written as plain decimal text,
  with `-` for negative years, not in Intl's era form.
- `formatMonth` (the heading text). It is display only.
- The time of day and time zone of JavaScript `Date` values. A date is a
  (year, month, day) triple. `new Date(y, m, -i)` is replaced by the day it
  normalises to on the proleptic Gregorian calendar, within the two limits below.
- CivilDate.StartOfPreviousMonth: years are unbounded. `new Date(y, m, d)` reads a
  year from 0 to 99 as 1900 to 1999, so stepping back from January of year 100
  reaches December 99. The next step builds `new Date(99, 10, 1)`, which is
  November 1999; the model gives November of year 99.
- CivilDate.StartOfNextMonth: has the same years 0-99 limit. It also ignores that a
  `Date` holds only 100,000,000 days on either side of 1970-01-01; beyond that
  the source gets an invalid date.
- MonthGrid.GetDaysInMonth: for a year from 0 to 99 the source builds the grid of
  the year 1900 more, and outside the `Date` range it builds invalid dates. The
  model builds the grid of the year itself.
- TimeConflict.DateOn2000: accepts only strict `HH:MM` (plus `24:00`). Engines
  also accept `HH:MM:SS` and fractional seconds; those are read as invalid here.
- JsText.ToNumber: handles only the empty string and decimal digit strings.
  Signs, spaces, decimals, exponents and hex read as NaN. The time fields of an
  `<input type="time">` are digits.
- JsText.ToLower: lower-cases ASCII letters only. Full Unicode case mapping is
  not modelled.
- What React does after a handler throws. A thrown TypeError is the `Thrown`
  outcome with the state unchanged.
- TimeConflict.ConflictExamples: the concrete cases are proved for the `App.jsx`
  reading. For `dateUtils.js` they follow from `CopiesAgree`, which covers all
  well-formed times.
