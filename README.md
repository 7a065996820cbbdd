# Habit tracker core, modelled in Dafny

This project models the logic of the `HabitTracker` component of a
personal habit checklist (a Next.js page). The user defines named habits
and ticks each one off for the current day. Every tick is recorded in the
habit's per-day history. The component derives a daily progress
percentage and a per-month completion percentage, and it moves between a
daily, a monthly and a yearly page. Once a minute a rollover check clears
the day's flags when the date changes.

Modules, leaves first:

- `Wrappers` holds `Option`.
- `Dates` models day keys (`YYYY-MM-DD`, abstracted to year, month and
  day), Gregorian month lengths, `getDaysInMonth`, `getDatesForMonth`,
  `isToday` and `isFutureDate`. It also proves that the key text
  round-trips, so equal keys are equal strings.
- `Text` models JavaScript's `trim`, which decides whether a name is blank.
- `Habits` holds the habit and history records and the pure updaters
  behind `addHabit`, `updateHabit`, `deleteHabit`, `toggleHabit` and the
  rollover reset. It states the store's invariants and proves that every
  update preserves them.
- `Aggregation` models the progress effect and
  `getMonthlyCompletionPercentage`, as exact reals.
- `Navigation` models month and year stepping and the swipe step
  function.
- `Tracker` holds the class `HabitTracker`. Its fields are the component's
  state: `habits`, `today`, `currentMonth`, `currentYear`, the page and the
  swipe start. Its methods are the commands. Each method changes only the
  fields in its `modifies` clause. The habit, rollover, month-step and
  swipe commands are proved against the pure functions above; the others
  state their new field values directly. Every command keeps `Valid()`: the displayed month
  is in range and the habits are well formed. The habit commands also
  keep `InStep()`, the central invariant below, whenever it held before.

The central invariant (`Habits.Synced`) says two things about every
habit. Its `completed` flag is what its history records for today. No
entry is dated after today. That the history has at most one entry per
day is part of `Habits.WellFormed`, and so of `Valid()`.
Add, rename, delete and toggle preserve the invariant. The rollover
preserves it when the new day is later than the old one. If the clock is
set back, the rollover can break it: a habit that was done on the new,
earlier day now shows as not done (`Habits.ResetToDoneDayBreaksSync`,
with the concrete instance `Habits.ResetForEarlierDayBreaksSync`).

After a clock set back the tracker keeps working. Every command still
runs, and so does the next tick. `Tracker.ClockSetBackScenario` shows
this: the habits stay well formed but are no longer in step.

Three facts about the component are easy to miss:

- `addHabit` assigns `max(ids) + 1`, or 1 for an empty list. So an id is
  reused after the habit with the largest id is deleted, or after the
  list becomes empty (`Habits.IdReusedAfterDeletingMax`).
- `addHabit` gives no result to its caller. It only appends the new
  habit to the list, or does nothing for a blank name.
- The day key comes from `toISOString`, a UTC date, not a local one. Only
  the key abstraction is modelled (see Left out).

## Model

| member | source | states |
|---|---|---|
| `Dates.MonthLength` | app/page.tsx:55-57 | a month has 28 to 31 days; 31 for the seven long months, under 30 only for February, and February has 29 exactly in leap years |
| `Dates.YearLength` | app/page.tsx:55-57 | the twelve month lengths add up to 365, or 366 in a leap year |
| `Dates.GetDaysInMonth` | app/page.tsx:55-57 | 28..31 days, equal to the calendar length for a month index 0..11 |
| `Dates.MonthNormalisation` | app/page.tsx:55-66 | month index `m + 12` of a year is month `m` of the next year, for both the length and the list of dates (the `Date` constructor's normalisation) |
| `Dates.KeyOfDay` | app/page.tsx:63-64 | the key made for day `i + 1` is a valid date of the normalised month |
| `Dates.GetDatesForMonth` | app/page.tsx:60-66 | as many keys as the month has days, all valid dates of the normalised month, day `i + 1` at position `i`, strictly ascending |
| `Dates.GetDatesForMonthComplete` | app/page.tsx:60-66 | every day of the month is in the list, at the position of its day number |
| `Dates.BeforeIsStrictTotalOrder` | app/page.tsx:77-79 | the chronological order of keys is irreflexive, asymmetric, transitive and total |
| `Dates.Classification` | app/page.tsx:72-79 | every day is exactly one of past, today (`isToday`) and future (`isFutureDate`) |
| `Dates.Before` | app/page.tsx:77-79 | the chronological order behind `isFutureDate`: a different year decides by year, then a different month by month, and within a month the day decides; a day is never before itself |
| `Dates.IsToday` | app/page.tsx:72-74 | for four-digit years, a day is today exactly when its key text is `===` to today's |
| `Dates.IsFutureDate` | app/page.tsx:77-79 | a day is in the future exactly when it is neither today nor earlier than today |
| `Dates.DigitValue` | app/page.tsx:47-49 | a digit character's value is 0..9 and writes back as the same character |
| `Dates.FormatKey` | app/page.tsx:47-49 | the key text is ten characters with dashes at positions 4 and 7 |
| `Dates.ParseFormat` | app/page.tsx:47-49 | reading the `YYYY-MM-DD` text of a key back gives the key |
| `Dates.FormatKeyInjective` | app/page.tsx:47-49 | two keys are equal exactly when their texts are, so key equality is `isToday`'s string `===` |
| `Text.LeadingSpace` | app/page.tsx:162 | the length of the leading run of white space: everything before it is white space and the next character is not |
| `Text.EndOfText` | app/page.tsx:162 | the length without the trailing run of white space: everything after it is white space and the character before it is not |
| `Text.TrimIsMiddle` | app/page.tsx:162 | `trim` returns the middle of the string between two runs of white space, with no white space at either end |
| `Text.Trim` | app/page.tsx:162 | the trimmed name is no longer than the typed one and has no white space at either end |
| `Text.TrimEmptyIffBlank` | app/page.tsx:162 | a name trims to the empty string exactly when it is all white space |
| `Text.TrimIdempotent` | app/page.tsx:168 | trimming a trimmed name changes nothing |
| `Habits.FindIndex` | app/page.tsx:139 | `findIndex` gives the first entry for the date, or none when no entry has that date |
| `Habits.WasCompletedOnDate` | app/page.tsx:191-194 | true only when an entry `(date, true)` exists, false when no entry has the date |
| `Habits.WasCompletedIffRecorded` | app/page.tsx:191-194 | with one entry per day, the lookup is true exactly when `(date, true)` is recorded and false exactly when there is no entry or `(date, false)` |
| `Habits.Toggled` | app/page.tsx:136-154 | the toggled habit keeps its id and name and has its flag negated |
| `Habits.ToggledRecordsToday` | app/page.tsx:139-153 | after a toggle the day's lookup gives the new flag and the history has an entry for the day; its length is unchanged if it had one and one longer otherwise; every other day reads as before |
| `Habits.ToggledKeepsHistoryShape` | app/page.tsx:139-148 | a toggle keeps one entry per day, and each new entry is an old one or is dated today |
| `Habits.ToggleTwice` | app/page.tsx:132-159 | toggling twice restores the flag and leaves one entry `(today, flag)`; a habit whose flag matches its existing entry for the day comes back unchanged |
| `Habits.ToggleHabit` | app/page.tsx:132-159 | same length; each habit with the id is toggled, every other habit is unchanged |
| `Habits.MaxId` | app/page.tsx:163 | the largest id: no id exceeds it and some habit has it |
| `Habits.NextId` | app/page.tsx:163 | the new id is larger than every id present; it is 1 for an empty list and otherwise one more than an id present |
| `Habits.AddHabit` | app/page.tsx:161-176 | the old list is kept as a prefix and at most one habit is appended, not yet done and with an empty history |
| `Habits.AddHabitEffect` | app/page.tsx:161-176 | a blank name changes nothing; otherwise one habit is appended after the unchanged list, with the trimmed non-blank name, the flag cleared, an empty history and the id `NextId` (the largest id plus 1, or 1), which is above every existing one |
| `Habits.AddTrimmedName` | app/page.tsx:162-171 | a name without white space at its ends is stored as typed, with id `NextId` |
| `Habits.IdReusedAfterDeletingMax` | app/page.tsx:161-188 | after the habit with the largest id (2) is deleted, the next id is 2 again; after the only habit is deleted, the next id is 1 again |
| `Habits.ToggledKeepsOtherDay` | app/page.tsx:139-148 | a toggle leaves what the history says about every other day |
| `Habits.ToggleTwiceRestores` | app/page.tsx:132-159 | when the flag agrees with an existing entry for the day, two toggles give back the same habit |
| `Habits.DeleteKeepsOthers` | app/page.tsx:186-188 | exactly the habits with another id remain |
| `Habits.Rename` | app/page.tsx:180 | same length; habits with the id take the name, the rest are unchanged |
| `Habits.UpdateHabit` | app/page.tsx:178-184 | every habit keeps its id, flag, history and position; the name changes to the trimmed name only for the matching id and only when that is non-blank |
| `Habits.DeleteHabit` | app/page.tsx:186-188 | no habit with the id remains, and the list gets no longer |
| `Habits.DeleteDistributes` | app/page.tsx:187 | deleting distributes over concatenation, so what remains keeps its order |
| `Habits.DeleteAbsent` | app/page.tsx:187 | deleting an id that no habit has changes nothing |
| `Habits.DeleteAt` | app/page.tsx:187 | with unique ids, deleting the id at position `k` removes exactly that position |
| `Habits.DeleteOnlyAt` | app/page.tsx:187 | when only position `k` holds the id, deleting it removes exactly that position and keeps the rest in order |
| `Habits.DeleteKeepsUniqueIds` | app/page.tsx:186-188 | deleting keeps the ids pairwise distinct |
| `Habits.ResetCompleted` | app/page.tsx:102-107 | same length; every flag is cleared and every id, name and history is kept |
| `Habits.AddHabitPreserves` | app/page.tsx:161-176 | adding keeps ids unique and positive, names trimmed and non-blank and one entry per day; if every flag was in step with today's entry, it still is |
| `Habits.InSync` | app/page.tsx:132-159 | a habit in step with today whose flag is raised has `(today, true)` recorded in its history |
| `Habits.Synced` | app/page.tsx:95-159 | when every habit is in step with today, every raised flag has today's completion recorded |
| `Habits.UpdateHabitPreserves` | app/page.tsx:178-184 | renaming keeps the habits well formed, and keeps them in step with today if they were |
| `Habits.DeleteHabitPreserves` | app/page.tsx:186-188 | deleting keeps the habits well formed, and keeps them in step with today if they were |
| `Habits.ToggleHabitPreserves` | app/page.tsx:132-159 | toggling keeps the habits well formed, and keeps them in step with today if they were |
| `Habits.ResetForLaterDay` | app/page.tsx:95-108 | the rollover to a later day leaves the habits well formed, and every flag, now false, agrees with the history for the new day |
| `Habits.ResetToDoneDayBreaksSync` | app/page.tsx:99-107 | for any well-formed list, a rollover to a day on which some habit is recorded as done leaves that habit, and so the list, out of step |
| `Habits.ResetForEarlierDayBreaksSync` | app/page.tsx:99-107 | for example, a habit with only `(2024-03-01, true)` recorded is well formed and in step on 2024-03-02, and after the reset for the earlier 2024-03-01 it is no longer in step |
| `Aggregation.CountCompleted` | app/page.tsx:120 | the count of done habits is at most the list length; it is 0 exactly when none is done and the full length exactly when all are |
| `Aggregation.CountReplace` | app/page.tsx:120 | replacing one habit changes the count by the difference of the two flags |
| `Aggregation.Percent` | app/page.tsx:121 | `part / whole * 100`, 0 for an empty whole; within [0, 100], 0 exactly when the part is 0 and 100 exactly when part equals whole |
| `Aggregation.DailyProgress` | app/page.tsx:116-124 | 0 for no habits, otherwise done/total × 100; within [0, 100]; 0 exactly when no habit is done, 100 exactly when every habit is |
| `Aggregation.OneOfThree` | app/page.tsx:116-124 | one done habit out of three gives 100/3 |
| `Aggregation.ToggleMovesCountByOne` | app/page.tsx:132-159 | toggling a habit with a unique id moves the done count by exactly one, down if it was done and up otherwise |
| `Aggregation.ResetZeroesProgress` | app/page.tsx:102-124 | after the rollover the progress is 0 |
| `Aggregation.PastDates` | app/page.tsx:84 | no longer than the input; holds exactly the input's days that are not after today |
| `Aggregation.CompletedDates` | app/page.tsx:88 | no longer than the input; holds exactly the days on which the habit was done; it keeps every day exactly when all were done and none exactly when none was |
| `Aggregation.CompletionShare` | app/page.tsx:82-90 | within [0, 100]; 0 when every day is in the future; otherwise done past days / past days × 100; 100 exactly when the habit was done on every past day |
| `Aggregation.MonthlyCompletionPercentage` | app/page.tsx:82-90 | a month's percentage lies within [0, 100] |
| `Aggregation.PastDatesPrefix` | app/page.tsx:84 | when the non-future days form a prefix of the list, the filter returns that prefix |
| `Aggregation.PastDaysOfMonth` | app/page.tsx:77-90 | the days counted for a month: all of them for an earlier month, days 1 to today in the current month, none for a later month |
| `Aggregation.NoHistoryScoresZero` | app/page.tsx:82-90 | a habit with no history scores 0 for every month |
| `Aggregation.MonthlyCountsDaysUpToToday` | app/page.tsx:77-90 | a later month scores 0; in the current month the denominator is today's day number |
| `Navigation.PreviousMonth` | app/page.tsx:268-275 | the month number `12 * year + month` drops by exactly one, and the month stays in 0..11 |
| `Navigation.NextMonth` | app/page.tsx:278-285 | the month number rises by exactly one, and the month stays in 0..11 |
| `Navigation.FromMonthNumber` | app/page.tsx:268-285 | every month number belongs to a view with its month in 0..11 |
| `Navigation.MonthStepsAreInverse` | app/page.tsx:268-285 | each month step gives the in-range view one month before or after; next undoes previous and previous undoes next |
| `Navigation.PreviousYear` | app/page.tsx:288-290 | only the year changes, down by one |
| `Navigation.NextYear` | app/page.tsx:293-295 | only the year changes, up by one |
| `Navigation.TwelveMonthsAreAYear` | app/page.tsx:278-295 | twelve next-month steps equal one next-year step |
| `Navigation.SwipeTarget` | app/page.tsx:215-236 | `handleTouchMove`'s four cases in order; a target is always another page, and only past the 50-pixel threshold |
| `Navigation.SwipeStepsToNeighbour` | app/page.tsx:215-236 | a move changes the page exactly when it passes +50 on any page but the yearly one, or −50 on any page but the daily one; it then steps one page right for a positive difference and one page left for a negative one |
| `Navigation.SwipeBack` | app/page.tsx:215-236 | an equal swipe the other way undoes a page step |
| `Tracker.HabitTracker.constructor` | app/page.tsx:30-41 | starts with no habits, the given day and month, the daily page and no swipe, with the invariant established |
| `Tracker.HabitTracker.AddHabit` | app/page.tsx:161-176 | the list becomes `AddHabit` of the old list and only `habits` changes; habits stay well formed, and stay in step with today if they were |
| `Tracker.HabitTracker.UpdateHabit` | app/page.tsx:178-184 | the list becomes `UpdateHabit` of the old list and only `habits` changes; habits stay well formed, and stay in step with today if they were |
| `Tracker.HabitTracker.DeleteHabit` | app/page.tsx:186-188 | the list becomes `DeleteHabit` of the old list and only `habits` changes; habits stay well formed, and stay in step with today if they were |
| `Tracker.HabitTracker.ToggleHabit` | app/page.tsx:132-159 | the list becomes `ToggleHabit` of the old list for today; each toggled habit's flag equals today's lookup; habits stay well formed, and stay in step with today if they were |
| `Tracker.HabitTracker.CheckForNewDay` | app/page.tsx:95-108 | the same key is a no-op; a new key becomes `today` and every flag is cleared with histories kept; habits stay well formed in every case, and stay in step with the new day if they were in step and the day did not move backwards |
| `Tracker.HabitTracker.Progress` | app/page.tsx:116-124 | the progress state is within [0, 100] and 0 with no habits |
| `Tracker.HabitTracker.MonthBar` | app/page.tsx:652-657 | a yearly-grid bar is within [0, 100] |
| `Tracker.HabitTracker.GoToPreviousMonth` | app/page.tsx:268-275 | the displayed month becomes `PreviousMonth` of the old one and stays in range; nothing else changes |
| `Tracker.HabitTracker.GoToNextMonth` | app/page.tsx:278-285 | the displayed month becomes `NextMonth` of the old one and stays in range; nothing else changes |
| `Tracker.HabitTracker.GoToPreviousYear` | app/page.tsx:288-290 | only `currentYear` changes, down by one |
| `Tracker.HabitTracker.GoToNextYear` | app/page.tsx:293-295 | only `currentYear` changes, up by one |
| `Tracker.HabitTracker.ChangePage` | app/page.tsx:298-300 | the page becomes the one asked for; nothing else changes |
| `Tracker.HabitTracker.SelectMonth` | app/page.tsx:644-647 | a click on a month of the yearly grid shows that month on the monthly page |
| `Tracker.HabitTracker.HandleTouchStart` | app/page.tsx:197-203 | the swipe start becomes the pointer position |
| `Tracker.HabitTracker.HandleTouchMove` | app/page.tsx:205-237 | with no swipe under way nothing changes; otherwise the page moves to `SwipeTarget` of the old page and `startX − x`, and the swipe ends, or nothing changes when no case applies |
| `Tracker.HabitTracker.HandleTouchEnd` | app/page.tsx:239-241 | the swipe start is cleared |
| `Tracker.ReadHabitScenario` | app/page.tsx:95-188 | add "Read" and tick it on day D1: progress is 100. After the rollover to a later D2 its flag is clear and progress is 0, but its history still says it was done on D1 |
| `Tracker.SwipeScenario` | app/page.tsx:197-237 | from the daily page a 100-pixel swipe left shows the monthly page, and a 100-pixel swipe right returns to the daily page |
| `Tracker.ClockSetBackScenario` | app/page.tsx:95-159 | tick "Read" on March 1st, roll to March 2nd and back to March 1st: the flag is clear while the history says done, so the habits are out of step, and the tracker still runs its next command and tick |

## Left out

- Conversion from a JavaScript `Date` to a key is not modelled: `formatDate` uses `toISOString` (a UTC date), `getDatesForMonth` builds local midnights, and the two can differ by a day. Keys are taken as given triples, and the clock's current key is a parameter of `CheckForNewDay` and the constructor.
- The `Date` constructor's mapping of years 0 to 99 onto 1900 to 1999 is not modelled, and neither is the six-digit `±YYYYYY` key text that `toISOString` writes outside years 0 to 9999. `FormatKey` covers four-digit years only.
- The timer (`setInterval` and `clearInterval`) is not modelled; `CheckForNewDay` is one tick.
- Percentages are exact reals, not floating point; `toFixed` rounding is display only.
- Ids and pointer positions are unbounded integers. JavaScript numbers are doubles, and `clientX` can be fractional.
- The page's UI-only state and effects are not modelled: `isAddingHabit`, `newHabitName`, `editingHabitId`, `isDeleting`, the input reset that `addHabit` and `updateHabit` do, the input focus effect and `handleKeyDown`. The same goes for `toggleTheme` (a DOM class change), `getMonthName`/`getShortMonthName` (locale text), the CSS offset that `getPageIndex` feeds into `translateX` (`Navigation.PageIndex` keeps only the left-to-right order of the pages), the grid's week slicing and all JSX. `app/layout.tsx` is static markup and is not part of this model.
- Touch and mouse events are not modelled; the swipe handlers take the pointer's x position.
- React's batching and closure capture are not modelled; each command runs alone on the current state.
- Tracker.HabitTracker.CheckForNewDay: it promises `InStep()` afterwards only when the new key is not earlier than the old one, because `checkForNewDay`'s reset does not restore the flag from a history entry that already exists for the new day.
- Aggregation.MonthlyCompletionPercentage: its own contract states only the bounds; what it counts is stated by `CompletionShare`, `PastDaysOfMonth` and `MonthlyCountsDaysUpToToday`.
