# Phonemica review scheduler and streak, in Dafny

Phonemica is a language-learning client. Most of it is UI glue around a remote language model.
This project models the part with real rules:

- **The review-word store.** `handleAddOrUpdateReviewWord` is an upsert. It matches a word by id, or by the word ignoring case. A match sets the matched word's level to the given level plus one and schedules it `[1, 3, 7, 14, 30, 90][min(level, 5)]` days ahead. A new word is created at level 0, due today. Anything else leaves the store alone.
- **The due filter** of the review tab: `w.reviewDate <= today`, compared as JavaScript strings.
- **The daily streak** (`utils/streakHelper.ts`). `updateStreak` advances a stored `{count, lastCompletedDate}` record at most once per day. `getStreak` shows 0 once a day has been missed.
- **The date helpers** (`utils/dateHelper.ts`): `toISOString().split('T')[0]` of now, or of now plus some days.
- **The session-complete handler.** It updates the streak and credits 20 or 30 XP, capped at the daily goal.

Modules:

- `Wrappers`: `Option`.
- `JsString`: JavaScript's string `<` and `<=`, zero-padded digits, ASCII lower-casing and `split(sep)[0]`.
- `Calendar`: the proleptic Gregorian calendar over day numbers counted from 1970-01-01, and the ISO date text of a day, including the `+YYYYYY` form past year 9999.
- `DateHelper`: instants in milliseconds, `getTodayString` and `getFutureDateString`.
- `StreakHelper`: the streak record, as pure functions and as the `StreakTracker` class over the stored record.
- `Scheduler`: `ReviewWord`, the interval table, the upsert (as a specification function and as the `ReviewStore.AddOrUpdate` method with its `findIndex` loop) and the due filter.
- `Session`: the learner's XP and the `App` state the session handler updates.

The clock is a parameter: `now` is the instant `new Date()` would read. The identifier `Date.now().toString()` that a created word takes is the parameter `newId`.

The source keeps a review date as ISO text. The model keeps it as the day number whose text that is, `IsoDay(reviewDate)`. `FutureDateIsShiftedToday` proves that the text the source writes, the date part of the clock moved forward by the interval, is that day's text. `DueAgreesWithDateText` proves that the source's string comparison and the model's day comparison agree.

## Model

| member | source | states |
|---|---|---|
| JsString.StringLess | App.tsx:23 | JavaScript `<` on strings: lexicographic order by character, a proper prefix being smaller; `StringLessTotalOrder` shows it is a strict total order. |
| JsString.StringLessTotalOrder | App.tsx:23 | `<` on strings never holds both ways, and holds one way between any two distinct strings. |
| JsString.StringAtMost | App.tsx:23 | JavaScript `<=` on strings, defined as not `>`; `StringAtMostIsLessOrEqual` shows it is `<` or equal. |
| JsString.StringAtMostIsLessOrEqual | App.tsx:23 | `a <= b` holds exactly when `a < b` or the strings are equal. |
| JsString.Lower | App.tsx:108 | `toLowerCase` keeps the length and lower-cases each ASCII letter, leaving other characters as they are. |
| JsString.BeforeFirst | utils/dateHelper.ts:3 | `split(sep)[0]` is the longest prefix without the separator: it is a prefix, holds no separator, and is followed by one unless it is the whole string. |
| JsString.StringLessAppend | App.tsx:23 | For equal-length prefixes, the lexical order of two joined strings is decided by the prefixes first, then by the rests. |
| JsString.DigitsOrder | utils/dateHelper.ts:3 | Zero-padded numbers of one width compare lexically exactly as the numbers compare, and equal texts mean equal numbers. |
| JsString.Digits | utils/dateHelper.ts:3 | The padded text has exactly the requested width and only digits. |
| JsString.BeforeFirstOfJoin | utils/dateHelper.ts:3 | `split(sep)[0]` of `head + sep + tail` is `head` when `head` has no separator. |
| Calendar.DaysInMonth | utils/dateHelper.ts:8 | A month has 28 to 31 days, and February has 29 exactly in leap years. |
| Calendar.Next | utils/dateHelper.ts:8 | The day after a valid date is a valid, later date. |
| Calendar.Prev | utils/streakHelper.ts:37-39 | The day before a valid date is valid, and the next day after it is the date itself. |
| Calendar.PrevOfNext | utils/streakHelper.ts:37-39 | Going forward a day and back again returns to the same date. |
| Calendar.PrevOfDateOfDay | utils/streakHelper.ts:37-39 | The day before the date of day `n` is the date of day `n - 1`. |
| Calendar.NextIsSuccessor | utils/dateHelper.ts:8 | No valid date lies strictly between a date and the next one. |
| Calendar.DateOfDay | utils/dateHelper.ts:2-3 | Every day number from 1970-01-01 names a valid date in 1970 or later. |
| Calendar.DateOfDayIncreasing | utils/dateHelper.ts:2-3 | Later day numbers name later dates. |
| Calendar.DateOfDayOrder | utils/dateHelper.ts:2-3 | Date order is day-number order in both directions, and distinct days have distinct dates. |
| Calendar.YearText | utils/dateHelper.ts:3 | Years up to 9999 are written with four digits; larger years take seven characters, `+` and six digits. |
| Calendar.IsoDate | utils/dateHelper.ts:3 | A four-digit-year date text is 10 characters with `-` at positions 4 and 7, and holds only digits, `-` and `+`. |
| Calendar.MonthDayTextOrder | utils/dateHelper.ts:3 | The `-MM-DD` texts compare as the (month, day) pairs, and equal texts mean equal pairs. |
| Calendar.IsoDateOrder | App.tsx:23 | For four-digit years, date texts compare as the dates do, and equal texts mean equal dates. |
| Calendar.FourDigitYearDownward | App.tsx:23 | An earlier day than a four-digit-year day also has a four-digit year. |
| Calendar.IsoDayOrder | App.tsx:23 | For four-digit years, JavaScript `<`, `<=` and `===` on day texts agree with `<`, `<=` and `==` on day numbers. |
| Calendar.IsoDayMonotone | App.tsx:23 | A later day's text never compares below an earlier day's. |
| Calendar.ExpandedYearSortsFirst | App.tsx:23 | Past 9999 the agreement fails: 10000-01-01's text compares below 9999-12-31's. |
| DateHelper.IsoTimestamp | utils/dateHelper.ts:3 | `toISOString()`: the date text, `T`, the time of day and `Z`; `TodayStringIsDatePart` states its split at `T`. |
| DateHelper.NoTimeSeparatorInDate | utils/dateHelper.ts:3 | A date text contains no `T`. |
| DateHelper.TodayString | utils/dateHelper.ts:1-4 | Today's text has no `T`, and it has 10 characters in four-digit years. |
| DateHelper.TodayStringIsDatePart | utils/dateHelper.ts:1-4 | Today's text is the part of `toISOString()` before the first `T`, and the timestamp is that text, `T`, the time of day and `Z`. |
| DateHelper.ShiftDay | utils/dateHelper.ts:7-8 | Adding whole days of milliseconds adds as many days to the day number. |
| DateHelper.FutureDateString | utils/dateHelper.ts:6-10 | The date text of the day `daysToAdd` days after today: it has no `T`, and 10 characters in four-digit years. `FutureDateIsShiftedToday` shows it is what the source reads from the moved clock. |
| DateHelper.FutureDateIsShiftedToday | utils/dateHelper.ts:6-10 | The future text is `getTodayString()` read at the clock moved `daysToAdd` whole days forward. |
| DateHelper.FutureZeroIsToday | utils/dateHelper.ts:6-10 | Adding no days gives `getTodayString()`. |
| DateHelper.FutureDateMonotone | utils/dateHelper.ts:6-10 | A larger offset gives a text no lower under JavaScript `<=`. |
| StreakHelper.YesterdayString | utils/streakHelper.ts:37-39 | Yesterday's text is the date text of the previous day number. |
| StreakHelper.Shown | utils/streakHelper.ts:8-25 | With nothing stored the streak is 0. A non-zero streak is the stored count, and only when the stored date is yesterday's or today's text. |
| StreakHelper.Completed | utils/streakHelper.ts:27-50 | The record after `updateStreak` is stamped with today. If today is already stamped, the record is unchanged. |
| StreakHelper.CompletedKeepsWellFormed | utils/streakHelper.ts:41-47 | Every record written has a count of at least 1, if the stored one did. |
| StreakHelper.FirstCompletion | utils/streakHelper.ts:8-44 | With nothing stored, the streak shows 0 and the first completion writes count 1 stamped today. |
| StreakHelper.SameDayIsIdempotent | utils/streakHelper.ts:33-35 | A second completion on the same day changes nothing. |
| StreakHelper.AfterCompletion | utils/streakHelper.ts:19-24 | After a completion the streak shows its count that day and the next. The next day's completion adds exactly 1. After a missed day it shows 0, and the next completion restarts at 1. |
| StreakHelper.StreakTracker.constructor | utils/streakHelper.ts:9 | The tracker starts from the stored record. |
| StreakHelper.StreakTracker.GetStreak | utils/streakHelper.ts:8-25 | Returns the streak shown for the stored record today, changing nothing. |
| StreakHelper.StreakTracker.UpdateStreak | utils/streakHelper.ts:27-50 | Returns the new count. Writes the advanced record unless today was already stamped, in which case the store is unchanged. Keeps counts at least 1. |
| StreakHelper.StreakSequence | utils/streakHelper.ts:27-50 | Completions on day 1, day 1 again, day 2 and day 4 store 1, 1, 2 and 1, and the streak shows 0 on day 4 before completing. |
| StreakHelper.StreakScenario | utils/streakHelper.ts:8-50 | The same sequence through the tracker returns 1, 1, 2, then shows 0 with 2 stored, then returns 1. |
| Scheduler.Interval | App.tsx:109-111 | The interval lies between 1 and 90 days; `IntervalIsTableEntry` shows it is the table lookup. |
| Scheduler.IntervalIsTableEntry | App.tsx:109-111 | The interval for a level is `intervals[min(level, 5)]` of the table `[1, 3, 7, 14, 30, 90]`. |
| Scheduler.IntervalSchedule | App.tsx:109-111 | Intervals never shrink as the level grows, run from 1 to 90 days, and are 90 from level 5 on. |
| Scheduler.Matches | App.tsx:108 | The `findIndex` test: the same id, or, only when details are given, the same word ignoring ASCII case; `FirstMatch` and `FindIndex` state the search over it. |
| Scheduler.FirstMatch | App.tsx:108 | The index found matches; no earlier entry matches; and none matches at all when nothing is found. |
| Scheduler.FindIndex | App.tsx:108 | The `findIndex` loop returns -1 or a matching index with no earlier match, and -1 only when nothing matches. |
| Scheduler.Upsert | App.tsx:102-135 | A match changes only that entry: level `level + 1`, review day `today + interval(level)`, with id, word and translation kept. With no match but details, a word is appended at level 0, due today. Otherwise the list is unchanged. |
| Scheduler.UpsertKeepsWordsDistinct | App.tsx:108-131 | An upsert never leaves two words equal ignoring case. |
| Scheduler.ObservedWordIsStored | App.tsx:108-131 | After an upsert with details, the store holds a word equal to them ignoring case. |
| Scheduler.StoredWordIsNotAppended | App.tsx:108-121 | Once such a word is stored, an upsert with those details never grows the list. |
| Scheduler.ObservingTwiceStoresOnce | App.tsx:108-131 | Observing the same word twice, in any casing, creates at most one entry and keeps the store free of duplicates. |
| Scheduler.MarkLearnedAdvances | App.tsx:110-121 | Marking a stored word learned raises its level by one and schedules it by its old level's interval; level 2 gives level 3, seven days ahead. |
| Scheduler.ReobservedWordDropsToLevelOne | App.tsx:144 | When the chat path re-observes a stored word with level 0, the word is reset to level 1, due tomorrow. |
| Scheduler.IsDue | App.tsx:23 | The due test on day numbers; `DueAgreesWithDateText` shows it gives the source's string verdict. |
| Scheduler.DueAgreesWithDateText | App.tsx:22-23 | For four-digit years, `reviewDate <= today` on the texts is the same verdict as on the days. |
| Scheduler.DueWords | App.tsx:23 | The filtered list holds only due words. Each word occurs as often as in the store if due, else not at all. The list keeps store order. |
| Scheduler.DueFilterExample | App.tsx:23 | Words due before, on and after today give exactly the first two, in order. |
| Scheduler.DueWordsMembership | App.tsx:23 | A word is on a day's list exactly when it is stored and due that day. |
| Scheduler.ScheduledWordWaits | App.tsx:23 | A stored word scheduled after today is off today's list and on the list of its review day. |
| Scheduler.ReviewedWordLeavesToday | App.tsx:110-121 | A word just reviewed leaves today's list and returns on the day its interval ends. |
| Scheduler.CreatedWordIsDueToday | App.tsx:122-131 | A word just created is at level 0 and on today's list. |
| Scheduler.ReviewStore.constructor | App.tsx:67-70 | The store starts from the saved list. |
| Scheduler.ReviewStore.AddOrUpdate | App.tsx:102-135 | The new list is the upsert of the old one, and a duplicate-free list stays duplicate-free. |
| Session.XpGained | App.tsx:92 | A chat earns 20 XP and a game 30. |
| Session.Credited | App.tsx:95-98 | XP becomes the smaller of old XP plus the gain and the goal. Name and goal are kept. XP never drops while within the goal, and stays put at the goal. |
| Session.CreditedAll | App.tsx:95-98 | A run of sessions keeps the name and the goal. |
| Session.TotalGained | App.tsx:92 | A run of sessions earns at least 20 XP per session before the cap. |
| Session.CreditedAllIsCappedSum | App.tsx:95-98 | Capping after every session equals capping the uncapped total once. |
| Session.FiveSessionsReachGoal | App.tsx:72 | From the initial user (0 of 100 XP), any five sessions reach the goal exactly. |
| Session.App.constructor | App.tsx:71-80 | Launch starts from user Alex with 0 of 100 XP and shows the streak read from the stored record. |
| Session.App.SessionComplete | App.tsx:91-100 | The streak record advances as `updateStreak` does, and the shown streak is its count. XP is credited with the cap and never drops while within the goal. |

## Left out

- User interface, navigation, view switching, the remote language-model service, speech and the review screen's card shuffle. These are I/O and presentation, outside the core.
- Persistence. `localStorage` is an `Option` or a `seq` field, and JSON encoding is not modelled. A malformed record makes `JSON.parse` throw; the model holds only well-formed records.
- Time zones. One UTC clock is modelled. `setDate`/`getDate` and `toDateString` work in local time, while `toISOString` is UTC. So away from UTC, the code's "yesterday" and "today" can disagree with the UTC dates; that is not modelled.
- StreakHelper.Shown: `getStreak` parses the stored date with `new Date(...)` and compares `toDateString()` texts. The model compares the stored text with the canonical ISO texts of yesterday and today, which agrees for records the code itself wrote. Other hand-edited date forms are not modelled.
- The several `new Date()` and `Date.now()` calls in one handler are one `now`. The id of a created word is the parameter `newId`; that it is unique is not modelled.
- Scheduler.ReviewWord: the review date is a day number, not its text. Arbitrary text loaded from storage is not modelled.
- JsString.Lower: lower-cases ASCII letters only, not the full Unicode `toLowerCase`.
- JsString.StringLess: compares characters, not UTF-16 code units. The two agree on the digit, `-` and `+` texts compared here.
- Scheduler.Upsert: `level` is a `nat`. A negative level, which makes the table lookup undefined in the code, is not modelled.
- DateHelper.FutureDateString: `daysToAdd` is a `nat` and instants start at 1970. Negative offsets, earlier instants and the `Date` range limit (±8.64e15 ms) are not modelled.
- Calendar.IsoDayOrder: the order agreement holds for years up to 9999 only. `ExpandedYearSortsFirst` shows that it fails beyond.
- The upsert returns only the new list, so callers cannot tell update, create and no-op apart; the model does the same.
- The level is not monotone: the code writes the caller's level plus one, and the chat path passes 0, so re-observing a stored word resets it to level 1 (`ReobservedWordDropsToLevelOne`).
