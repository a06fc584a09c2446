# Habit tracker core in Dafny

This project models the core of a habit tracker web app. Users define habits, mark them
done day by day, and see streaks, statistics and daily/weekly progress. Three parts of
the app are modelled:

- **Habit utilities** (`src/lib/habit-utils.ts`):
  - the `yyyy-MM-dd` date keys;
  - the Monday-to-Sunday week expansion;
  - the streak calculation, with its current-streak walk and longest-streak scan as
    imperative methods;
  - the per-habit statistics;
  - the daily and weekly progress summaries.
- **Habit context** (`src/contexts/HabitContext.tsx`):
  - the reducer over the habit list and the completion ledger, with all eight actions;
  - the provider. It is a class whose fields the dispatched actions update in place. Its
    wrappers are `addHabit`, `updateHabit`, `deleteHabit`, `toggleHabit`,
    `updateHabitCount` and `initializeDefaultHabits`.
- **Types** (`src/types/habits.ts`): the record shapes, the six default habit templates
  and the colour palette.

Modules:

- `Calendar` is the proleptic Gregorian calendar with a day number (0001-01-01 is day 0,
  a Monday). It stands in for the date library.
- `DateKeys` holds the key format and the week expansion.
- `Streaks` holds `calculateStreak`.
- `Progress` holds statistics and progress.
- `HabitContext` holds the reducer and the provider.
- `HabitTypes` holds the types and constants.
- `SeqUtil` and `Wrappers` are generic helpers.

A ledger entry's day is kept as a calendar `Date`. `DateKeys.FormatDateKey` is proved to
be a bijection onto the strings `DateKeys.ParseDateKey` accepts. Comparing two keys is
therefore the same as comparing the two days.

Where the code does something its description does not suggest, the model follows the
code. Each point below is a proved property or a proved witness:

- The current streak counts back from today only. When today has no completed entry, it
  is 0, even if yesterday ended a long run. The walk also stops at a second completed
  entry for a day it has already counted: entries for today, today and yesterday give a
  current streak of 1.
- A completed entry dated in the future makes the current streak 0. Future entries also
  count towards the statistics.
- The 30-day completion rate counts completed entries dated from the window's start on,
  with no upper end. The window is 31 days long when the clock reads exactly midnight.
  With one completed entry per day and none after today, the rate is at most 100, or
  3100/30 at midnight. Without those conditions there is no bound: duplicate entries or
  entries after today can push the rate above 100 at any time of day.
- Two completed entries on the same day split a run in the longest-streak scan. The
  longest streak is still never below the current streak, on any ledger: the scan's
  oldest-first list is the walk's newest-first list reversed.
- `UPDATE_HABIT_COUNT` stores the count as given: there is no clamping to 0 or to the
  target.
- `ADD_COMPLETION` appends without checking for an existing entry for that habit and
  day, so it can break "one entry per habit and day". `LOAD_DATA` installs the stored
  ledger as it is, so it keeps the property only when the stored ledger has it. Every
  other action keeps it.
- `getWeekDates` always normalises to the Monday of the week.
- `calculateWeeklyProgress` reports the input day's own key as `weekStartDate`. That is
  the Monday's key only when the input is a Monday.
- Toggle and count updates replace every entry carrying the id of the first matching
  entry.

## Model

| member | source | states |
|---|---|---|
| DateKeys.FormatDateKey | src/lib/habit-utils.ts:6-8 | the key is 10 characters: four digits, '-', two digits, '-', two digits |
| DateKeys.ParseFormatRoundTrip | src/lib/habit-utils.ts:6-8 | every day with a four-digit year reads back from its key |
| DateKeys.FormatParseRoundTrip | src/lib/habit-utils.ts:6-8 | any string that reads as a day is exactly that day's key |
| DateKeys.FormatDateKeyInjective | src/lib/habit-utils.ts:6-8 | two days share a key if and only if they are the same day |
| DateKeys.TodayKey | src/lib/habit-utils.ts:10-12 | today's key is 10 characters and reads back as today |
| DateKeys.StartOfWeek | src/lib/habit-utils.ts:15 | the week start is a Monday at most six days before the date |
| DateKeys.GetWeekDates | src/lib/habit-utils.ts:14-18 | seven consecutive days, Monday to Sunday, starting at the date's Monday and containing the date |
| DateKeys.WeekOfAnyMember | src/lib/habit-utils.ts:14-18 | every day of a week expands to that same week |
| Calendar.PrevDay | src/lib/habit-utils.ts:50 | subtracting one day gives the day numbered one less |
| Calendar.NextPrevInverse | src/lib/habit-utils.ts:50 | stepping a day back and forward are inverse |
| Calendar.DayNumberInjective | src/lib/habit-utils.ts:68-72 | two days have the same day number if and only if they are equal, so day differences identify days |
| Streaks.CompletedDates | src/lib/habit-utils.ts:22-23 | the filtered days are exactly the days with a completed entry of the habit |
| Streaks.CompletedDatesCount | src/lib/habit-utils.ts:22-23 | the filter yields one day per completed entry of the habit |
| Streaks.SortBy | src/lib/habit-utils.ts:24 | the result is sorted by the key and is a permutation of the input |
| Streaks.ListedIffCompleted | src/lib/habit-utils.ts:22-24 | a day is in either sorted list if and only if the habit has a completed entry on it |
| Streaks.NoCompletionsNoStreak | src/lib/habit-utils.ts:26-32 | the streak is (0, 0, no last day) if and only if the habit has no completed entry |
| Streaks.WalkCurrentStreak | src/lib/habit-utils.ts:34-54 | the walk from today returns the length of the newest-first prefix that matches today, yesterday, and so on |
| Streaks.CurrentRunIsMatchingPrefix | src/lib/habit-utils.ts:40-54 | the first n days are today minus 0..n-1, and the next day breaks the sequence |
| Streaks.CurrentStreakNeedsToday | src/lib/habit-utils.ts:40-54 | a positive current streak means the latest completed day is today; a completed future day makes it 0 |
| Streaks.CurrentStreakDaysCompleted | src/lib/habit-utils.ts:40-54 | every day of the current streak, counted back from today, has a completed entry |
| Streaks.CurrentRunIsMaximal | src/lib/habit-utils.ts:40-54 | on a distinct, newest-first list with no future day, the day just before the run is absent |
| Streaks.CurrentStreakIsMaximal | src/lib/habit-utils.ts:34-54 | with distinct days and no future day, the day just before the current streak has no completed entry |
| Streaks.ScanLongestStreak | src/lib/habit-utils.ts:56-82 | the scan returns the longest run of consecutive days ending at any position of the oldest-first list |
| Streaks.RunEndingAt | src/lib/habit-utils.ts:65-78 | the run ending at position i is between 1 and i+1 |
| Streaks.RunIsConsecutiveDays | src/lib/habit-utils.ts:65-78 | the run ending at i consists of consecutive days ending at day i |
| Streaks.LongestRunInIsMaximum | src/lib/habit-utils.ts:75-82 | the running maximum bounds every run and is attained by one |
| Streaks.RunCoversBlock | src/lib/habit-utils.ts:65-78 | on strictly ascending days, if all k days ending at position q are present, the run at q is at least k |
| Streaks.CalculateStreak | src/lib/habit-utils.ts:21-90 | the method's result equals the streak specification for the ledger, habit and today |
| Streaks.LastCompletedIsLatest | src/lib/habit-utils.ts:88 | the last completed day has a completed entry and no completed day is later |
| Streaks.CompletedDatesDistinct | src/lib/habit-utils.ts:22-23 | with one completed entry per day, the filtered days are distinct |
| Streaks.SortedDaysDistinct | src/lib/habit-utils.ts:24 | sorting keeps distinct days distinct in both orders |
| Streaks.LongestStreakIsAttained | src/lib/habit-utils.ts:56-82 | some completed day ends a block of longestStreak consecutive completed days |
| Streaks.LongestStreakIsMaximal | src/lib/habit-utils.ts:56-82 | with distinct days, every block of k consecutive completed days has k at most longestStreak |
| Streaks.LongestStreakBounds | src/lib/habit-utils.ts:56-82 | a habit with any completed entry has a longest streak from 1 to its number of completed entries |
| Streaks.RepeatedDayStopsWalk | src/lib/habit-utils.ts:21-54 | completed entries for today, today again and yesterday give a current streak of 1 |
| Streaks.Reversed | src/lib/habit-utils.ts:22-59 | the reversal has the same length and elements, mirrored |
| Streaks.SortedByDayUnique | src/lib/habit-utils.ts:57-59 | two oldest-first lists with the same days, duplicates included, are equal |
| Streaks.OldestFirstIsReversed | src/lib/habit-utils.ts:22-59 | the oldest-first re-sort is the newest-first list reversed |
| Streaks.RunOfReversedPrefix | src/lib/habit-utils.ts:34-78 | a newest-first prefix of consecutive days, one day apart, ends the oldest-first order with a run at least that long |
| Streaks.LongestAtLeastCurrent | src/lib/habit-utils.ts:34-82 | on every ledger, the current streak never exceeds the longest |
| Progress.WindowInDays | src/lib/habit-utils.ts:101-103 | "on or after N days ago" means the day is at most N days back at midnight and at most N-1 days back otherwise |
| Progress.CalculateHabitStats | src/lib/habit-utils.ts:93-123 | the stats carry the habit's id and its streak, with a non-negative rate and average |
| Progress.TotalIsOwnCounts | src/lib/habit-utils.ts:97-98 | totalCompletions is the sum of the counts of all the habit's entries |
| Progress.CompletionRateCounts | src/lib/habit-utils.ts:100-105 | completionRate is 100/30 times the number of the habit's completed entries on or after the window's first day, which is also the length of the list of their days, one per entry, so a day with two completed entries counts twice |
| Progress.AveragePerWeekCounts | src/lib/habit-utils.ts:107-112 | averagePerWeek is a twelfth of the number of the habit's entries, completed or not, on or after the 84-day window's first day |
| Progress.RateWithinAverage | src/lib/habit-utils.ts:100-112 | the 30-day count (rate × 30 / 100) never exceeds the 12-week count (average × 12) |
| Progress.RecentCountIsRecentDays | src/lib/habit-utils.ts:100-105 | the 30-day count equals the length of the list of the days of the habit's completed entries in the window, one per entry, repeated days included |
| Progress.IntRange | src/lib/habit-utils.ts:101-103 | the window's day numbers form a range of the expected size |
| Progress.DistinctDaysWithin | src/lib/habit-utils.ts:100-105 | distinct days with day numbers in a set number no more than the set |
| Progress.DuplicatesExceedHundred | src/lib/habit-utils.ts:100-105 | 31 completed entries on today give a rate above 100 at any time of day |
| Progress.FutureDaysExceedHundred | src/lib/habit-utils.ts:100-105 | completed entries on 31 distinct days from today on give a rate above 100 at any time of day |
| Progress.CompletionRateBound | src/lib/habit-utils.ts:100-105 | with distinct days and no future day, the rate is at most 3100/30, and at most 100 unless the clock reads midnight |
| Progress.StatsSeeOnlyOwnEntries | src/lib/habit-utils.ts:93-123 | stats over the habit's own entries equal stats over the whole ledger |
| Progress.CompletedDatesOfOwnEntries | src/lib/habit-utils.ts:97 | filtering to the habit first does not change its completed days |
| Progress.FindFirst | src/lib/habit-utils.ts:135 | no result if and only if nothing matches; otherwise the first matching element |
| Progress.FindFirstAt | src/lib/habit-utils.ts:135 | the search returns the first matching element |
| Progress.FindInDay | src/lib/habit-utils.ts:132-135 | searching the day's entries for the habit finds the ledger's first entry for that habit and day |
| Progress.RateBounds | src/lib/habit-utils.ts:144 | the rate is in [0, 100]; 100 if and only if everything is done and the total is non-empty; 0 if and only if nothing is done or there is no total |
| Progress.CalculateDailyProgress | src/lib/habit-utils.ts:126-151 | the date field reads back as the day; one record per habit in order; the rate is the share of records marked done among the habits, in [0, 100], and 0 without habits |
| Progress.DailyRecordOfHabit | src/lib/habit-utils.ts:134-141 | a habit without an entry that day is (not completed, 0); otherwise its record copies the first entry for that day |
| Progress.DailyRateMeaning | src/lib/habit-utils.ts:143-144 | the rate is 100 if and only if there are habits and all are done; 0 if and only if none is done |
| Progress.CalculateWeeklyProgress | src/lib/habit-utils.ts:154-177 | each of the seven days is the daily progress of that day of the week, Monday to Sunday; weekStartDate reads back as the input day; the completed count is the sum over the days and at most 7×habits; the rate is its share of 7×habits, in [0, 100] |
| Progress.WeekCompletedBound | src/lib/habit-utils.ts:164-167 | the summed completed count is at most days × habits |
| Progress.SumOfDailyRates | src/lib/habit-utils.ts:160-168 | the sum of the daily rates is the summed completed count as a percentage of the habits |
| Progress.RateAdditive | src/lib/habit-utils.ts:164-168 | rates over the same total add up, so summed daily shares equal the share of the summed count |
| Progress.SevenfoldShare | src/lib/habit-utils.ts:167-168 | the share of seven times the habits is a seventh of the share of the habits |
| Progress.WeeklyRateIsMeanOfDaily | src/lib/habit-utils.ts:160-168 | the weekly rate is the mean of the seven daily rates |
| Progress.WeekStartKeyIsInputKey | src/lib/habit-utils.ts:171 | weekStartDate is the first day's key if and only if the input is a Monday |
| HabitContext.HabitReducer | src/contexts/HabitContext.tsx:37-168 | ADD_HABIT, UPDATE_HABIT and SET_LOADING leave the ledger alone (DELETE_HABIT removes the habit's entries); the ledger actions and SET_LOADING leave the habit list alone; only LOAD_DATA and SET_LOADING change the loading flag |
| HabitContext.LoadReplacesCollections | src/contexts/HabitContext.tsx:39-45 | loading installs both collections and ends loading |
| HabitContext.AddAppendsHabit | src/contexts/HabitContext.tsx:47-53 | adding appends the habit at the end and keeps the rest |
| HabitContext.UpdateReplacesById | src/contexts/HabitContext.tsx:55-64 | each habit with the id is replaced and the others are kept in place; an unknown id changes nothing |
| HabitContext.DeleteCascades | src/contexts/HabitContext.tsx:65-75 | exactly the habit and its entries go; the others survive in order |
| HabitContext.DeleteIdempotent | src/contexts/HabitContext.tsx:65-75 | deleting twice equals deleting once |
| HabitContext.ToggleFlipsExistingEntry | src/contexts/HabitContext.tsx:76-89 | the day's first entry flips its flag and is stamped; everything else is unchanged |
| HabitContext.ToggleAppendsWhenAbsent | src/contexts/HabitContext.tsx:90-101 | without an entry for the day, one completed entry with count 1 and the generated id is appended |
| HabitContext.ToggleTwiceRestores | src/contexts/HabitContext.tsx:76-89 | toggling an existing entry twice restores the ledger apart from timestamps |
| HabitContext.ToggleTwiceWhenAbsent | src/contexts/HabitContext.tsx:76-101 | toggling a new day twice leaves one uncompleted entry with count 1 |
| HabitContext.SetCountOnExistingEntry | src/contexts/HabitContext.tsx:117-128 | the day's first entry takes the count unclamped; it is completed if and only if the count is positive; the rest is unchanged |
| HabitContext.SetCountWhenAbsent | src/contexts/HabitContext.tsx:129-142 | without an entry, a positive count appends a completed entry with that count and any other count changes nothing |
| HabitContext.SetCountIdempotent | src/contexts/HabitContext.tsx:110-149 | setting the same count twice equals setting it once, apart from timestamps |
| HabitContext.SetCountTwiceOnExisting | src/contexts/HabitContext.tsx:117-128 | repeating a count on an existing entry changes only timestamps |
| HabitContext.SetLoadingOnlyFlag | src/contexts/HabitContext.tsx:159-163 | setting the flag changes nothing else |
| HabitContext.UniqueKeysGiveDistinctDays | src/contexts/HabitContext.tsx:77-79 | one entry per habit and day gives each habit distinct completed days |
| HabitContext.MapKeepsUniqueKeys | src/contexts/HabitContext.tsx:85-89 | rewriting entries without changing habit or day keeps one entry per habit and day |
| HabitContext.FilterKeepsUniqueKeys | src/contexts/HabitContext.tsx:67 | filtering keeps one entry per habit and day |
| HabitContext.ReducerKeepsUniqueKeys | src/contexts/HabitContext.tsx:37-168 | every action except ADD_COMPLETION keeps one entry per habit and day, LOAD_DATA when the loaded ledger has it |
| HabitContext.AddCompletionAppends | src/contexts/HabitContext.tsx:151-157 | ADD_COMPLETION appends exactly the given entry and keeps the habits and the flag |
| HabitContext.AddCompletionKeepsUniqueKeysIff | src/contexts/HabitContext.tsx:151-157 | on a ledger with one entry per habit and day, the append keeps that if and only if the ledger has no entry for the new entry's habit and day |
| HabitContext.AddCompletionCanDuplicate | src/contexts/HabitContext.tsx:151-157 | a concrete ledger where ADD_COMPLETION creates a second entry for the same habit and day |
| HabitContext.ReducerKeepsUniqueIds | src/contexts/HabitContext.tsx:37-168 | with a fresh generated id, every action except ADD_COMPLETION keeps entry ids unique |
| HabitContext.UniqueIdsFilter | src/contexts/HabitContext.tsx:67 | filtering keeps entry ids unique |
| HabitContext.NewHabit | src/contexts/HabitContext.tsx:191-196 | the new habit carries the caller's data, the generated id, and equal creation and update times |
| HabitContext.HabitProvider.constructor | src/contexts/HabitContext.tsx:31-35 | the provider starts with no habits, no entries and loading on |
| HabitContext.HabitProvider.Dispatch | src/contexts/HabitContext.tsx:181 | the new state is the reducer applied to the old state |
| HabitContext.HabitProvider.Load | src/contexts/HabitContext.tsx:184-188 | the stored collections are installed and loading ends |
| HabitContext.HabitProvider.AddHabit | src/contexts/HabitContext.tsx:190-198 | the habit built from the data is appended; entries and flag are unchanged |
| HabitContext.HabitProvider.UpdateHabit | src/contexts/HabitContext.tsx:200-206 | the habit, stamped with the current time, replaces the habits with its id |
| HabitContext.HabitProvider.DeleteHabit | src/contexts/HabitContext.tsx:208-210 | the habit and its entries are filtered out |
| HabitContext.HabitProvider.ToggleHabit | src/contexts/HabitContext.tsx:212-214 | toggles the given day, or today when no day is given |
| HabitContext.HabitProvider.UpdateHabitCount | src/contexts/HabitContext.tsx:216-218 | sets the count on the given day, or today when no day is given |
| HabitContext.HabitProvider.InitializeDefaultHabits | src/contexts/HabitContext.tsx:220-224 | the six templates are appended in order, each with its own generated id |
| HabitTypes.DefaultHabits | src/types/habits.ts:59-114 | six active daily templates with distinct names and targets of at least 1; only "Drink Water" (target 8) has a target above 1 |
| HabitTypes.HabitColors | src/types/habits.ts:117-128 | ten distinct `#RRGGBB` colours |
| SeqUtil.Filter | src/contexts/HabitContext.tsx:66-67 | the kept elements are exactly those satisfying the predicate, with their multiplicities, in order |
| SeqUtil.FilterIdempotent | src/contexts/HabitContext.tsx:66-67 | filtering twice equals filtering once |
| SeqUtil.FilterKeepsAll | src/contexts/HabitContext.tsx:66-67 | filtering changes nothing if and only if every element passes |
| SeqUtil.FilterConjunction | src/lib/habit-utils.ts:97-105 | filtering by one predicate and then another is filtering by both |
| SeqUtil.FilterPairwise | src/contexts/HabitContext.tsx:67 | filtering keeps any relation that holds between every earlier and later element |
| SeqUtil.CountWhereExtremes | src/lib/habit-utils.ts:143 | the count is the length if and only if all pass, and 0 if and only if none pass |

## Left out

- Local storage (`saveHabitsToStorage`, `loadHabitsFromStorage` and the completions
  variants): the reducer's writes are side effects with no effect on its result. The
  loaded values are parameters of `HabitProvider.Load`.
- `generateId` and `new Date()`: the generated id and the clock are parameters. In the
  reducer they come as `Env`; `InitializeDefaultHabits` takes a list of ids.
- One clock reading: the source reads the clock separately for `createdAt`/`updatedAt`
  and for the two windows in the stats. The model uses one reading per call.
- The React wiring (`createContext`, `useReducer`, `useEffect`, `useHabits`, the
  rendered provider) and all UI pages; the model's `HabitProvider` is the reducer state
  with its dispatch.
- `getContrastColor`, `HABIT_ICONS` and the other helpers in `src/lib/habit-utils.ts` and
  `src/types/habits.ts` outside the streak, stats and progress functions.
- Time zones and daylight saving: `parseISO` and `Math.round` over millisecond
  differences are modelled as exact differences of calendar days.
- Years outside 1..9999: keys are four-digit, so `FormatDateKey`,
  `CalculateDailyProgress` and `CalculateWeeklyProgress` require days with such keys.
- Counts as floating-point numbers: `count` is an integer. Rates are reals, without
  floating-point rounding.
- Progress.CalculateHabitStats: its ensures does not bound the rate by 100, because the
  source does not. The bound is `CompletionRateBound`, under distinct days and no future
  days.
- HabitContext.ReducerKeepsUniqueKeys: excludes ADD_COMPLETION, which does not keep the
  property (`AddCompletionCanDuplicate`; `AddCompletionKeepsUniqueKeysIff` says exactly
  when it does). For LOAD_DATA it requires the loaded ledger to have the property, since
  the action installs whatever was stored.
- Stored entries whose date strings are not valid keys: a ledger entry holds a calendar
  day. A malformed stored string, which the source would parse as an invalid date, is
  not representable.
