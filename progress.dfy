/** Per-habit statistics and the daily and weekly completion summaries of
    lib/habit-utils.ts: `calculateHabitStats`, `calculateDailyProgress` and
    `calculateWeeklyProgress`. */
module Progress {
  import opened Wrappers
  import opened Calendar
  import opened HabitTypes
  import opened SeqUtil
  import opened DateKeys
  import opened Streaks

  const MsPerDay: int := 86_400_000

  /** Milliseconds since local midnight: the time-of-day part of the clock reading. */
  type TimeOfDay = ms: int | 0 <= ms < 86_400_000

  /** The entries of one habit. */
  function BelongsTo(habitId: HabitId): HabitCompletion -> bool {
    (c: HabitCompletion) => c.habitId == habitId
  }

  /** `parseISO(day) >= subDays(now, days)`: local midnight of `d` is no earlier than the
      clock reading `days` days ago, where the clock reads `timeOfDay` into `today`. */
  predicate OnOrAfterDaysAgo(d: Date, today: Date, timeOfDay: TimeOfDay, days: int) {
    DayNumber(d) * MsPerDay >= (DayNumber(today) - days) * MsPerDay + timeOfDay
  }

  /** The window in whole days: it starts `days` days back when the clock reads exactly
      midnight, and one day later at any other time. */
  lemma {:induction false} WindowInDays(d: Date, today: Date, timeOfDay: TimeOfDay, days: int)
    ensures OnOrAfterDaysAgo(d, today, timeOfDay, days) <==>
      DayNumber(d) >= DayNumber(today) - days + (if timeOfDay > 0 then 1 else 0)
  {
    var x := DayNumber(d) - (DayNumber(today) - days);
    assert DayNumber(d) * MsPerDay - (DayNumber(today) - days) * MsPerDay == x * MsPerDay;
    if x >= 1 {
      assert x * MsPerDay >= MsPerDay;
    } else if x <= -1 {
      assert x * MsPerDay <= -MsPerDay;
    }
  }

  /** Entries completed within the last 30 days, and entries within the last 12 weeks. */
  function RecentlyDone(today: Date, timeOfDay: TimeOfDay): HabitCompletion -> bool {
    (c: HabitCompletion) => OnOrAfterDaysAgo(c.date, today, timeOfDay, 30) && c.completed
  }

  function WithinTwelveWeeks(today: Date, timeOfDay: TimeOfDay): HabitCompletion -> bool {
    (c: HabitCompletion) => OnOrAfterDaysAgo(c.date, today, timeOfDay, 84)
  }

  /** The sum of the entries' counts (the source's `reduce`). */
  function TotalCount(s: seq<HabitCompletion>): int {
    if s == [] then 0 else s[0].count + TotalCount(s[1..])
  }

  /** `calculateHabitStats`, with the clock read once as `today` and `timeOfDay`. */
  function CalculateHabitStats(habit: Habit, completions: seq<HabitCompletion>,
                               today: Date, timeOfDay: TimeOfDay): (stats: HabitStats)
    ensures stats.habitId == habit.id
    ensures stats.streaks == StreakOf(completions, habit.id, today)
    ensures 0.0 <= stats.completionRate && 0.0 <= stats.averagePerWeek
  {
    var habitCompletions := Filter(completions, BelongsTo(habit.id));
    var totalCompletions := TotalCount(habitCompletions);
    var recentCompletions := Filter(habitCompletions, RecentlyDone(today, timeOfDay));
    var completionRate := (|recentCompletions| as real / 30.0) * 100.0;
    var weeklyCompletions := Filter(habitCompletions, WithinTwelveWeeks(today, timeOfDay));
    var averagePerWeek := |weeklyCompletions| as real / 12.0;
    HabitStats(habit.id, totalCompletions, completionRate, averagePerWeek,
               StreakOf(completions, habit.id, today))
  }

  /** Every entry counted by the 30-day rate is also counted by the 12-week average. */
  lemma {:induction false} RateWithinAverage(habit: Habit, completions: seq<HabitCompletion>, today: Date, timeOfDay: TimeOfDay)
    ensures var stats := CalculateHabitStats(habit, completions, today, timeOfDay);
      stats.completionRate * 30.0 / 100.0 <= stats.averagePerWeek * 12.0
  {
    var habitCompletions := Filter(completions, BelongsTo(habit.id));
    FilterMonotone(habitCompletions, RecentlyDone(today, timeOfDay), WithinTwelveWeeks(today, timeOfDay));
  }

  /** The first day number of a window reaching `days` days back: `days` days at
      midnight, one day less at any other time of day. */
  function WindowStart(today: Date, timeOfDay: TimeOfDay, days: int): int {
    DayNumber(today) - days + (if timeOfDay > 0 then 1 else 0)
  }

  /** The sum of the counts of the habit's entries across the whole ledger. */
  function CountsOf(completions: seq<HabitCompletion>, habitId: HabitId): int {
    if completions == [] then 0
    else (if completions[0].habitId == habitId then completions[0].count else 0)
         + CountsOf(completions[1..], habitId)
  }

  /** The habit's completed entries from day number `start` on, and all its entries from
      `start` on. */
  function DoneSince(habitId: HabitId, start: int): HabitCompletion -> bool {
    (c: HabitCompletion) => c.habitId == habitId && c.completed && DayNumber(c.date) >= start
  }

  function LoggedSince(habitId: HabitId, start: int): HabitCompletion -> bool {
    (c: HabitCompletion) => c.habitId == habitId && DayNumber(c.date) >= start
  }

  /** totalCompletions is the sum of the counts of the habit's entries, whatever their
      day or completed flag. */
  lemma {:induction false} TotalIsOwnCounts(habit: Habit, completions: seq<HabitCompletion>,
                                            today: Date, timeOfDay: TimeOfDay)
    ensures CalculateHabitStats(habit, completions, today, timeOfDay).totalCompletions
            == CountsOf(completions, habit.id)
  {
    if completions != [] {
      TotalIsOwnCounts(habit, completions[1..], today, timeOfDay);
      var c := completions[0];
      if c.habitId == habit.id {
        var own := Filter(completions, BelongsTo(habit.id));
        assert own == [c] + Filter(completions[1..], BelongsTo(habit.id));
        assert own[1..] == Filter(completions[1..], BelongsTo(habit.id));
      }
    }
  }

  /** completionRate is the share of 30 taken by the habit's completed entries dated in
      the window, as a percentage; the same count is the length of the list of their
      days, where a day with two completed entries appears twice. */
  lemma {:induction false} CompletionRateCounts(habit: Habit, completions: seq<HabitCompletion>,
                             today: Date, timeOfDay: TimeOfDay)
    ensures var rate := CalculateHabitStats(habit, completions, today, timeOfDay).completionRate;
      && rate == CountWhere(completions, DoneSince(habit.id, WindowStart(today, timeOfDay, 30))) as real / 30.0 * 100.0
      && rate == |RecentDays(completions, habit.id, today, timeOfDay)| as real / 30.0 * 100.0
  {
    var done := DoneSince(habit.id, WindowStart(today, timeOfDay, 30));
    forall c: HabitCompletion
      ensures done(c) <==> BelongsTo(habit.id)(c) && RecentlyDone(today, timeOfDay)(c)
    {
      WindowInDays(c.date, today, timeOfDay, 30);
    }
    FilterConjunction(completions, BelongsTo(habit.id), RecentlyDone(today, timeOfDay), done);
    RecentCountIsRecentDays(completions, habit.id, today, timeOfDay);
  }

  /** averagePerWeek is a twelfth of the number of the habit's entries dated in the
      84-day window, completed or not. */
  lemma {:induction false} AveragePerWeekCounts(habit: Habit, completions: seq<HabitCompletion>,
                             today: Date, timeOfDay: TimeOfDay)
    ensures CalculateHabitStats(habit, completions, today, timeOfDay).averagePerWeek
            == CountWhere(completions, LoggedSince(habit.id, WindowStart(today, timeOfDay, 84))) as real / 12.0
  {
    var logged := LoggedSince(habit.id, WindowStart(today, timeOfDay, 84));
    forall c: HabitCompletion
      ensures logged(c) <==> BelongsTo(habit.id)(c) && WithinTwelveWeeks(today, timeOfDay)(c)
    {
      WindowInDays(c.date, today, timeOfDay, 84);
    }
    FilterConjunction(completions, BelongsTo(habit.id), WithinTwelveWeeks(today, timeOfDay), logged);
  }

  /** Thirty-one completed entries of the habit inside the 30-day window give a rate
      above 100. */
  lemma {:induction false} ThirtyOneDoneExceedHundred(habit: Habit, ledger: seq<HabitCompletion>,
                                                      today: Date, timeOfDay: TimeOfDay)
    requires |ledger| == 31
    requires forall i :: 0 <= i < 31 ==> DoneSince(habit.id, WindowStart(today, timeOfDay, 30))(ledger[i])
    ensures CalculateHabitStats(habit, ledger, today, timeOfDay).completionRate > 100.0
  {
    var done := DoneSince(habit.id, WindowStart(today, timeOfDay, 30));
    CountAll(ledger, done);
    CompletionRateCounts(habit, ledger, today, timeOfDay);
    assert CountWhere(ledger, done) as real / 30.0 * 100.0 == 3100.0 / 30.0;
  }

  /** Without one completed entry per day there is no bound: 31 completed entries of the
      habit on today give a rate above 100, at any time of day. */
  lemma {:induction false} DuplicatesExceedHundred(habit: Habit, today: Date, timeOfDay: TimeOfDay)
    ensures var entry := HabitCompletion("c", habit.id, today, true, 1, 0, None);
      CalculateHabitStats(habit, seq(31, _ => entry), today, timeOfDay).completionRate > 100.0
  {
    var entry := HabitCompletion("c", habit.id, today, true, 1, 0, None);
    ThirtyOneDoneExceedHundred(habit, seq(31, _ => entry), today, timeOfDay);
  }

  /** Nor with entries after today: one completed entry on each of today and the thirty
      days after it, 31 distinct days, give a rate above 100, at any time of day. */
  lemma {:induction false} FutureDaysExceedHundred(habit: Habit, today: Date, timeOfDay: TimeOfDay)
    ensures var ledger := seq(31, i requires 0 <= i < 31 =>
        HabitCompletion("c", habit.id, AddDays(today, i), true, 1, 0, None));
      (forall i, j :: 0 <= i < j < 31 ==> ledger[i].date != ledger[j].date)
      && CalculateHabitStats(habit, ledger, today, timeOfDay).completionRate > 100.0
  {
    var ledger := seq(31, i requires 0 <= i < 31 =>
      HabitCompletion("c", habit.id, AddDays(today, i), true, 1, 0, None));
    assert forall i :: 0 <= i < 31 ==> DayNumber(ledger[i].date) == DayNumber(today) + i;
    ThirtyOneDoneExceedHundred(habit, ledger, today, timeOfDay);
  }

  /** The days of the habit's completed entries inside the 30-day window. */
  function RecentDays(completions: seq<HabitCompletion>, habitId: HabitId,
                      today: Date, timeOfDay: TimeOfDay): seq<Date> {
    Filter(CompletedDates(completions, habitId), d => OnOrAfterDaysAgo(d, today, timeOfDay, 30))
  }

  /** The 30-day count is the length of the list of the days of the habit's completed
      entries in the window, one day per entry, repeated days included. */
  lemma {:induction false} RecentCountIsRecentDays(completions: seq<HabitCompletion>, habitId: HabitId,
                                                    today: Date, timeOfDay: TimeOfDay)
    ensures |Filter(Filter(completions, BelongsTo(habitId)), RecentlyDone(today, timeOfDay))|
            == |RecentDays(completions, habitId, today, timeOfDay)|
  {
    if completions != [] {
      RecentCountIsRecentDays(completions[1..], habitId, today, timeOfDay);
      var c := completions[0];
      if c.habitId == habitId {
        assert Filter(completions, BelongsTo(habitId))
            == [c] + Filter(completions[1..], BelongsTo(habitId));
      }
    }
  }

  /** The integers from lo to hi. */
  function IntRange(lo: int, hi: int): (r: set<int>)
    ensures forall x :: x in r <==> lo <= x <= hi
    ensures lo <= hi + 1 ==> |r| == hi - lo + 1
    decreases hi - lo
  {
    if lo > hi then {} else IntRange(lo, hi - 1) + {hi}
  }

  /** Distinct days whose numbers all lie in a set are no more numerous than the set. */
  lemma {:induction false} DistinctDaysWithin(ds: seq<Date>, numbers: set<int>)
    requires NoDuplicates(ds)
    requires forall i :: 0 <= i < |ds| ==> DayNumber(ds[i]) in numbers
    ensures |ds| <= |numbers|
  {
    if ds != [] {
      var rest := ds[1..];
      forall i | 0 <= i < |rest| ensures DayNumber(rest[i]) in numbers - {DayNumber(ds[0])} {
        assert rest[i] == ds[i + 1];
        DayNumberInjective(rest[i], ds[0]);
      }
      DistinctDaysWithin(rest, numbers - {DayNumber(ds[0])});
    }
  }

  /** With distinct days and nothing logged after today, the 30-day rate is at most 100
      whenever the clock is past midnight; at exactly midnight the window spans 31 days. */
  lemma {:induction false} CompletionRateBound(habit: Habit, completions: seq<HabitCompletion>, today: Date, timeOfDay: TimeOfDay)
    requires DistinctCompletedDays(completions, habit.id)
    requires forall d :: CompletedOn(completions, habit.id, d) ==> DayNumber(d) <= DayNumber(today)
    ensures var rate := CalculateHabitStats(habit, completions, today, timeOfDay).completionRate;
      rate <= 3100.0 / 30.0 && (timeOfDay > 0 ==> rate <= 100.0)
  {
    var days := RecentDays(completions, habit.id, today, timeOfDay);
    RecentCountIsRecentDays(completions, habit.id, today, timeOfDay);
    CompletedDatesDistinct(completions, habit.id);
    FilterNoDuplicates(CompletedDates(completions, habit.id), d => OnOrAfterDaysAgo(d, today, timeOfDay, 30));
    var lo := DayNumber(today) - 30 + (if timeOfDay > 0 then 1 else 0);
    forall i | 0 <= i < |days| ensures DayNumber(days[i]) in IntRange(lo, DayNumber(today)) {
      assert days[i] in CompletedDates(completions, habit.id);
      WindowInDays(days[i], today, timeOfDay, 30);
    }
    DistinctDaysWithin(days, IntRange(lo, DayNumber(today)));
  }

  /** The statistics of a habit depend only on that habit's own entries. */
  lemma {:induction false} StatsSeeOnlyOwnEntries(habit: Habit, completions: seq<HabitCompletion>,
                                                   today: Date, timeOfDay: TimeOfDay)
    ensures CalculateHabitStats(habit, Filter(completions, BelongsTo(habit.id)), today, timeOfDay)
            == CalculateHabitStats(habit, completions, today, timeOfDay)
  {
    FilterIdempotent(completions, BelongsTo(habit.id));
    CompletedDatesOfOwnEntries(completions, habit.id);
  }

  lemma {:induction false} CompletedDatesOfOwnEntries(completions: seq<HabitCompletion>, habitId: HabitId)
    ensures CompletedDates(Filter(completions, BelongsTo(habitId)), habitId) == CompletedDates(completions, habitId)
  {
    if completions != [] {
      CompletedDatesOfOwnEntries(completions[1..], habitId);
      var c := completions[0];
      if c.habitId == habitId {
        var own := Filter(completions, BelongsTo(habitId));
        assert own == [c] + Filter(completions[1..], BelongsTo(habitId));
        assert own[1..] == Filter(completions[1..], BelongsTo(habitId));
      }
    }
  }

  /* ---------------------------------------------------------------------------------
     Daily and weekly progress.
     --------------------------------------------------------------------------------- */

  /** Entries dated `date` (the source compares the stored key with the day's key; keys
      and days correspond one to one, see DateKeys.FormatDateKeyInjective). */
  function OnDay(date: Date): HabitCompletion -> bool {
    (c: HabitCompletion) => c.date == date
  }

  /** The ledger entry for habit `habitId` on `date`. */
  function EntryFor(habitId: HabitId, date: Date): HabitCompletion -> bool {
    (c: HabitCompletion) => c.habitId == habitId && c.date == date
  }

  /** Array.prototype.find: the first element that satisfies p, if any. */
  function FindFirst(s: seq<HabitCompletion>, p: HabitCompletion -> bool): (r: Option<HabitCompletion>)
    ensures r.None? <==> forall i :: 0 <= i < |s| ==> !p(s[i])
    ensures r.Some? ==> exists k :: 0 <= k < |s| && s[k] == r.value && p(s[k])
                                    && forall i :: 0 <= i < k ==> !p(s[i])
  {
    if s == [] then None
    else if p(s[0]) then Some(s[0])
    else
      var r := FindFirst(s[1..], p);
      assert forall i :: 0 < i < |s| ==> s[i] == s[1..][i - 1];
      r
  }

  /** The element found is the one at the first index that satisfies p. */
  lemma {:induction false} FindFirstAt(s: seq<HabitCompletion>, p: HabitCompletion -> bool, k: int)
    requires 0 <= k < |s| && p(s[k])
    requires forall i :: 0 <= i < k ==> !p(s[i])
    ensures FindFirst(s, p) == Some(s[k])
  {
    if k > 0 {
      FindFirstAt(s[1..], p, k - 1);
    }
  }

  /** Finding the habit's entry among the day's entries is finding its entry for that day
      in the whole ledger. */
  lemma {:induction false} FindInDay(s: seq<HabitCompletion>, habitId: HabitId, date: Date)
    ensures FindFirst(Filter(s, OnDay(date)), BelongsTo(habitId)) == FindFirst(s, EntryFor(habitId, date))
  {
    if s != [] {
      FindInDay(s[1..], habitId, date);
      if s[0].date == date {
        assert Filter(s, OnDay(date)) == [s[0]] + Filter(s[1..], OnDay(date));
      }
    }
  }

  /** One habit's record for the day: its first entry's flag and count, or not done and 0. */
  function ProgressOf(habit: Habit, dayCompletions: seq<HabitCompletion>): (h: HabitProgress)
    ensures h.habitId == habit.id
  {
    match FindFirst(dayCompletions, BelongsTo(habit.id))
    case None => HabitProgress(habit.id, false, 0)
    case Some(c) => HabitProgress(habit.id, c.completed, c.count)
  }

  /** The records of all habits for the day, in the habits' order. */
  function DayRecords(habits: seq<Habit>, dayCompletions: seq<HabitCompletion>): (records: seq<HabitProgress>)
    ensures |records| == |habits|
    ensures forall i :: 0 <= i < |habits| ==> records[i] == ProgressOf(habits[i], dayCompletions)
  {
    seq(|habits|, i requires 0 <= i < |habits| => ProgressOf(habits[i], dayCompletions))
  }

  predicate Done(h: HabitProgress) {
    h.completed
  }

  /** A percentage of `total`; 0 when there is nothing to count. */
  function Rate(done: nat, total: nat): real {
    if total > 0 then (done as real / total as real) * 100.0 else 0.0
  }

  /** A rate lies in [0, 100]; it is 100 exactly when everything of a non-empty total is
      done, and 0 exactly when nothing is done or there is nothing to do. */
  lemma {:induction false} RateBounds(done: nat, total: nat)
    requires done <= total
    ensures 0.0 <= Rate(done, total) <= 100.0
    ensures Rate(done, total) == 100.0 <==> total > 0 && done == total
    ensures Rate(done, total) == 0.0 <==> done == 0 || total == 0
  {
    if total > 0 {
      var q := done as real / total as real;
      assert q * total as real == done as real;
      assert q <= 1.0;
      if q == 1.0 {
        assert done as real == total as real;
      }
    }
  }

  /** `calculateDailyProgress`: one record per habit, in the habits' order, and the share
      of habits done that day. */
  function CalculateDailyProgress(date: Date, habits: seq<Habit>, completions: seq<HabitCompletion>)
    : (p: DailyProgress)
    requires HasKey(date)
    ensures ParseDateKey(p.date) == Some(date)
    ensures |p.habits| == |habits|
    ensures forall i :: 0 <= i < |habits| ==> p.habits[i].habitId == habits[i].id
    ensures p.completionRate == Rate(CountWhere(p.habits, Done), |habits|)
    ensures 0.0 <= p.completionRate <= 100.0
    ensures |habits| == 0 ==> p.completionRate == 0.0
  {
    var dateKey := FormatDateKey(date);
    ParseFormatRoundTrip(date);
    var dayCompletions := Filter(completions, OnDay(date));
    var habitProgress := DayRecords(habits, dayCompletions);
    var completedHabits := CountWhere(habitProgress, Done);
    RateBounds(completedHabits, |habits|);
    DailyProgress(dateKey, habitProgress, Rate(completedHabits, |habits|))
  }

  /** A habit with no entry that day is not done and has count 0; otherwise its record
      carries the flag and count of its first entry for that day in the ledger. */
  lemma {:induction false} DailyRecordOfHabit(date: Date, habits: seq<Habit>, completions: seq<HabitCompletion>, i: int)
    requires HasKey(date) && 0 <= i < |habits|
    ensures var h := CalculateDailyProgress(date, habits, completions).habits[i];
      ((forall k :: 0 <= k < |completions| ==> !EntryFor(habits[i].id, date)(completions[k]))
        ==> !h.completed && h.count == 0)
      && ((exists k :: 0 <= k < |completions| && EntryFor(habits[i].id, date)(completions[k]))
        ==> exists k :: 0 <= k < |completions| && EntryFor(habits[i].id, date)(completions[k])
                        && h.completed == completions[k].completed && h.count == completions[k].count
                        && forall j :: 0 <= j < k ==> !EntryFor(habits[i].id, date)(completions[j]))
  {
    FindInDay(completions, habits[i].id, date);
  }

  /** The daily rate is 100 exactly when there are habits and every one is done, and 0
      exactly when none is done. */
  lemma {:induction false} DailyRateMeaning(date: Date, habits: seq<Habit>, completions: seq<HabitCompletion>)
    requires HasKey(date)
    ensures var p := CalculateDailyProgress(date, habits, completions);
      (p.completionRate == 100.0 <==> |habits| > 0 && forall i :: 0 <= i < |habits| ==> p.habits[i].completed)
      && (p.completionRate == 0.0 <==> forall i :: 0 <= i < |habits| ==> !p.habits[i].completed)
  {
    var p := CalculateDailyProgress(date, habits, completions);
    CountWhereExtremes(p.habits, Done);
    RateBounds(CountWhere(p.habits, Done), |habits|);
  }

  /** The number of habits done on each day, summed over the days (the source's `reduce`). */
  function SumCompleted(days: seq<DailyProgress>): nat {
    if days == [] then 0 else CountWhere(days[0].habits, Done) + SumCompleted(days[1..])
  }

  /** The daily rates, summed over the days. */
  function SumRates(days: seq<DailyProgress>): real {
    if days == [] then 0.0 else days[0].completionRate + SumRates(days[1..])
  }

  /** Every day of the week has a `yyyy-MM-dd` key. */
  predicate WeekHasKeys(date: Date) {
    forall i :: 0 <= i < 7 ==> HasKey(GetWeekDates(date)[i])
  }

  /** The daily progress of each of the seven days of the week containing `date`. */
  function WeekDays(date: Date, habits: seq<Habit>, completions: seq<HabitCompletion>): (days: seq<DailyProgress>)
    requires WeekHasKeys(date)
    ensures |days| == 7
  {
    var weekDates := GetWeekDates(date);
    seq(7, i requires 0 <= i < 7 => CalculateDailyProgress(weekDates[i], habits, completions))
  }

  /** Each day of the week is keyed by its own date and holds one record per habit. */
  lemma {:induction false} WeekDaysFacts(date: Date, habits: seq<Habit>, completions: seq<HabitCompletion>)
    requires WeekHasKeys(date)
    ensures forall i :: 0 <= i < 7 ==>
      ParseDateKey(WeekDays(date, habits, completions)[i].date) == Some(GetWeekDates(date)[i])
    ensures forall i :: 0 <= i < 7 ==> |WeekDays(date, habits, completions)[i].habits| == |habits|
    ensures SumCompleted(WeekDays(date, habits, completions)) <= 7 * |habits|
  {
    var days := WeekDays(date, habits, completions);
    forall i | 0 <= i < 7
      ensures ParseDateKey(days[i].date) == Some(GetWeekDates(date)[i])
      ensures |days[i].habits| == |habits|
    {
      assert days[i] == CalculateDailyProgress(GetWeekDates(date)[i], habits, completions);
    }
    WeekCompletedBound(days, |habits|);
  }

  /** `calculateWeeklyProgress`: the daily progress of each day of the week containing
      `weekStartDate`, the habits done summed over the week, and their share of seven
      times the number of habits. */
  function CalculateWeeklyProgress(weekStartDate: Date, habits: seq<Habit>, completions: seq<HabitCompletion>)
    : (w: WeeklyProgress)
    requires WeekHasKeys(weekStartDate)
    ensures |w.days| == 7 && w.totalHabits == |habits|
    ensures forall i :: 0 <= i < 7 ==>
      w.days[i] == CalculateDailyProgress(GetWeekDates(weekStartDate)[i], habits, completions)
    ensures forall i :: 0 <= i < 7 ==> ParseDateKey(w.days[i].date) == Some(GetWeekDates(weekStartDate)[i])
    ensures ParseDateKey(w.weekStartDate) == Some(weekStartDate)
    ensures w.completedHabits == SumCompleted(w.days) <= 7 * w.totalHabits
    ensures w.completionRate == Rate(w.completedHabits, w.totalHabits * 7)
    ensures 0.0 <= w.completionRate <= 100.0
    ensures |habits| == 0 ==> w.completionRate == 0.0
  {
    assert HasKey(weekStartDate) by {
      var k :| 0 <= k < 7 && GetWeekDates(weekStartDate)[k] == weekStartDate;
    }
    ParseFormatRoundTrip(weekStartDate);
    var days := WeekDays(weekStartDate, habits, completions);
    WeekDaysFacts(weekStartDate, habits, completions);
    var totalCompletions := SumCompleted(days);
    var totalPossible := |habits| * 7;
    RateBounds(totalCompletions, totalPossible);
    WeeklyProgress(FormatDateKey(weekStartDate), days, |habits|, totalCompletions,
                   Rate(totalCompletions, totalPossible))
  }

  /** Summed over days with n habits each, at most n per day are done. */
  lemma {:induction false} WeekCompletedBound(days: seq<DailyProgress>, n: nat)
    requires forall i :: 0 <= i < |days| ==> |days[i].habits| == n
    ensures SumCompleted(days) <= |days| * n
  {
    if days != [] {
      var rest := days[1..];
      WeekCompletedBound(rest, n);
      assert SumCompleted(days) == CountWhere(days[0].habits, Done) + SumCompleted(rest);
      assert |days[0].habits| == n;
      MultiplySuccessor(|rest|, n);
    }
  }

  lemma {:induction false} MultiplySuccessor(k: nat, n: nat)
    ensures (k + 1) * n == n + k * n
  {
  }

  /** The day's rate is its share of done habits among n. */
  predicate RatedOver(day: DailyProgress, n: nat) {
    day.completionRate == Rate(CountWhere(day.habits, Done), n)
  }

  /** Over days each rated over n habits, the sum of the daily rates is the rate of the
      summed completions over n. */
  lemma {:induction false} SumOfDailyRates(days: seq<DailyProgress>, n: nat)
    requires forall i :: 0 <= i < |days| ==> RatedOver(days[i], n)
    ensures SumRates(days) == Rate(SumCompleted(days), n)
  {
    if days != [] {
      var rest := days[1..];
      assert forall i :: 0 <= i < |rest| ==> RatedOver(rest[i], n) by {
        forall i | 0 <= i < |rest| ensures RatedOver(rest[i], n) {
          assert rest[i] == days[i + 1];
        }
      }
      SumOfDailyRates(rest, n);
      var c := CountWhere(days[0].habits, Done);
      var r := SumCompleted(rest);
      assert RatedOver(days[0], n);
      assert SumRates(days) == Rate(c, n) + Rate(r, n);
      RateAdditive(c, r, SumCompleted(days), n);
    } else {
      RateAdditive(0, 0, 0, n);
    }
  }

  /** Rates over the same total add up. */
  lemma {:induction false} RateAdditive(a: nat, b: nat, sum: nat, n: nat)
    requires sum == a + b
    ensures Rate(a, n) + Rate(b, n) == Rate(sum, n)
  {
    if n > 0 {
      var x := a as real / n as real;
      var y := b as real / n as real;
      assert (x + y) * n as real == sum as real;
    }
  }

  /** The weekly rate is the mean of the seven daily rates. */
  lemma {:induction false} WeeklyRateIsMeanOfDaily(weekStartDate: Date, habits: seq<Habit>, completions: seq<HabitCompletion>)
    requires WeekHasKeys(weekStartDate)
    ensures var w := CalculateWeeklyProgress(weekStartDate, habits, completions);
      w.completionRate == SumRates(w.days) / 7.0
  {
    var w := CalculateWeeklyProgress(weekStartDate, habits, completions);
    var n := |habits|;
    forall i | 0 <= i < |w.days| ensures RatedOver(w.days[i], n) {
      assert w.days[i] == CalculateDailyProgress(GetWeekDates(weekStartDate)[i], habits, completions);
    }
    SumOfDailyRates(w.days, n);
    SevenfoldShare(w.completedHabits, n);
  }

  /** A share of seven times the total is a seventh of the share of the total. */
  lemma {:induction false} SevenfoldShare(t: nat, n: nat)
    ensures Rate(t, n * 7) == Rate(t, n) / 7.0
  {
    if n > 0 {
      var q := t as real / n as real;
      assert (n * 7) as real == n as real * 7.0;
      assert (q / 7.0) * (n as real * 7.0) == t as real;
    }
  }

  /** The week's reported start is the key of the day given, which is the key of the
      week's first day (its Monday) only when the given day is a Monday. */
  lemma {:induction false} WeekStartKeyIsInputKey(weekStartDate: Date, habits: seq<Habit>, completions: seq<HabitCompletion>)
    requires WeekHasKeys(weekStartDate)
    ensures var w := CalculateWeeklyProgress(weekStartDate, habits, completions);
      w.weekStartDate == w.days[0].date <==> Weekday(weekStartDate) == 0
  {
    var w := CalculateWeeklyProgress(weekStartDate, habits, completions);
    var monday := GetWeekDates(weekStartDate)[0];
    assert ParseDateKey(w.days[0].date) == Some(monday);
    FormatParseRoundTrip(w.days[0].date, monday);
    FormatDateKeyInjective(weekStartDate, monday);
    DayNumberInjective(weekStartDate, monday);
    MondayOfWeek(DayNumber(monday), DayNumber(weekStartDate));
  }

  /** Within the seven days from a multiple of seven, only the first is a multiple of seven. */
  lemma {:induction false} MondayOfWeek(m: int, n: int)
    requires m % 7 == 0 && m <= n < m + 7
    ensures n % 7 == 0 <==> n == m
  {
    assert n == 7 * (m / 7) + (n - m);
  }

}
