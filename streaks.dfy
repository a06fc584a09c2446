/** `calculateStreak` of lib/habit-utils.ts: the current run of completed days ending
    today, the longest run of one-day gaps, and the most recent completed day. */
module Streaks {
  import opened Wrappers
  import opened Calendar
  import opened HabitTypes
  import opened SeqUtil

  function Max(a: int, b: int): int {
    if a >= b then a else b
  }

  /** Habit `habitId` has a completed entry on day d. */
  predicate CompletedOn(completions: seq<HabitCompletion>, habitId: HabitId, d: Date) {
    exists i :: 0 <= i < |completions| && completions[i].habitId == habitId
                && completions[i].completed && completions[i].date == d
  }

  /** An entry of habit `habitId` marked completed. */
  function CompletedEntryOf(habitId: HabitId): HabitCompletion -> bool {
    (c: HabitCompletion) => c.habitId == habitId && c.completed
  }

  /** The days of the habit's completed entries, in ledger order (the filter of the source):
      one day per completed entry. */
  function CompletedDates(completions: seq<HabitCompletion>, habitId: HabitId): (dates: seq<Date>)
    ensures |dates| <= |completions|
    ensures forall d :: d in dates <==> CompletedOn(completions, habitId, d)
  {
    if completions == [] then []
    else
      var c := completions[0];
      var rest := CompletedDates(completions[1..], habitId);
      assert forall d :: CompletedOn(completions[1..], habitId, d) ==> CompletedOn(completions, habitId, d) by {
        forall d | CompletedOn(completions[1..], habitId, d) ensures CompletedOn(completions, habitId, d) {
          var i :| 0 <= i < |completions[1..]| && completions[1..][i].habitId == habitId
                   && completions[1..][i].completed && completions[1..][i].date == d;
          assert completions[i + 1] == completions[1..][i];
        }
      }
      assert forall d :: CompletedOn(completions, habitId, d) ==>
        (c.habitId == habitId && c.completed && c.date == d) || CompletedOn(completions[1..], habitId, d) by {
        forall d | CompletedOn(completions, habitId, d)
          ensures (c.habitId == habitId && c.completed && c.date == d) || CompletedOn(completions[1..], habitId, d)
        {
          var i :| 0 <= i < |completions| && completions[i].habitId == habitId
                   && completions[i].completed && completions[i].date == d;
          if i > 0 {
            assert completions[1..][i - 1] == completions[i];
          }
        }
      }
      if c.habitId == habitId && c.completed then [c.date] + rest else rest
  }

  /** There is one listed day per completed entry of the habit. */
  lemma {:induction false} CompletedDatesCount(completions: seq<HabitCompletion>, habitId: HabitId)
    ensures |CompletedDates(completions, habitId)| == CountWhere(completions, CompletedEntryOf(habitId))
  {
    if completions != [] {
      CompletedDatesCount(completions[1..], habitId);
    }
  }

  /** Sort keys of the two comparators: newest first, then oldest first. */
  function ByDayDescending(d: Date): int {
    -DayNumber(d)
  }

  function ByDay(d: Date): int {
    DayNumber(d)
  }

  predicate SortedBy(s: seq<Date>, key: Date -> int) {
    forall i, j :: 0 <= i < j < |s| ==> key(s[i]) <= key(s[j])
  }

  function Insert(d: Date, s: seq<Date>, key: Date -> int): (r: seq<Date>)
    requires SortedBy(s, key)
    ensures SortedBy(r, key)
    ensures multiset(r) == multiset(s) + multiset{d}
    ensures |r| == |s| + 1 && (r[0] == d || (|s| > 0 && r[0] == s[0]))
  {
    if s == [] || key(d) <= key(s[0]) then
      PrependSorted(d, s, key);
      [d] + s
    else
      var rest := Insert(d, s[1..], key);
      assert s == [s[0]] + s[1..];
      PrependSorted(s[0], rest, key);
      [s[0]] + rest
  }

  /** An element no greater than the head of a sorted list can go in front of it. */
  lemma {:induction false} PrependSorted(x: Date, s: seq<Date>, key: Date -> int)
    requires SortedBy(s, key) && (s == [] || key(x) <= key(s[0]))
    ensures SortedBy([x] + s, key)
  {
    forall j | 0 <= j < |s| ensures key(x) <= key(s[j]) {
      assert key(s[0]) <= key(s[j]);
    }
  }

  /** Array.prototype.sort with a comparator on the day: ascending by `key`. */
  function SortBy(s: seq<Date>, key: Date -> int): (r: seq<Date>)
    ensures SortedBy(r, key)
    ensures multiset(r) == multiset(s)
    ensures |r| == |s|
  {
    if s == [] then []
    else
      assert s == [s[0]] + s[1..];
      Insert(s[0], SortBy(s[1..], key), key)
  }

  /** The current-streak walk: the number of leading newest-first entries that are
      `expected`, the day before it, the day before that, and so on. */
  function CurrentRun(newestFirst: seq<Date>, expected: Date): (n: nat)
    ensures n <= |newestFirst|
  {
    if newestFirst == [] || newestFirst[0] != expected then 0
    else 1 + CurrentRun(newestFirst[1..], PrevDay(expected))
  }

  /** CurrentRun is the length of the longest prefix that steps back one day at a
      time from `expected`. */
  lemma {:induction false} CurrentRunIsMatchingPrefix(newestFirst: seq<Date>, expected: Date)
    ensures forall i :: 0 <= i < CurrentRun(newestFirst, expected) ==>
      DayNumber(newestFirst[i]) == DayNumber(expected) - i
    ensures var n := CurrentRun(newestFirst, expected);
      n < |newestFirst| ==> DayNumber(newestFirst[n]) != DayNumber(expected) - n
  {
    if newestFirst == [] || newestFirst[0] != expected {
      if newestFirst != [] {
        DayNumberInjective(newestFirst[0], expected);
      }
    } else {
      var rest := newestFirst[1..];
      CurrentRunIsMatchingPrefix(rest, PrevDay(expected));
      var m := CurrentRun(rest, PrevDay(expected));
      forall i | 1 <= i <= m
        ensures DayNumber(newestFirst[i]) == DayNumber(expected) - i
      {
        assert newestFirst[i] == rest[i - 1];
      }
      if m < |rest| {
        assert newestFirst[m + 1] == rest[m];
      }
    }
  }

  /** Length of the run of one-day steps that ends at index i of an oldest-first list. */
  function RunEndingAt(oldestFirst: seq<Date>, i: nat): (n: nat)
    requires i < |oldestFirst|
    ensures 1 <= n <= i + 1
  {
    if i == 0 || DayNumber(oldestFirst[i]) - DayNumber(oldestFirst[i - 1]) != 1 then 1
    else RunEndingAt(oldestFirst, i - 1) + 1
  }

  /** The longest such run among those ending before index k. */
  function LongestRunIn(oldestFirst: seq<Date>, k: nat): (n: nat)
    requires k <= |oldestFirst|
    ensures n <= k
  {
    if k == 0 then 0
    else Max(LongestRunIn(oldestFirst, k - 1), RunEndingAt(oldestFirst, k - 1))
  }

  /** LongestRunIn is the maximum of the runs ending before k: it bounds each of them
      and is attained by one of them. */
  lemma {:induction false} LongestRunInIsMaximum(oldestFirst: seq<Date>, k: nat)
    requires k <= |oldestFirst|
    ensures forall i :: 0 <= i < k ==> RunEndingAt(oldestFirst, i) <= LongestRunIn(oldestFirst, k)
    ensures k > 0 ==> exists i :: 0 <= i < k && RunEndingAt(oldestFirst, i) == LongestRunIn(oldestFirst, k)
  {
    LongestRunInBounds(oldestFirst, k);
    if k > 0 {
      LongestRunInAttained(oldestFirst, k);
    }
  }

  lemma {:induction false} LongestRunInBounds(oldestFirst: seq<Date>, k: nat)
    requires k <= |oldestFirst|
    ensures forall i :: 0 <= i < k ==> RunEndingAt(oldestFirst, i) <= LongestRunIn(oldestFirst, k)
  {
    forall i | 0 <= i < k ensures RunEndingAt(oldestFirst, i) <= LongestRunIn(oldestFirst, k) {
      RunBoundedBy(oldestFirst, i, k);
    }
  }

  lemma {:induction false} RunBoundedBy(oldestFirst: seq<Date>, i: nat, k: nat)
    requires i < k <= |oldestFirst|
    ensures RunEndingAt(oldestFirst, i) <= LongestRunIn(oldestFirst, k)
    decreases k
  {
    LongestRunInGrows(oldestFirst, k);
    if i < k - 1 {
      RunBoundedBy(oldestFirst, i, k - 1);
      assert RunEndingAt(oldestFirst, i) <= LongestRunIn(oldestFirst, k - 1) <= LongestRunIn(oldestFirst, k);
    } else {
      assert i == k - 1;
    }
  }

  lemma LongestRunInGrows(oldestFirst: seq<Date>, k: nat)
    requires 0 < k <= |oldestFirst|
    ensures LongestRunIn(oldestFirst, k - 1) <= LongestRunIn(oldestFirst, k)
    ensures RunEndingAt(oldestFirst, k - 1) <= LongestRunIn(oldestFirst, k)
  {
  }

  lemma {:induction false} LongestRunInAttained(oldestFirst: seq<Date>, k: nat)
    requires 0 < k <= |oldestFirst|
    ensures exists i :: 0 <= i < k && RunEndingAt(oldestFirst, i) == LongestRunIn(oldestFirst, k)
  {
    var here := RunEndingAt(oldestFirst, k - 1);
    if k > 1 && LongestRunIn(oldestFirst, k - 1) > here {
      LongestRunInAttained(oldestFirst, k - 1);
      var i :| 0 <= i < k - 1 && RunEndingAt(oldestFirst, i) == LongestRunIn(oldestFirst, k - 1);
      assert RunEndingAt(oldestFirst, i) == LongestRunIn(oldestFirst, k);
    } else {
      assert here == LongestRunIn(oldestFirst, k);
    }
  }

  /** The habit's completed days, newest first, then re-sorted oldest first. */
  function NewestFirst(completions: seq<HabitCompletion>, habitId: HabitId): seq<Date> {
    SortBy(CompletedDates(completions, habitId), ByDayDescending)
  }

  function OldestFirst(completions: seq<HabitCompletion>, habitId: HabitId): seq<Date> {
    SortBy(NewestFirst(completions, habitId), ByDay)
  }

  /** What `calculateStreak` returns, with the clock's day passed in as `today`. */
  function StreakOf(completions: seq<HabitCompletion>, habitId: HabitId, today: Date): HabitStreak {
    var newestFirst := NewestFirst(completions, habitId);
    if newestFirst == [] then HabitStreak(habitId, 0, 0, None)
    else
      var oldestFirst := OldestFirst(completions, habitId);
      HabitStreak(habitId, CurrentRun(newestFirst, today),
                  LongestRunIn(oldestFirst, |oldestFirst|), Some(newestFirst[0]))
  }

  /** The walk stops at a repeated day: completed entries for today, today again and
      yesterday give a current streak of 1, although both days are completed. */
  lemma {:induction false} RepeatedDayStopsWalk(habitId: HabitId, today: Date)
    ensures var entry := HabitCompletion("c1", habitId, today, true, 1, 0, None);
      var ledger := [entry, entry.(id := "c2"), entry.(id := "c3", date := PrevDay(today))];
      StreakOf(ledger, habitId, today).currentStreak == 1
  {
    var yesterday := PrevDay(today);
    var entry := HabitCompletion("c1", habitId, today, true, 1, 0, None);
    var ledger := [entry, entry.(id := "c2"), entry.(id := "c3", date := yesterday)];
    assert [ledger[2]][1..] == [];
    assert CompletedDates([ledger[2]], habitId) == [yesterday];
    assert ledger[1..] == [ledger[1], ledger[2]] && ledger[1..][1..] == [ledger[2]];
    assert CompletedDates(ledger[1..], habitId) == [today, yesterday];
    assert CompletedDates(ledger, habitId) == [today, today, yesterday];
    var newestFirst := NewestFirst(ledger, habitId);
    SortedRepeatedDay(newestFirst, today, yesterday);
    assert CurrentRun(newestFirst[1..], yesterday) == 0;
  }

  /** Sorted newest first, the days today, today and an earlier day put today twice in front. */
  lemma {:induction false} SortedRepeatedDay(days: seq<Date>, today: Date, earlier: Date)
    requires SortedBy(days, ByDayDescending) && multiset(days) == multiset{today, today, earlier}
    requires DayNumber(earlier) < DayNumber(today)
    ensures |days| == 3 && days[0] == today && days[1] == today
  {
    assert |days| == |multiset(days)| == 3;
    assert days == [days[0], days[1], days[2]];
    assert forall i :: 0 <= i < 3 ==> days[i] in multiset(days);
  }

  /** The current-streak walk of `calculateStreak`: steps back from today through the
      newest-first days while each one is the day expected. */
  method WalkCurrentStreak(habitCompletions: seq<Date>, today: Date) returns (currentStreak: nat)
    ensures currentStreak == CurrentRun(habitCompletions, today)
  {
    currentStreak := 0;
    var expectedDate := today;
    var i := 0;
    while i < |habitCompletions|
      invariant 0 <= i <= |habitCompletions|
      invariant currentStreak == i
      invariant DayNumber(expectedDate) == DayNumber(today) - i
      invariant forall j :: 0 <= j < i ==> DayNumber(habitCompletions[j]) == DayNumber(today) - j
    {
      if habitCompletions[i] == expectedDate {
        currentStreak := currentStreak + 1;
        expectedDate := PrevDay(expectedDate);
        i := i + 1;
      } else {
        DayNumberInjective(habitCompletions[i], expectedDate);
        break;
      }
    }
    CurrentRunIsMatchingPrefix(habitCompletions, today);
  }

  /** The longest-streak scan of `calculateStreak` over the oldest-first days: a gap of
      exactly one day extends the running streak, anything else closes it. */
  method ScanLongestStreak(sortedByDate: seq<Date>) returns (longestStreak: nat)
    ensures longestStreak == LongestRunIn(sortedByDate, |sortedByDate|)
  {
    longestStreak := 0;
    var tempStreak: nat := 0;
    var lastDate: Option<Date> := None;
    var k := 0;
    while k < |sortedByDate|
      invariant 0 <= k <= |sortedByDate|
      invariant lastDate == if k == 0 then None else Some(sortedByDate[k - 1])
      invariant k == 0 ==> tempStreak == 0 && longestStreak == 0
      invariant k > 0 ==> tempStreak == RunEndingAt(sortedByDate, k - 1)
      invariant Max(longestStreak, tempStreak) == LongestRunIn(sortedByDate, k)
    {
      var completionDate := sortedByDate[k];
      if lastDate.None? {
        tempStreak := 1;
      } else {
        var daysDiff := DayNumber(completionDate) - DayNumber(lastDate.value);
        if daysDiff == 1 {
          tempStreak := tempStreak + 1;
        } else {
          longestStreak := Max(longestStreak, tempStreak);
          tempStreak := 1;
        }
      }
      assert tempStreak == RunEndingAt(sortedByDate, k);
      assert LongestRunIn(sortedByDate, k + 1) == Max(LongestRunIn(sortedByDate, k), RunEndingAt(sortedByDate, k));
      lastDate := Some(completionDate);
      k := k + 1;
    }
    longestStreak := Max(longestStreak, tempStreak);
  }

  /** `calculateStreak`: filters the habit's completed entries, sorts them newest first,
      walks back from today for the current streak, then scans them oldest first for
      the longest run of one-day gaps. */
  method CalculateStreak(completions: seq<HabitCompletion>, habitId: HabitId, today: Date)
    returns (streak: HabitStreak)
    ensures streak == StreakOf(completions, habitId, today)
  {
    var habitCompletions := SortBy(CompletedDates(completions, habitId), ByDayDescending);
    if |habitCompletions| == 0 {
      return HabitStreak(habitId, 0, 0, None);
    }
    var currentStreak := WalkCurrentStreak(habitCompletions, today);
    var sortedByDate := SortBy(habitCompletions, ByDay);
    var longestStreak := ScanLongestStreak(sortedByDate);
    streak := HabitStreak(habitId, currentStreak, longestStreak, Some(habitCompletions[0]));
  }

  /* ---------------------------------------------------------------------------------
     What the streak means, in terms of the ledger.
     --------------------------------------------------------------------------------- */

  /** A day is listed in the sorted lists exactly when the habit has a completed entry on it. */
  lemma {:induction false} ListedIffCompleted(completions: seq<HabitCompletion>, habitId: HabitId, e: Date)
    ensures e in NewestFirst(completions, habitId) <==> CompletedOn(completions, habitId, e)
    ensures e in OldestFirst(completions, habitId) <==> CompletedOn(completions, habitId, e)
  {
    var dates := CompletedDates(completions, habitId);
    assert e in dates <==> e in multiset(dates);
    assert e in NewestFirst(completions, habitId) <==> e in multiset(NewestFirst(completions, habitId));
    assert e in OldestFirst(completions, habitId) <==> e in multiset(OldestFirst(completions, habitId));
  }

  /** With no completed entry for the habit, and only then, the streak is all zero and
      has no last completed day. */
  lemma {:induction false} NoCompletionsNoStreak(completions: seq<HabitCompletion>, habitId: HabitId, today: Date)
    ensures (forall d :: !CompletedOn(completions, habitId, d))
            <==> StreakOf(completions, habitId, today) == HabitStreak(habitId, 0, 0, None)
  {
    var newestFirst := NewestFirst(completions, habitId);
    if newestFirst != [] {
      ListedIffCompleted(completions, habitId, newestFirst[0]);
    } else {
      forall d ensures !CompletedOn(completions, habitId, d) {
        ListedIffCompleted(completions, habitId, d);
      }
    }
  }

  /** The last completed day is a completed day no earlier than any other. */
  lemma {:induction false} LastCompletedIsLatest(completions: seq<HabitCompletion>, habitId: HabitId, today: Date)
    ensures var last := StreakOf(completions, habitId, today).lastCompletedDate;
      last.Some? ==> CompletedOn(completions, habitId, last.value)
                     && forall e :: CompletedOn(completions, habitId, e) ==> DayNumber(e) <= DayNumber(last.value)
  {
    var newestFirst := NewestFirst(completions, habitId);
    if newestFirst != [] {
      ListedIffCompleted(completions, habitId, newestFirst[0]);
      forall e | CompletedOn(completions, habitId, e) ensures DayNumber(e) <= DayNumber(newestFirst[0]) {
        ListedIffCompleted(completions, habitId, e);
        var j :| 0 <= j < |newestFirst| && newestFirst[j] == e;
        if j > 0 {
          assert ByDayDescending(newestFirst[0]) <= ByDayDescending(newestFirst[j]);
        }
      }
    }
  }

  /** A current streak exists only when the latest completed day is today; in particular
      one completed entry dated after today zeroes it. */
  lemma {:induction false} CurrentStreakNeedsToday(completions: seq<HabitCompletion>, habitId: HabitId, today: Date)
    ensures StreakOf(completions, habitId, today).currentStreak > 0 ==>
      StreakOf(completions, habitId, today).lastCompletedDate == Some(today)
    ensures (exists e :: CompletedOn(completions, habitId, e) && DayNumber(e) > DayNumber(today)) ==>
      StreakOf(completions, habitId, today).currentStreak == 0
  {
    LastCompletedIsLatest(completions, habitId, today);
    if exists e :: CompletedOn(completions, habitId, e) && DayNumber(e) > DayNumber(today) {
      var e :| CompletedOn(completions, habitId, e) && DayNumber(e) > DayNumber(today);
      ListedIffCompleted(completions, habitId, e);
      assert NewestFirst(completions, habitId)[0] != today;
    }
  }

  /** No two completed entries of the habit fall on the same day. */
  predicate DistinctCompletedDays(completions: seq<HabitCompletion>, habitId: HabitId) {
    forall i, j :: 0 <= i < j < |completions|
      && completions[i].habitId == habitId && completions[i].completed
      && completions[j].habitId == habitId && completions[j].completed
      ==> completions[i].date != completions[j].date
  }

  /** Every one of the k days ending at `last` has a completed entry for the habit. */
  ghost predicate CompletedThrough(completions: seq<HabitCompletion>, habitId: HabitId, last: Date, k: int) {
    forall e :: DayNumber(last) - k < DayNumber(e) <= DayNumber(last) ==> CompletedOn(completions, habitId, e)
  }

  lemma {:induction false} CompletedDatesDistinct(completions: seq<HabitCompletion>, habitId: HabitId)
    requires DistinctCompletedDays(completions, habitId)
    ensures NoDuplicates(CompletedDates(completions, habitId))
  {
    if completions != [] {
      var c := completions[0];
      var tail := completions[1..];
      forall i, j | 0 <= i < j < |tail|
        && tail[i].habitId == habitId && tail[i].completed
        && tail[j].habitId == habitId && tail[j].completed
        ensures tail[i].date != tail[j].date
      {
        assert tail[i] == completions[i + 1] && tail[j] == completions[j + 1];
      }
      CompletedDatesDistinct(tail, habitId);
      var rest := CompletedDates(tail, habitId);
      if c.habitId == habitId && c.completed {
        assert c.date !in rest;
        var dates := [c.date] + rest;
        forall i, j | 0 <= i < j < |dates| ensures dates[i] != dates[j] {
          assert dates[j] == rest[j - 1];
          if i > 0 {
            assert dates[i] == rest[i - 1];
          }
        }
      }
    }
  }

  /** With distinct days, both sorted lists are free of repeats. */
  lemma {:induction false} SortedDaysDistinct(completions: seq<HabitCompletion>, habitId: HabitId)
    requires DistinctCompletedDays(completions, habitId)
    ensures NoDuplicates(NewestFirst(completions, habitId))
    ensures NoDuplicates(OldestFirst(completions, habitId))
  {
    CompletedDatesDistinct(completions, habitId);
    NoDuplicatesMultiset(CompletedDates(completions, habitId));
    NoDuplicatesMultiset(NewestFirst(completions, habitId));
    NoDuplicatesMultiset(OldestFirst(completions, habitId));
  }

  /** Every day of the current streak, today and the days just before it, has a
      completed entry. */
  lemma {:induction false} CurrentStreakDaysCompleted(completions: seq<HabitCompletion>, habitId: HabitId, today: Date)
    ensures CompletedThrough(completions, habitId, today, StreakOf(completions, habitId, today).currentStreak)
  {
    var newestFirst := NewestFirst(completions, habitId);
    var c := StreakOf(completions, habitId, today).currentStreak;
    if newestFirst != [] {
      forall e | DayNumber(today) - c < DayNumber(e) <= DayNumber(today)
        ensures CompletedOn(completions, habitId, e)
      {
        CurrentRunDayListed(newestFirst, today, e);
        ListedIffCompleted(completions, habitId, e);
      }
    }
  }

  /** Every day the current run covers is in the list. */
  lemma {:induction false} CurrentRunDayListed(newestFirst: seq<Date>, today: Date, e: Date)
    requires DayNumber(today) - CurrentRun(newestFirst, today) < DayNumber(e) <= DayNumber(today)
    ensures e in newestFirst
  {
    CurrentRunIsMatchingPrefix(newestFirst, today);
    var i := DayNumber(today) - DayNumber(e);
    DayNumberInjective(newestFirst[i], e);
  }

  /** In a newest-first list, later entries are no later days. */
  lemma {:induction false} NewestFirstOrder(s: seq<Date>, i: int, j: int)
    requires SortedBy(s, ByDayDescending) && 0 <= i <= j < |s|
    ensures DayNumber(s[j]) <= DayNumber(s[i])
  {
    if i < j {
      assert ByDayDescending(s[i]) <= ByDayDescending(s[j]);
    }
  }

  /** On a newest-first list of distinct days none after `today`, no listed day lies just
      before the run the walk accepted. */
  lemma {:induction false} CurrentRunIsMaximal(newestFirst: seq<Date>, today: Date, e: Date)
    requires SortedBy(newestFirst, ByDayDescending) && NoDuplicates(newestFirst)
    requires forall i :: 0 <= i < |newestFirst| ==> DayNumber(newestFirst[i]) <= DayNumber(today)
    requires e in newestFirst
    ensures DayNumber(e) != DayNumber(today) - CurrentRun(newestFirst, today)
  {
    var c := CurrentRun(newestFirst, today);
    var j :| 0 <= j < |newestFirst| && newestFirst[j] == e;
    CurrentRunIsMatchingPrefix(newestFirst, today);
    if c <= j {
      // The entry at c is a day strictly before today - c.
      if c > 0 {
        DayNumberInjective(newestFirst[c - 1], newestFirst[c]);
        NewestFirstOrder(newestFirst, c - 1, c);
      }
      NewestFirstOrder(newestFirst, c, j);
    }
  }

  /** With distinct days and no completed entry after today, the day just before the
      current streak has no completed entry: the streak is the whole run ending today. */
  lemma {:induction false} CurrentStreakIsMaximal(completions: seq<HabitCompletion>, habitId: HabitId, today: Date, e: Date)
    requires DistinctCompletedDays(completions, habitId)
    requires forall d :: CompletedOn(completions, habitId, d) ==> DayNumber(d) <= DayNumber(today)
    requires DayNumber(e) == DayNumber(today) - StreakOf(completions, habitId, today).currentStreak
    ensures !CompletedOn(completions, habitId, e)
  {
    var newestFirst := NewestFirst(completions, habitId);
    if CompletedOn(completions, habitId, e) {
      ListedIffCompleted(completions, habitId, e);
      SortedDaysDistinct(completions, habitId);
      forall i | 0 <= i < |newestFirst| ensures DayNumber(newestFirst[i]) <= DayNumber(today) {
        ListedIffCompleted(completions, habitId, newestFirst[i]);
      }
      CurrentRunIsMaximal(newestFirst, today, e);
    }
  }

  /** In an oldest-first list, later entries are no earlier days. */
  lemma {:induction false} OldestFirstOrder(s: seq<Date>, i: int, j: int)
    requires SortedBy(s, ByDay) && 0 <= i <= j < |s|
    ensures DayNumber(s[i]) <= DayNumber(s[j])
  {
    if i < j {
      assert ByDay(s[i]) <= ByDay(s[j]);
    }
  }

  /** The run ending at index i covers consecutive days: each entry of the run is as
      many days before s[i] as it stands places before i. */
  lemma {:induction false} RunIsConsecutiveDays(s: seq<Date>, i: nat)
    requires i < |s|
    ensures forall j :: i - RunEndingAt(s, i) < j <= i ==> DayNumber(s[j]) == DayNumber(s[i]) - (i - j)
  {
    if RunEndingAt(s, i) > 1 {
      RunIsConsecutiveDays(s, i - 1);
    }
  }

  /** Each entry is a later day than every entry before it. */
  predicate StrictlyAscending(s: seq<Date>) {
    forall i, j :: 0 <= i < j < |s| ==> DayNumber(s[i]) < DayNumber(s[j])
  }

  /** An oldest-first list of distinct days is strictly ascending. */
  lemma {:induction false} SortedDistinctAscending(s: seq<Date>)
    requires SortedBy(s, ByDay) && NoDuplicates(s)
    ensures StrictlyAscending(s)
  {
    forall i, j | 0 <= i < j < |s| ensures DayNumber(s[i]) < DayNumber(s[j]) {
      OldestFirstOrder(s, i, j);
      DayNumberInjective(s[i], s[j]);
    }
  }

  /** On a strictly ascending list, a block of k consecutive listed days ending at index q
      makes the run ending at q at least k long. */
  lemma {:induction false} RunCoversBlock(s: seq<Date>, q: nat, k: nat)
    requires StrictlyAscending(s)
    requires q < |s| && k >= 1
    requires forall e :: DayNumber(s[q]) - k < DayNumber(e) <= DayNumber(s[q]) ==> e in s
    ensures k <= RunEndingAt(s, q)
    decreases k
  {
    if k > 1 {
      assert PrevDay(s[q]) in s;
      PredecessorIsPrevious(s, q);
      RunCoversBlock(s, q - 1, k - 1);
    }
  }

  /** On a strictly ascending list, a listed day before s[q] that is one day earlier is
      the entry just before q. */
  lemma {:induction false} PredecessorIsPrevious(s: seq<Date>, q: nat)
    requires StrictlyAscending(s) && q < |s|
    requires PrevDay(s[q]) in s
    ensures q > 0 && DayNumber(s[q - 1]) == DayNumber(s[q]) - 1
  {
    var r :| 0 <= r < |s| && s[r] == PrevDay(s[q]);
    assert r < q;
    assert DayNumber(s[r]) <= DayNumber(s[q - 1]) < DayNumber(s[q]);
  }

  /** Some completed day ends a run of `longestStreak` consecutive completed days. */
  lemma {:induction false} LongestStreakIsAttained(completions: seq<HabitCompletion>, habitId: HabitId, today: Date)
    requires exists d :: CompletedOn(completions, habitId, d)
    ensures exists d :: CompletedOn(completions, habitId, d) &&
                        CompletedThrough(completions, habitId, d, StreakOf(completions, habitId, today).longestStreak)
  {
    var d0 :| CompletedOn(completions, habitId, d0);
    ListedIffCompleted(completions, habitId, d0);
    var s := OldestFirst(completions, habitId);
    var n := StreakOf(completions, habitId, today).longestStreak;
    LongestRunInIsMaximum(s, |s|);
    var i :| 0 <= i < |s| && RunEndingAt(s, i) == n;
    ListedIffCompleted(completions, habitId, s[i]);
    forall e | DayNumber(s[i]) - n < DayNumber(e) <= DayNumber(s[i])
      ensures CompletedOn(completions, habitId, e)
    {
      RunDaysListed(s, i, e);
      ListedIffCompleted(completions, habitId, e);
    }
    assert CompletedThrough(completions, habitId, s[i], n);
  }

  /** Every day of the run ending at index i is listed. */
  lemma {:induction false} RunDaysListed(s: seq<Date>, i: nat, e: Date)
    requires i < |s|
    requires DayNumber(s[i]) - RunEndingAt(s, i) < DayNumber(e) <= DayNumber(s[i])
    ensures e in s
  {
    RunIsConsecutiveDays(s, i);
    var j := i - (DayNumber(s[i]) - DayNumber(e));
    DayNumberInjective(s[j], e);
  }

  /** With distinct days, no run of consecutive completed days is longer than
      `longestStreak`. */
  lemma {:induction false} LongestStreakIsMaximal(completions: seq<HabitCompletion>, habitId: HabitId, today: Date,
                               last: Date, k: nat)
    requires DistinctCompletedDays(completions, habitId)
    requires k >= 1 && CompletedThrough(completions, habitId, last, k)
    ensures k <= StreakOf(completions, habitId, today).longestStreak
  {
    var s := OldestFirst(completions, habitId);
    ListedIffCompleted(completions, habitId, last);
    var q :| 0 <= q < |s| && s[q] == last;
    SortedDaysDistinct(completions, habitId);
    SortedDistinctAscending(s);
    forall e | DayNumber(s[q]) - k < DayNumber(e) <= DayNumber(s[q]) ensures e in s {
      ListedIffCompleted(completions, habitId, e);
    }
    RunCoversBlock(s, q, k);
    LongestRunInIsMaximum(s, |s|);
  }

  /** Whenever the habit has a completed entry, the longest streak is between one and the
      number of its completed entries. */
  lemma {:induction false} LongestStreakBounds(completions: seq<HabitCompletion>, habitId: HabitId, today: Date)
    requires exists d :: CompletedOn(completions, habitId, d)
    ensures 1 <= StreakOf(completions, habitId, today).longestStreak <= |CompletedDates(completions, habitId)|
    ensures StreakOf(completions, habitId, today).longestStreak <= CountWhere(completions, CompletedEntryOf(habitId))
  {
    CompletedDatesCount(completions, habitId);
    var d0 :| CompletedOn(completions, habitId, d0);
    ListedIffCompleted(completions, habitId, d0);
    var s := OldestFirst(completions, habitId);
    LongestRunInIsMaximum(s, |s|);
  }

  /** The list in the opposite order. */
  function Reversed(s: seq<Date>): (r: seq<Date>)
    ensures |r| == |s|
    ensures forall i :: 0 <= i < |s| ==> r[i] == s[|s| - 1 - i]
    ensures multiset(r) == multiset(s)
  {
    if s == [] then []
    else
      assert s == [s[0]] + s[1..];
      Reversed(s[1..]) + [s[0]]
  }

  /** Reversing a newest-first list gives an oldest-first one. */
  lemma {:induction false} ReversedAscending(s: seq<Date>)
    requires SortedBy(s, ByDayDescending)
    ensures SortedBy(Reversed(s), ByDay)
  {
    var r := Reversed(s);
    forall i, j | 0 <= i < j < |r| ensures ByDay(r[i]) <= ByDay(r[j]) {
      assert ByDayDescending(s[|s| - 1 - j]) <= ByDayDescending(s[|s| - 1 - i]);
    }
  }

  /** The head of an oldest-first list is no later than any of its days. */
  lemma {:induction false} HeadIsEarliest(s: seq<Date>, d: Date)
    requires SortedBy(s, ByDay) && d in s
    ensures DayNumber(s[0]) <= DayNumber(d)
  {
    var j :| 0 <= j < |s| && s[j] == d;
    if j > 0 {
      assert ByDay(s[0]) <= ByDay(s[j]);
    }
  }

  lemma {:induction false} SameHeadSameTail(a: seq<Date>, b: seq<Date>)
    requires a != [] && b != [] && a[0] == b[0] && multiset(a) == multiset(b)
    ensures multiset(a[1..]) == multiset(b[1..])
  {
    assert a == [a[0]] + a[1..];
    assert b == [b[0]] + b[1..];
    forall x ensures multiset(a[1..])[x] == multiset(b[1..])[x] {
      assert multiset(a)[x] == multiset{a[0]}[x] + multiset(a[1..])[x];
      assert multiset(b)[x] == multiset{b[0]}[x] + multiset(b[1..])[x];
    }
  }

  /** Two oldest-first lists holding the same days are the same list: sorting by day
      leaves no freedom, since equal day numbers mean equal days. */
  lemma {:induction false} SortedByDayUnique(a: seq<Date>, b: seq<Date>)
    requires SortedBy(a, ByDay) && SortedBy(b, ByDay) && multiset(a) == multiset(b)
    ensures a == b
    decreases |a|
  {
    assert |a| == |multiset(a)| == |multiset(b)| == |b|;
    if a != [] {
      assert a[0] in multiset(b) && b[0] in multiset(a);
      HeadIsEarliest(b, a[0]);
      HeadIsEarliest(a, b[0]);
      DayNumberInjective(a[0], b[0]);
      SameHeadSameTail(a, b);
      assert SortedBy(a[1..], ByDay) && SortedBy(b[1..], ByDay) by {
        forall i, j | 0 <= i < j < |a| - 1 ensures ByDay(a[1..][i]) <= ByDay(a[1..][j]) && ByDay(b[1..][i]) <= ByDay(b[1..][j]) {
          assert a[1..][i] == a[i + 1] && a[1..][j] == a[j + 1];
          assert b[1..][i] == b[i + 1] && b[1..][j] == b[j + 1];
        }
      }
      SortedByDayUnique(a[1..], b[1..]);
      assert a == [a[0]] + a[1..] && b == [b[0]] + b[1..];
    }
  }

  /** The oldest-first re-sort is exactly the newest-first list reversed, duplicates
      included. */
  lemma {:induction false} OldestFirstIsReversed(completions: seq<HabitCompletion>, habitId: HabitId)
    ensures OldestFirst(completions, habitId) == Reversed(NewestFirst(completions, habitId))
  {
    var newestFirst := NewestFirst(completions, habitId);
    ReversedAscending(newestFirst);
    SortedByDayUnique(OldestFirst(completions, habitId), Reversed(newestFirst));
  }

  /** The k - 1 steps before index i are each one day. */
  predicate OneDayStepsBefore(s: seq<Date>, i: int, k: int)
    requires i < |s|
  {
    forall j :: 0 < j && i - k + 1 < j <= i ==> DayNumber(s[j]) - DayNumber(s[j - 1]) == 1
  }

  /** k one-day steps ending at index i make the run there at least k long. */
  lemma {:induction false} RunOfSteps(s: seq<Date>, i: nat, k: nat)
    requires i < |s| && 1 <= k <= i + 1
    requires OneDayStepsBefore(s, i, k)
    ensures RunEndingAt(s, i) >= k
    decreases k
  {
    if k > 1 {
      assert DayNumber(s[i]) - DayNumber(s[i - 1]) == 1;
      RunOfSteps(s, i - 1, k - 1);
    }
  }

  /** A newest-first list whose first c entries are consecutive days, newest first, has
      a run of at least c at the last index of its reverse. */
  lemma {:induction false} RunOfReversedPrefix(newestFirst: seq<Date>, c: nat)
    requires 1 <= c <= |newestFirst|
    requires forall i :: 0 <= i < c ==> DayNumber(newestFirst[i]) == DayNumber(newestFirst[0]) - i
    ensures RunEndingAt(Reversed(newestFirst), |newestFirst| - 1) >= c
  {
    ReversedPrefixSteps(newestFirst, c);
    RunOfSteps(Reversed(newestFirst), |newestFirst| - 1, c);
  }

  lemma {:induction false} ReversedPrefixSteps(newestFirst: seq<Date>, c: nat)
    requires 1 <= c <= |newestFirst|
    requires forall i :: 0 <= i < c ==> DayNumber(newestFirst[i]) == DayNumber(newestFirst[0]) - i
    ensures OneDayStepsBefore(Reversed(newestFirst), |newestFirst| - 1, c)
  {
    var r := Reversed(newestFirst);
    var n := |r|;
    forall j | 0 < j && n - c < j <= n - 1 ensures DayNumber(r[j]) - DayNumber(r[j - 1]) == 1 {
      var back := n - 1 - j;
      assert r[j] == newestFirst[back] && r[j - 1] == newestFirst[back + 1];
      assert DayNumber(newestFirst[back]) == DayNumber(newestFirst[0]) - back;
      assert DayNumber(newestFirst[back + 1]) == DayNumber(newestFirst[0]) - (back + 1);
    }
  }

  /** The longest streak is at least the current one, on every ledger: the current run
      is the run ending at the newest entry of the oldest-first list. */
  lemma {:induction false} LongestAtLeastCurrent(completions: seq<HabitCompletion>, habitId: HabitId, today: Date)
    ensures StreakOf(completions, habitId, today).currentStreak <= StreakOf(completions, habitId, today).longestStreak
  {
    var newestFirst := NewestFirst(completions, habitId);
    if newestFirst != [] && CurrentRun(newestFirst, today) > 0 {
      var oldestFirst := OldestFirst(completions, habitId);
      OldestFirstIsReversed(completions, habitId);
      CurrentRunIsMatchingPrefix(newestFirst, today);
      RunOfReversedPrefix(newestFirst, CurrentRun(newestFirst, today));
      LongestRunInIsMaximum(oldestFirst, |oldestFirst|);
    }
  }
}
