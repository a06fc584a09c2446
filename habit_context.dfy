/** The ledger state machine of contexts/HabitContext.tsx: the reducer over the habit
    list and the completion ledger, and the provider that holds the state and turns its
    wrapper calls into actions. */
module HabitContext {
  import opened Wrappers
  import opened Calendar
  import opened HabitTypes
  import opened SeqUtil
  import opened Streaks
  import opened Progress

  datatype HabitState = HabitState(
    habits: seq<Habit>,
    completions: seq<HabitCompletion>,
    isLoading: bool)

  datatype HabitAction =
    | LoadData(habits: seq<Habit>, completions: seq<HabitCompletion>)
    | AddHabit(habit: Habit)
    | UpdateHabit(habit: Habit)
    | DeleteHabit(habitId: HabitId)
    | ToggleHabit(habitId: HabitId, date: Date)
    | UpdateHabitCount(habitId: HabitId, date: Date, count: int)
    | AddCompletion(completion: HabitCompletion)
    | SetLoading(isLoading: bool)

  /** What the reducer reads from outside: a new id from the id generator and the clock. */
  datatype Env = Env(freshId: string, now: Instant)

  function InitialState(): HabitState {
    HabitState([], [], true)
  }

  /** Every entry carrying `id` replaced by its image under f (the source's `map` keyed on
      the id of the entry it found). */
  function MapById(cs: seq<HabitCompletion>, id: string, f: HabitCompletion -> HabitCompletion)
    : seq<HabitCompletion>
  {
    seq(|cs|, i requires 0 <= i < |cs| => if cs[i].id == id then f(cs[i]) else cs[i])
  }

  function Flipped(now: Instant): HabitCompletion -> HabitCompletion {
    (c: HabitCompletion) => c.(completed := !c.completed, timestamp := now)
  }

  function Recounted(count: int, now: Instant): HabitCompletion -> HabitCompletion {
    (c: HabitCompletion) => c.(count := count, completed := count > 0, timestamp := now)
  }

  /** The entry a toggle or a count creates when the day has none. */
  function NewEntry(habitId: HabitId, date: Date, count: int, env: Env): HabitCompletion {
    HabitCompletion(env.freshId, habitId, date, true, count, env.now, None)
  }

  /** TOGGLE_HABIT on the ledger. */
  function ToggleCompletions(cs: seq<HabitCompletion>, habitId: HabitId, date: Date, env: Env)
    : seq<HabitCompletion>
  {
    match FindFirst(cs, EntryFor(habitId, date))
    case Some(existing) => MapById(cs, existing.id, Flipped(env.now))
    case None => cs + [NewEntry(habitId, date, 1, env)]
  }

  /** UPDATE_HABIT_COUNT on the ledger. */
  function UpdateCountCompletions(cs: seq<HabitCompletion>, habitId: HabitId, date: Date, count: int, env: Env)
    : seq<HabitCompletion>
  {
    match FindFirst(cs, EntryFor(habitId, date))
    case Some(existing) => MapById(cs, existing.id, Recounted(count, env.now))
    case None => if count > 0 then cs + [NewEntry(habitId, date, count, env)] else cs
  }

  function OtherThan(habitId: HabitId): Habit -> bool {
    (h: Habit) => h.id != habitId
  }

  function NotOfHabit(habitId: HabitId): HabitCompletion -> bool {
    (c: HabitCompletion) => c.habitId != habitId
  }

  /** UPDATE_HABIT on the habit list: every habit with the new habit's id is replaced. */
  function ReplaceHabit(habits: seq<Habit>, habit: Habit): seq<Habit> {
    seq(|habits|, i requires 0 <= i < |habits| => if habits[i].id == habit.id then habit else habits[i])
  }

  /** `habitReducer`.  ADD_HABIT, UPDATE_HABIT and SET_LOADING leave the ledger alone
      (DELETE_HABIT also removes the habit's entries), the ledger actions and SET_LOADING
      leave the habit list alone, and only LOAD_DATA and SET_LOADING touch the loading flag. */
  function HabitReducer(state: HabitState, action: HabitAction, env: Env): (next: HabitState)
    ensures (action.AddHabit? || action.UpdateHabit? || action.SetLoading?) ==>
      next.completions == state.completions
    ensures (action.ToggleHabit? || action.UpdateHabitCount? || action.AddCompletion? || action.SetLoading?) ==>
      next.habits == state.habits
    ensures !action.LoadData? && !action.SetLoading? ==> next.isLoading == state.isLoading
  {
    match action
    case LoadData(habits, completions) => state.(habits := habits, completions := completions, isLoading := false)
    case AddHabit(habit) => state.(habits := state.habits + [habit])
    case UpdateHabit(habit) => state.(habits := ReplaceHabit(state.habits, habit))
    case DeleteHabit(habitId) =>
      state.(habits := Filter(state.habits, OtherThan(habitId)),
             completions := Filter(state.completions, NotOfHabit(habitId)))
    case ToggleHabit(habitId, date) =>
      state.(completions := ToggleCompletions(state.completions, habitId, date, env))
    case UpdateHabitCount(habitId, date, count) =>
      state.(completions := UpdateCountCompletions(state.completions, habitId, date, count, env))
    case AddCompletion(completion) => state.(completions := state.completions + [completion])
    case SetLoading(isLoading) => state.(isLoading := isLoading)
  }

  /* ---------------------------------------------------------------------------------
     Ledger invariants.
     --------------------------------------------------------------------------------- */

  /** At most one entry per (habit, day). */
  predicate UniqueKeys(cs: seq<HabitCompletion>) {
    forall i, j :: 0 <= i < j < |cs| ==> !(cs[i].habitId == cs[j].habitId && cs[i].date == cs[j].date)
  }

  /** No two entries share an id. */
  predicate UniqueIds(cs: seq<HabitCompletion>) {
    forall i, j :: 0 <= i < j < |cs| ==> cs[i].id != cs[j].id
  }

  /** The generated id is not already in the ledger. */
  predicate FreshFor(env: Env, cs: seq<HabitCompletion>) {
    forall i :: 0 <= i < |cs| ==> cs[i].id != env.freshId
  }

  /** Two ledgers agree entry by entry in everything but the timestamps. */
  predicate SameExceptTimestamps(a: seq<HabitCompletion>, b: seq<HabitCompletion>) {
    |a| == |b| && forall i :: 0 <= i < |a| ==> a[i].(timestamp := 0) == b[i].(timestamp := 0)
  }

  /** A ledger with one entry per (habit, day) gives every habit distinct completed days,
      the condition of the streak lemmas. */
  lemma {:induction false} UniqueKeysGiveDistinctDays(cs: seq<HabitCompletion>, habitId: HabitId)
    requires UniqueKeys(cs)
    ensures DistinctCompletedDays(cs, habitId)
  {
  }

  /* ---------------------------------------------------------------------------------
     TOGGLE_HABIT.
     --------------------------------------------------------------------------------- */

  /** Toggling the day's existing entry k flips its flag and stamps it, keeps its count,
      habit and day, and leaves every other entry and the length unchanged. */
  lemma {:induction false} ToggleFlipsExistingEntry(cs: seq<HabitCompletion>, habitId: HabitId, date: Date, env: Env, k: int)
    requires UniqueIds(cs)
    requires 0 <= k < |cs| && EntryFor(habitId, date)(cs[k])
    requires forall i :: 0 <= i < k ==> !EntryFor(habitId, date)(cs[i])
    ensures var r := ToggleCompletions(cs, habitId, date, env);
      |r| == |cs|
      && r[k].completed == !cs[k].completed && r[k].timestamp == env.now
      && r[k].count == cs[k].count && r[k].habitId == habitId && r[k].date == date
      && r[k].id == cs[k].id && r[k].notes == cs[k].notes
      && forall i :: 0 <= i < |cs| && i != k ==> r[i] == cs[i]
  {
    FindFirstAt(cs, EntryFor(habitId, date), k);
  }

  /** Toggling a day without an entry appends one completed entry with count 1 for that
      habit and day and keeps every prior entry. */
  lemma {:induction false} ToggleAppendsWhenAbsent(cs: seq<HabitCompletion>, habitId: HabitId, date: Date, env: Env)
    requires forall i :: 0 <= i < |cs| ==> !EntryFor(habitId, date)(cs[i])
    ensures var r := ToggleCompletions(cs, habitId, date, env);
      |r| == |cs| + 1 && r[..|cs|] == cs
      && r[|cs|].habitId == habitId && r[|cs|].date == date
      && r[|cs|].completed && r[|cs|].count == 1 && r[|cs|].id == env.freshId
  {
  }

  /** Toggling an existing entry twice gives back the original ledger but for the
      timestamps. */
  lemma {:induction false} ToggleTwiceRestores(cs: seq<HabitCompletion>, habitId: HabitId, date: Date, env1: Env, env2: Env)
    requires exists i :: 0 <= i < |cs| && EntryFor(habitId, date)(cs[i])
    ensures SameExceptTimestamps(
      ToggleCompletions(ToggleCompletions(cs, habitId, date, env1), habitId, date, env2), cs)
  {
    var p := EntryFor(habitId, date);
    var existing := FindFirst(cs, p).value;
    var k :| 0 <= k < |cs| && cs[k] == existing && p(cs[k]) && forall i :: 0 <= i < k ==> !p(cs[i]);
    var once := MapById(cs, existing.id, Flipped(env1.now));
    assert ToggleCompletions(cs, habitId, date, env1) == once;
    FlipKeepsFirstEntry(cs, p, k, existing.id, env1.now);
    assert ToggleCompletions(once, habitId, date, env2) == MapById(once, existing.id, Flipped(env2.now));
    FlipTwice(cs, existing.id, env1.now, env2.now);
  }

  /** Flipping the entries with one id keeps the first entry for the day where it was. */
  lemma {:induction false} FlipKeepsFirstEntry(cs: seq<HabitCompletion>, p: HabitCompletion -> bool, k: int, id: string, now: Instant)
    requires 0 <= k < |cs| && p(cs[k]) && cs[k].id == id
    requires forall i :: 0 <= i < k ==> !p(cs[i])
    requires forall c: HabitCompletion, t: Instant :: p(c) <==> p(Flipped(t)(c))
    ensures FindFirst(MapById(cs, id, Flipped(now)), p) == Some(MapById(cs, id, Flipped(now))[k])
  {
    var once := MapById(cs, id, Flipped(now));
    forall i | 0 <= i < k ensures !p(once[i]) {
      assert once[i] == cs[i] || once[i] == Flipped(now)(cs[i]);
    }
    FindFirstAt(once, p, k);
  }

  /** Flipping the same entries twice restores them but for the timestamps. */
  lemma {:induction false} FlipTwice(cs: seq<HabitCompletion>, id: string, t1: Instant, t2: Instant)
    ensures SameExceptTimestamps(MapById(MapById(cs, id, Flipped(t1)), id, Flipped(t2)), cs)
  {
    var once := MapById(cs, id, Flipped(t1));
    var twice := MapById(once, id, Flipped(t2));
    forall i | 0 <= i < |cs| ensures twice[i].(timestamp := 0) == cs[i].(timestamp := 0) {
      assert once[i].id == cs[i].id;
    }
  }

  /** Toggling a day without an entry twice leaves one new entry, not completed, with
      count 1: the second toggle flips the entry the first one created. */
  lemma {:induction false} ToggleTwiceWhenAbsent(cs: seq<HabitCompletion>, habitId: HabitId, date: Date, env1: Env, env2: Env)
    requires forall i :: 0 <= i < |cs| ==> !EntryFor(habitId, date)(cs[i])
    requires FreshFor(env1, cs)
    ensures ToggleCompletions(ToggleCompletions(cs, habitId, date, env1), habitId, date, env2)
            == cs + [NewEntry(habitId, date, 1, env1).(completed := false, timestamp := env2.now)]
  {
    var once := ToggleCompletions(cs, habitId, date, env1);
    FindFirstAt(once, EntryFor(habitId, date), |cs|);
  }

  /* ---------------------------------------------------------------------------------
     UPDATE_HABIT_COUNT.
     --------------------------------------------------------------------------------- */

  /** Setting the count of the day's existing entry k stores the count as given, with no
      clamping, marks it completed exactly when the count is positive, and leaves every
      other entry and the length unchanged. */
  lemma {:induction false} SetCountOnExistingEntry(cs: seq<HabitCompletion>, habitId: HabitId, date: Date, count: int,
                                env: Env, k: int)
    requires UniqueIds(cs)
    requires 0 <= k < |cs| && EntryFor(habitId, date)(cs[k])
    requires forall i :: 0 <= i < k ==> !EntryFor(habitId, date)(cs[i])
    ensures var r := UpdateCountCompletions(cs, habitId, date, count, env);
      |r| == |cs|
      && r[k].count == count && (r[k].completed <==> count > 0) && r[k].timestamp == env.now
      && r[k].habitId == habitId && r[k].date == date && r[k].id == cs[k].id && r[k].notes == cs[k].notes
      && forall i :: 0 <= i < |cs| && i != k ==> r[i] == cs[i]
  {
    FindFirstAt(cs, EntryFor(habitId, date), k);
  }

  /** Without an entry for the day, a positive count appends a completed entry with that
      count, and any other count leaves the ledger as it was. */
  lemma {:induction false} SetCountWhenAbsent(cs: seq<HabitCompletion>, habitId: HabitId, date: Date, count: int, env: Env)
    requires forall i :: 0 <= i < |cs| ==> !EntryFor(habitId, date)(cs[i])
    ensures var r := UpdateCountCompletions(cs, habitId, date, count, env);
      (count > 0 ==> |r| == |cs| + 1 && r[..|cs|] == cs
                     && r[|cs|].habitId == habitId && r[|cs|].date == date
                     && r[|cs|].completed && r[|cs|].count == count)
      && (count <= 0 ==> r == cs)
  {
  }

  /** Setting the same count twice gives the same ledger as setting it once, but for the
      timestamps. */
  lemma {:induction false} SetCountIdempotent(cs: seq<HabitCompletion>, habitId: HabitId, date: Date, count: int,
                           env1: Env, env2: Env)
    requires FreshFor(env1, cs)
    ensures var once := UpdateCountCompletions(cs, habitId, date, count, env1);
      SameExceptTimestamps(UpdateCountCompletions(once, habitId, date, count, env2), once)
  {
    var p := EntryFor(habitId, date);
    if exists i :: 0 <= i < |cs| && p(cs[i]) {
      SetCountTwiceOnExisting(cs, habitId, date, count, env1, env2);
    } else if count > 0 {
      var once := UpdateCountCompletions(cs, habitId, date, count, env1);
      FindFirstAt(once, p, |cs|);
    }
  }

  lemma {:induction false} SetCountTwiceOnExisting(cs: seq<HabitCompletion>, habitId: HabitId, date: Date, count: int,
                                env1: Env, env2: Env)
    requires exists i :: 0 <= i < |cs| && EntryFor(habitId, date)(cs[i])
    ensures var once := UpdateCountCompletions(cs, habitId, date, count, env1);
      SameExceptTimestamps(UpdateCountCompletions(once, habitId, date, count, env2), once)
  {
    var p := EntryFor(habitId, date);
    var once := UpdateCountCompletions(cs, habitId, date, count, env1);
    var existing := FindFirst(cs, p).value;
    var k :| 0 <= k < |cs| && cs[k] == existing && p(cs[k]) && forall i :: 0 <= i < k ==> !p(cs[i]);
    assert once == MapById(cs, existing.id, Recounted(count, env1.now));
    FindFirstAt(once, p, k);
  }

  /* ---------------------------------------------------------------------------------
     DELETE_HABIT, UPDATE_HABIT, ADD_HABIT, LOAD_DATA, SET_LOADING.
     --------------------------------------------------------------------------------- */

  /** Deleting a habit leaves no habit with its id and no entry of it; every other habit
      and entry survives, in its original order. */
  lemma {:induction false} DeleteCascades(state: HabitState, habitId: HabitId, env: Env)
    ensures var next := HabitReducer(state, DeleteHabit(habitId), env);
      (forall h :: h in next.habits <==> h in state.habits && h.id != habitId)
      && (forall c :: c in next.completions <==> c in state.completions && c.habitId != habitId)
      && IsSubsequence(next.habits, state.habits)
      && IsSubsequence(next.completions, state.completions)
      && next.isLoading == state.isLoading
  {
  }

  /** Deleting twice is deleting once. */
  lemma {:induction false} DeleteIdempotent(state: HabitState, habitId: HabitId, env1: Env, env2: Env)
    ensures var once := HabitReducer(state, DeleteHabit(habitId), env1);
      HabitReducer(once, DeleteHabit(habitId), env2) == once
  {
    FilterIdempotent(state.habits, OtherThan(habitId));
    FilterIdempotent(state.completions, NotOfHabit(habitId));
  }

  /** Updating replaces exactly the habits with the new habit's id, keeping length and
      order; an id not in the list changes nothing; the ledger is never touched. */
  lemma {:induction false} UpdateReplacesById(state: HabitState, habit: Habit, env: Env)
    ensures var next := HabitReducer(state, UpdateHabit(habit), env);
      |next.habits| == |state.habits|
      && (forall i :: 0 <= i < |state.habits| ==>
            next.habits[i] == if state.habits[i].id == habit.id then habit else state.habits[i])
      && ((forall i :: 0 <= i < |state.habits| ==> state.habits[i].id != habit.id) ==> next == state)
      && next.completions == state.completions
  {
  }

  /** Loading replaces both collections with the loaded ones and ends loading. */
  lemma {:induction false} LoadReplacesCollections(state: HabitState, habits: seq<Habit>, completions: seq<HabitCompletion>, env: Env)
    ensures var next := HabitReducer(state, LoadData(habits, completions), env);
      next.habits == habits && next.completions == completions && !next.isLoading
  {
  }

  /** Adding appends the habit at the end and keeps every earlier habit. */
  lemma {:induction false} AddAppendsHabit(state: HabitState, habit: Habit, env: Env)
    ensures var next := HabitReducer(state, AddHabit(habit), env);
      |next.habits| == |state.habits| + 1 && next.habits[..|state.habits|] == state.habits
      && next.habits[|state.habits|] == habit && next.completions == state.completions
  {
  }

  /** Setting the loading flag changes nothing else. */
  lemma {:induction false} SetLoadingOnlyFlag(state: HabitState, flag: bool, env: Env)
    ensures HabitReducer(state, SetLoading(flag), env) == state.(isLoading := flag)
  {
  }

  /* ---------------------------------------------------------------------------------
     At most one entry per (habit, day).
     --------------------------------------------------------------------------------- */

  /** Mapping entries without changing their habit or day keeps the keys unique. */
  lemma {:induction false} MapKeepsUniqueKeys(cs: seq<HabitCompletion>, id: string, f: HabitCompletion -> HabitCompletion)
    requires UniqueKeys(cs)
    requires forall c :: f(c).habitId == c.habitId && f(c).date == c.date
    ensures UniqueKeys(MapById(cs, id, f))
  {
  }

  /** Filtering keeps the keys unique. */
  lemma {:induction false} FilterKeepsUniqueKeys(cs: seq<HabitCompletion>, keep: HabitCompletion -> bool)
    requires UniqueKeys(cs)
    ensures UniqueKeys(Filter(cs, keep))
  {
    var ok := (a: HabitCompletion, b: HabitCompletion) => !(a.habitId == b.habitId && a.date == b.date);
    assert Pairwise(cs, ok);
    FilterPairwise(cs, keep, ok);
  }

  /** Every action but ADD_COMPLETION keeps at most one entry per (habit, day)
      (LOAD_DATA when the loaded ledger has that property). */
  lemma {:induction false} ReducerKeepsUniqueKeys(state: HabitState, action: HabitAction, env: Env)
    requires UniqueKeys(state.completions)
    requires !action.AddCompletion?
    requires action.LoadData? ==> UniqueKeys(action.completions)
    ensures UniqueKeys(HabitReducer(state, action, env).completions)
  {
    match action
    case DeleteHabit(habitId) =>
      FilterKeepsUniqueKeys(state.completions, NotOfHabit(habitId));
    case ToggleHabit(habitId, date) =>
      var found := FindFirst(state.completions, EntryFor(habitId, date));
      if found.Some? {
        MapKeepsUniqueKeys(state.completions, found.value.id, Flipped(env.now));
      }
    case UpdateHabitCount(habitId, date, count) =>
      var found := FindFirst(state.completions, EntryFor(habitId, date));
      if found.Some? {
        MapKeepsUniqueKeys(state.completions, found.value.id, Recounted(count, env.now));
      }
    case _ =>
  }

  /** ADD_COMPLETION appends the given entry unchanged and touches nothing else. */
  lemma {:induction false} AddCompletionAppends(state: HabitState, completion: HabitCompletion, env: Env)
    ensures var next := HabitReducer(state, AddCompletion(completion), env);
      |next.completions| == |state.completions| + 1
      && next.completions[..|state.completions|] == state.completions
      && next.completions[|state.completions|] == completion
      && next.habits == state.habits && next.isLoading == state.isLoading
  {
  }

  /** On a ledger with one entry per habit and day, ADD_COMPLETION keeps that property
      exactly when the ledger has no entry for the new entry's habit and day. */
  lemma {:induction false} AddCompletionKeepsUniqueKeysIff(state: HabitState, completion: HabitCompletion, env: Env)
    requires UniqueKeys(state.completions)
    ensures UniqueKeys(HabitReducer(state, AddCompletion(completion), env).completions)
      <==> forall i :: 0 <= i < |state.completions| ==>
             !(state.completions[i].habitId == completion.habitId && state.completions[i].date == completion.date)
  {
    var cs := state.completions;
    var next := cs + [completion];
    assert HabitReducer(state, AddCompletion(completion), env).completions == next;
    assert forall i :: 0 <= i < |cs| ==> next[i] == cs[i];
    if UniqueKeys(next) {
      forall i | 0 <= i < |cs|
        ensures !(cs[i].habitId == completion.habitId && cs[i].date == completion.date)
      {
        assert next[|cs|] == completion;
      }
    } else {
      var i, j :| 0 <= i < j < |next| && next[i].habitId == next[j].habitId && next[i].date == next[j].date;
      if j < |cs| {
        assert false;
      }
      assert next[j] == completion && next[i] == cs[i];
    }
  }

  /** ADD_COMPLETION appends unconditionally: a second entry for a (habit, day) that
      already has one breaks the one-entry-per-day property. */
  lemma {:induction false} AddCompletionCanDuplicate()
    ensures var entry := HabitCompletion("c1", "h1", CivilDate(2025, 1, 6), true, 1, 0, None);
      var state := HabitState([], [entry], false);
      var next := HabitReducer(state, AddCompletion(entry.(id := "c2")), Env("c3", 0));
      UniqueKeys(state.completions) && !UniqueKeys(next.completions)
  {
    var entry := HabitCompletion("c1", "h1", CivilDate(2025, 1, 6), true, 1, 0, None);
    var next := HabitReducer(HabitState([], [entry], false), AddCompletion(entry.(id := "c2")), Env("c3", 0));
    assert next.completions[0].date == next.completions[1].date;
  }

  /** With fresh generated ids, every action but ADD_COMPLETION keeps entry ids unique
      (LOAD_DATA when the loaded ledger has that property). */
  lemma {:induction false} ReducerKeepsUniqueIds(state: HabitState, action: HabitAction, env: Env)
    requires UniqueIds(state.completions) && FreshFor(env, state.completions)
    requires !action.AddCompletion?
    requires action.LoadData? ==> UniqueIds(action.completions)
    ensures UniqueIds(HabitReducer(state, action, env).completions)
  {
    match action
    case DeleteHabit(habitId) =>
      var cs := state.completions;
      var r := Filter(cs, NotOfHabit(habitId));
      UniqueIdsFilter(cs, NotOfHabit(habitId));
    case ToggleHabit(habitId, date) =>
      var found := FindFirst(state.completions, EntryFor(habitId, date));
      if found.Some? {
        MapByIdKeepsUniqueIds(state.completions, found.value.id, Flipped(env.now));
      } else {
        AppendFreshKeepsUniqueIds(state.completions, NewEntry(habitId, date, 1, env));
      }
    case UpdateHabitCount(habitId, date, count) =>
      var found := FindFirst(state.completions, EntryFor(habitId, date));
      if found.Some? {
        MapByIdKeepsUniqueIds(state.completions, found.value.id, Recounted(count, env.now));
      } else if count > 0 {
        AppendFreshKeepsUniqueIds(state.completions, NewEntry(habitId, date, count, env));
      }
    case _ =>
  }

  /** Rewriting entries without changing their ids keeps the ids unique. */
  lemma {:induction false} MapByIdKeepsUniqueIds(cs: seq<HabitCompletion>, id: string, f: HabitCompletion -> HabitCompletion)
    requires UniqueIds(cs) && forall c: HabitCompletion :: f(c).id == c.id
    ensures UniqueIds(MapById(cs, id, f))
  {
    var r := MapById(cs, id, f);
    assert forall i :: 0 <= i < |cs| ==> r[i].id == cs[i].id;
  }

  /** Appending an entry whose id is new keeps the ids unique. */
  lemma {:induction false} AppendFreshKeepsUniqueIds(cs: seq<HabitCompletion>, c: HabitCompletion)
    requires UniqueIds(cs) && forall i :: 0 <= i < |cs| ==> cs[i].id != c.id
    ensures UniqueIds(cs + [c])
  {
    var r := cs + [c];
    assert forall i :: 0 <= i < |cs| ==> r[i] == cs[i];
  }

  /** Filtering keeps the ids unique. */
  lemma {:induction false} UniqueIdsFilter(cs: seq<HabitCompletion>, keep: HabitCompletion -> bool)
    requires UniqueIds(cs)
    ensures UniqueIds(Filter(cs, keep))
  {
    var ok := (a: HabitCompletion, b: HabitCompletion) => a.id != b.id;
    assert Pairwise(cs, ok);
    FilterPairwise(cs, keep, ok);
  }

  /* ---------------------------------------------------------------------------------
     The provider.
     --------------------------------------------------------------------------------- */

  /** A habit built from a template, with a generated id and both timestamps set to now. */
  function NewHabit(data: HabitData, id: HabitId, now: Instant): (h: Habit)
    ensures h.id == id && h.createdAt == now && h.updatedAt == now
    ensures HabitData(h.name, h.description, h.color, h.icon, h.frequency, h.targetCount, h.isActive) == data
  {
    Habit(id, data.name, data.description, data.color, data.icon, data.frequency,
          data.targetCount, data.isActive, now, now)
  }

  /** `HabitProvider`: the reducer's state, updated in place by each dispatched action. */
  class HabitProvider {
    var habits: seq<Habit>
    var completions: seq<HabitCompletion>
    var isLoading: bool

    function State(): HabitState
      reads this
    {
      HabitState(habits, completions, isLoading)
    }

    constructor ()
      ensures State() == InitialState()
    {
      habits := [];
      completions := [];
      isLoading := true;
    }

    method Dispatch(action: HabitAction, env: Env)
      modifies this
      ensures State() == HabitReducer(old(State()), action, env)
    {
      var next := HabitReducer(State(), action, env);
      habits := next.habits;
      completions := next.completions;
      isLoading := next.isLoading;
    }

    /** The mount effect: the stored collections are loaded and loading ends. */
    method Load(storedHabits: seq<Habit>, storedCompletions: seq<HabitCompletion>, env: Env)
      modifies this
      ensures habits == storedHabits && completions == storedCompletions && !isLoading
    {
      Dispatch(LoadData(storedHabits, storedCompletions), env);
    }

    /** `addHabit`: a new habit from the caller's data, appended at the end. */
    method AddHabit(habitData: HabitData, id: HabitId, env: Env)
      modifies this
      ensures habits == old(habits) + [NewHabit(habitData, id, env.now)]
      ensures completions == old(completions) && isLoading == old(isLoading)
    {
      Dispatch(HabitAction.AddHabit(NewHabit(habitData, id, env.now)), env);
    }

    /** `updateHabit`: the habit, stamped with the current time, replaces its namesakes. */
    method UpdateHabit(habit: Habit, env: Env)
      modifies this
      ensures habits == ReplaceHabit(old(habits), habit.(updatedAt := env.now))
      ensures completions == old(completions) && isLoading == old(isLoading)
    {
      Dispatch(HabitAction.UpdateHabit(habit.(updatedAt := env.now)), env);
    }

    /** `deleteHabit`: the habit and all its entries go. */
    method DeleteHabit(habitId: HabitId, env: Env)
      modifies this
      ensures habits == Filter(old(habits), OtherThan(habitId))
      ensures completions == Filter(old(completions), NotOfHabit(habitId))
      ensures isLoading == old(isLoading)
    {
      Dispatch(HabitAction.DeleteHabit(habitId), env);
    }

    /** `toggleHabit`: the day defaults to today. */
    method ToggleHabit(habitId: HabitId, date: Option<Date>, today: Date, env: Env)
      modifies this
      ensures completions == ToggleCompletions(old(completions), habitId,
                                               if date.Some? then date.value else today, env)
      ensures habits == old(habits) && isLoading == old(isLoading)
    {
      var day := if date.Some? then date.value else today;
      Dispatch(HabitAction.ToggleHabit(habitId, day), env);
    }

    /** `updateHabitCount`: the day defaults to today. */
    method UpdateHabitCount(habitId: HabitId, count: int, date: Option<Date>, today: Date, env: Env)
      modifies this
      ensures completions == UpdateCountCompletions(old(completions), habitId,
                                                    if date.Some? then date.value else today, count, env)
      ensures habits == old(habits) && isLoading == old(isLoading)
    {
      var day := if date.Some? then date.value else today;
      Dispatch(HabitAction.UpdateHabitCount(habitId, day, count), env);
    }

    /** `initializeDefaultHabits`: adds every starter template in order, each with the
        next generated id. */
    method InitializeDefaultHabits(ids: seq<HabitId>, now: Instant)
      requires |ids| == |DefaultHabits()|
      modifies this
      ensures |habits| == |old(habits)| + |DefaultHabits()| && habits[..|old(habits)|] == old(habits)
      ensures forall i :: 0 <= i < |ids| ==> habits[|old(habits)| + i] == NewHabit(DefaultHabits()[i], ids[i], now)
      ensures completions == old(completions) && isLoading == old(isLoading)
    {
      var templates := DefaultHabits();
      var i := 0;
      while i < |templates|
        invariant 0 <= i <= |templates|
        invariant |habits| == |old(habits)| + i && habits[..|old(habits)|] == old(habits)
        invariant forall j :: 0 <= j < i ==> habits[|old(habits)| + j] == NewHabit(templates[j], ids[j], now)
        invariant completions == old(completions) && isLoading == old(isLoading)
      {
        AddHabit(templates[i], ids[i], Env(ids[i], now));
        i := i + 1;
      }
    }
  }
}
