/** The record shapes of the habit tracker and its seed constants. */
module HabitTypes {
  import opened Wrappers
  import opened Calendar

  type HabitId = string

  /** A point in time (a JavaScript `Date` used as a timestamp), in milliseconds. */
  type Instant = int

  datatype Frequency = Daily | Weekly | Custom

  /** A tracked behaviour. */
  datatype Habit = Habit(
    id: HabitId,
    name: string,
    description: Option<string>,
    color: string,
    icon: string,
    frequency: Frequency,
    targetCount: int,
    isActive: bool,
    createdAt: Instant,
    updatedAt: Instant)

  /** What a caller supplies to create a habit: a habit without id and timestamps. */
  datatype HabitData = HabitData(
    name: string,
    description: Option<string>,
    color: string,
    icon: string,
    frequency: Frequency,
    targetCount: int,
    isActive: bool)

  /** One ledger record: habit `habitId` on calendar day `date`.  The source stores the
      day as its `YYYY-MM-DD` key; DateKeys.FormatDateKey is a bijection between the
      two, so the model keeps the day itself. */
  datatype HabitCompletion = HabitCompletion(
    id: string,
    habitId: HabitId,
    date: Date,
    completed: bool,
    count: int,
    timestamp: Instant,
    notes: Option<string>)

  datatype HabitStreak = HabitStreak(
    habitId: HabitId,
    currentStreak: nat,
    longestStreak: nat,
    lastCompletedDate: Option<Date>)

  datatype HabitStats = HabitStats(
    habitId: HabitId,
    totalCompletions: int,
    completionRate: real,
    averagePerWeek: real,
    streaks: HabitStreak)

  datatype HabitProgress = HabitProgress(habitId: HabitId, completed: bool, count: int)

  datatype DailyProgress = DailyProgress(
    date: string,
    habits: seq<HabitProgress>,
    completionRate: real)

  datatype WeeklyProgress = WeeklyProgress(
    weekStartDate: string,
    days: seq<DailyProgress>,
    totalHabits: nat,
    completedHabits: nat,
    completionRate: real)

  /** The starter templates seeded by initializeDefaultHabits. */
  function DefaultHabits(): (templates: seq<HabitData>)
    ensures |templates| == 6
    ensures forall i :: 0 <= i < |templates| ==>
      templates[i].targetCount >= 1 && templates[i].isActive && templates[i].frequency == Daily
    ensures forall i :: 0 <= i < |templates| ==>
      (templates[i].targetCount > 1 <==> templates[i].name == "Drink Water")
    ensures templates[0].name == "Drink Water" && templates[0].targetCount == 8
    ensures forall i, j :: 0 <= i < j < |templates| ==> templates[i].name != templates[j].name
  {
    [ HabitData("Drink Water", Some("Stay hydrated throughout the day"), "#3B82F6",
                "\U{1F4A7}", Daily, 8, true),
      HabitData("Exercise", Some("Get moving with any physical activity"), "#EF4444",
                "\U{1F3C3}\U{200D}\U{2642}\U{FE0F}", Daily, 1, true),
      HabitData("Read", Some("Read for personal growth"), "#10B981",
                "\U{1F4DA}", Daily, 1, true),
      HabitData("Meditate", Some("Practice mindfulness"), "#8B5CF6",
                "\U{1F9D8}\U{200D}\U{2640}\U{FE0F}", Daily, 1, true),
      HabitData("Sleep 8+ Hours", Some("Get quality rest"), "#F59E0B",
                "\U{1F634}", Daily, 1, true),
      HabitData("Journal", Some("Reflect on your day"), "#EC4899",
                "\U{270D}\U{FE0F}", Daily, 1, true) ]
  }

  predicate IsHexDigit(c: char) {
    '0' <= c <= '9' || 'A' <= c <= 'F' || 'a' <= c <= 'f'
  }

  /** A `#RRGGBB` colour string. */
  predicate IsHexColor(s: string) {
    |s| == 7 && s[0] == '#' && forall i :: 1 <= i < 7 ==> IsHexDigit(s[i])
  }

  /** The palette offered for new habits. */
  function HabitColors(): (palette: seq<string>)
    ensures |palette| == 10
    ensures forall i :: 0 <= i < |palette| ==> IsHexColor(palette[i])
    ensures forall i, j :: 0 <= i < j < |palette| ==> palette[i] != palette[j]
  {
    ["#3B82F6", "#EF4444", "#10B981", "#8B5CF6", "#F59E0B",
     "#EC4899", "#06B6D4", "#84CC16", "#F97316", "#6366F1"]
  }
}
