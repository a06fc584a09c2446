/** The local, timezone-naive proleptic Gregorian calendar that the habit tracker
    reads through its date library: calendar days, day arithmetic and weekdays.
    Days are numbered from 0001-01-01 (day 0, a Monday). */
module Calendar {

  datatype CivilDate = CivilDate(year: int, month: int, day: int)

  predicate IsLeapYear(y: int) {
    y % 4 == 0 && (y % 100 != 0 || y % 400 == 0)
  }

  function DaysInMonth(y: int, m: int): int
    requires 1 <= m <= 12
  {
    if m == 2 then (if IsLeapYear(y) then 29 else 28)
    else if m == 4 || m == 6 || m == 9 || m == 11 then 30
    else 31
  }

  function DaysInYear(y: int): int {
    if IsLeapYear(y) then 366 else 365
  }

  predicate WellFormed(d: CivilDate) {
    1 <= d.month <= 12 && 1 <= d.day <= DaysInMonth(d.year, d.month)
  }

  /** A real calendar day (any year; month and day in range). */
  type Date = d: CivilDate | WellFormed(d) witness CivilDate(1, 1, 1)

  /** Days in the years from 1 up to, not including, y (negative for y < 1). */
  function DaysBeforeYear(y: int): int
    decreases if y >= 1 then y - 1 else 1 - y
  {
    if y == 1 then 0
    else if y > 1 then DaysBeforeYear(y - 1) + DaysInYear(y - 1)
    else DaysBeforeYear(y + 1) - DaysInYear(y)
  }

  /** The leap-year rule in closed form: from year 1, every fourth year is leap, except
      every hundredth, except every four hundredth. */
  function LeapDayFormula(y: int): int {
    var p := y - 1;
    365 * p + p / 4 - p / 100 + p / 400
  }

  /** Days in the months of year y before month m. */
  function DaysBeforeMonth(y: int, m: int): (n: int)
    requires 1 <= m <= 12
    ensures n >= 0
  {
    if m == 1 then 0 else DaysBeforeMonth(y, m - 1) + DaysInMonth(y, m - 1)
  }

  /** The number of the day: 0 for 0001-01-01, counting up one per calendar day. */
  function DayNumber(d: Date): int {
    DaysBeforeYear(d.year) + DaysBeforeMonth(d.year, d.month) + d.day - 1
  }

  /** Day of the week, 0 = Monday through 6 = Sunday. */
  function Weekday(d: Date): (w: int)
    ensures 0 <= w < 7
  {
    DayNumber(d) % 7
  }

  lemma {:induction false} DaysBeforeYearStep(y: int)
    ensures DaysBeforeYear(y + 1) == DaysBeforeYear(y) + DaysInYear(y)
  {
  }

  /** Counting year by year agrees with the closed leap-year formula. */
  lemma {:induction false} DaysBeforeYearFormula(y: int)
    requires y >= 1
    ensures DaysBeforeYear(y) == LeapDayFormula(y)
    decreases y
  {
    if y > 1 {
      DaysBeforeYearFormula(y - 1);
      FormulaStep(y - 1);
    }
  }

  /** The closed formula grows by the length of each year. */
  lemma {:induction false} FormulaStep(y: int)
    ensures LeapDayFormula(y + 1) == LeapDayFormula(y) + DaysInYear(y)
  {
    QuarterStep(y);
    CenturyStep(y);
    QuadricentennialStep(y);
    if y % 400 == 0 {
      QuadricentennialIsCentury(y);
    }
    if y % 100 == 0 {
      CenturyIsLeapCandidate(y);
    }
  }

  /** The leap-day count up to y - 1 and up to y differ by one exactly in multiples of 4. */
  lemma {:induction false} QuarterStep(y: int)
    ensures y / 4 - (y - 1) / 4 == if y % 4 == 0 then 1 else 0
  {
    var q := y / 4;
    if y % 4 == 0 {
      assert y - 1 == 4 * (q - 1) + 3;
    } else {
      assert y - 1 == 4 * q + (y % 4 - 1);
    }
  }

  lemma {:induction false} CenturyStep(y: int)
    ensures y / 100 - (y - 1) / 100 == if y % 100 == 0 then 1 else 0
  {
    var q := y / 100;
    if y % 100 == 0 {
      assert y - 1 == 100 * (q - 1) + 99;
    } else {
      assert y - 1 == 100 * q + (y % 100 - 1);
    }
  }

  lemma {:induction false} CenturyIsLeapCandidate(y: int)
    requires y % 100 == 0
    ensures y % 4 == 0
  {
    assert y == 4 * (25 * (y / 100));
  }

  lemma {:induction false} QuadricentennialStep(y: int)
    ensures y / 400 - (y - 1) / 400 == if y % 400 == 0 then 1 else 0
  {
    var q := y / 400;
    if y % 400 == 0 {
      assert y - 1 == 400 * (q - 1) + 399;
    } else {
      assert y - 1 == 400 * q + (y % 400 - 1);
    }
  }

  lemma {:induction false} QuadricentennialIsCentury(y: int)
    requires y % 400 == 0
    ensures y % 100 == 0
  {
    assert y == 100 * (4 * (y / 400));
  }

  /** Within its year, a day's offset lies in [0, DaysInYear). */
  lemma {:induction false} DayOfYearBounds(d: Date)
    ensures 0 <= DayNumber(d) - DaysBeforeYear(d.year) < DaysInYear(d.year)
  {
    if d.month < 12 {
      DaysBeforeMonthMonotone(d.year, d.month, 12);
    }
    DaysBeforeDecember(d.year);
  }

  /** The months before December hold 334 days, one more in a leap year. */
  lemma {:induction false} DaysBeforeDecember(y: int)
    ensures DaysBeforeMonth(y, 12) + 31 == DaysInYear(y)
  {
    var leap := if IsLeapYear(y) then 1 else 0;
    assert DaysBeforeMonth(y, 2) == 31;
    assert DaysBeforeMonth(y, 3) == 59 + leap;
    assert DaysBeforeMonth(y, 4) == 90 + leap;
    assert DaysBeforeMonth(y, 5) == 120 + leap;
    assert DaysBeforeMonth(y, 6) == 151 + leap;
    assert DaysBeforeMonth(y, 7) == 181 + leap;
    assert DaysBeforeMonth(y, 8) == 212 + leap;
    assert DaysBeforeMonth(y, 9) == 243 + leap;
    assert DaysBeforeMonth(y, 10) == 273 + leap;
    assert DaysBeforeMonth(y, 11) == 304 + leap;
    assert DaysBeforeMonth(y, 12) == 334 + leap;
  }

  /** Earlier months hold fewer days before them, by at least their own length. */
  lemma {:induction false} DaysBeforeMonthMonotone(y: int, m1: int, m2: int)
    requires 1 <= m1 < m2 <= 12
    ensures DaysBeforeMonth(y, m1) + DaysInMonth(y, m1) <= DaysBeforeMonth(y, m2)
    decreases m2 - m1
  {
    if m1 + 1 < m2 {
      DaysBeforeMonthMonotone(y, m1 + 1, m2);
    }
  }

  /** The day after d in the calendar. */
  function NextDay(d: Date): (r: Date)
    ensures DayNumber(r) == DayNumber(d) + 1
  {
    if d.day < DaysInMonth(d.year, d.month) then
      CivilDate(d.year, d.month, d.day + 1)
    else if d.month < 12 then
      CivilDate(d.year, d.month + 1, 1)
    else
      DaysBeforeDecember(d.year);
      DaysBeforeYearStep(d.year);
      CivilDate(d.year + 1, 1, 1)
  }

  /** The day before d in the calendar (date-fns subDays(d, 1)). */
  function PrevDay(d: Date): (r: Date)
    ensures DayNumber(r) == DayNumber(d) - 1
  {
    if d.day > 1 then
      CivilDate(d.year, d.month, d.day - 1)
    else if d.month > 1 then
      CivilDate(d.year, d.month - 1, DaysInMonth(d.year, d.month - 1))
    else
      DaysBeforeDecember(d.year - 1);
      DaysBeforeYearStep(d.year - 1);
      CivilDate(d.year - 1, 12, 31)
  }

  /** The day k days after d (before d when k < 0): date-fns addDays / subDays. */
  function AddDays(d: Date, k: int): (r: Date)
    ensures DayNumber(r) == DayNumber(d) + k
    decreases if k < 0 then -k else k
  {
    if k == 0 then d
    else if k > 0 then AddDays(NextDay(d), k - 1)
    else AddDays(PrevDay(d), k + 1)
  }

  /** Years earlier than y hold fewer days before them, by at least one whole year. */
  lemma {:induction false} DaysBeforeYearMonotone(y1: int, y2: int)
    requires y1 < y2
    ensures DaysBeforeYear(y1) + DaysInYear(y1) <= DaysBeforeYear(y2)
    decreases y2 - y1
  {
    DaysBeforeYearStep(y1);
    if y1 + 1 < y2 {
      DaysBeforeYearMonotone(y1 + 1, y2);
    }
  }

  /** Calendar order: the earlier date (by year, month, day) has the smaller day number. */
  predicate Before(a: Date, b: Date) {
    a.year < b.year
    || (a.year == b.year && a.month < b.month)
    || (a.year == b.year && a.month == b.month && a.day < b.day)
  }

  lemma {:induction false} BeforeHasSmallerDayNumber(a: Date, b: Date)
    requires Before(a, b)
    ensures DayNumber(a) < DayNumber(b)
  {
    if a.year < b.year {
      DayOfYearBounds(a);
      DayOfYearBounds(b);
      DaysBeforeYearMonotone(a.year, b.year);
    } else if a.month < b.month {
      DaysBeforeMonthMonotone(a.year, a.month, b.month);
    }
  }

  /** Distinct calendar days have distinct day numbers: the numbering is a bijection. */
  lemma {:induction false} DayNumberInjective(a: Date, b: Date)
    ensures DayNumber(a) == DayNumber(b) <==> a == b
  {
    if a != b {
      if Before(a, b) {
        BeforeHasSmallerDayNumber(a, b);
      } else {
        assert Before(b, a);
        BeforeHasSmallerDayNumber(b, a);
      }
    }
  }

  /** Stepping a day forward and back again returns the same day. */
  lemma {:induction false} NextPrevInverse(d: Date)
    ensures PrevDay(NextDay(d)) == d && NextDay(PrevDay(d)) == d
  {
    DayNumberInjective(PrevDay(NextDay(d)), d);
    DayNumberInjective(NextDay(PrevDay(d)), d);
  }

  /** Anchor of the numbering: 0001-01-01 and 2025-01-06 are Mondays. */
  lemma {:induction false} WeekdayAnchors()
    ensures Weekday(CivilDate(1, 1, 1)) == 0
    ensures Weekday(CivilDate(2025, 1, 6)) == 0
    ensures Weekday(CivilDate(2025, 1, 1)) == 2
  {
    DaysBeforeYearFormula(2025);
    assert DaysBeforeYear(2025) == 739251;
  }
}
