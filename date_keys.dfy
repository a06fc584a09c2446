/** Date keys and week expansion of lib/habit-utils.ts: `formatDateKey` renders a day as
    its zero-padded `yyyy-MM-dd` key, `getTodayKey` renders the current day, and
    `getWeekDates` expands a day to the Monday-to-Sunday week that contains it. */
module DateKeys {
  import opened Wrappers
  import opened Calendar

  predicate IsDigit(c: char) {
    '0' <= c <= '9'
  }

  predicate AllDigits(s: string) {
    forall i :: 0 <= i < |s| ==> IsDigit(s[i])
  }

  function DigitChar(n: int): (c: char)
    requires 0 <= n <= 9
    ensures IsDigit(c)
  {
    ('0' as int + n) as char
  }

  function Pow10(width: nat): (p: nat)
    ensures p >= 1
  {
    if width == 0 then 1 else 10 * Pow10(width - 1)
  }

  /** The number a string of decimal digits denotes. */
  function ReadDigits(s: string): nat
    requires AllDigits(s)
  {
    if s == [] then 0 else ReadDigits(s[..|s| - 1]) * 10 + (s[|s| - 1] as int - '0' as int)
  }

  /** n in decimal, left-padded with zeros to exactly `width` digits. */
  function Padded(n: nat, width: nat): (s: string)
    requires n < Pow10(width)
    ensures |s| == width && AllDigits(s)
    ensures ReadDigits(s) == n
  {
    if width == 0 then ""
    else
      var s := Padded(n / 10, width - 1) + [DigitChar(n % 10)];
      assert s[..|s| - 1] == Padded(n / 10, width - 1);
      s
  }

  /** Padding a digit string's value back to its length gives the string itself. */
  lemma {:induction false} PaddedReadDigits(s: string)
    requires AllDigits(s)
    ensures ReadDigits(s) < Pow10(|s|)
    ensures Padded(ReadDigits(s), |s|) == s
  {
    if s != [] {
      var init := s[..|s| - 1];
      var digit := s[|s| - 1] as int - '0' as int;
      PaddedReadDigits(init);
      var n := ReadDigits(s);
      assert n == ReadDigits(init) * 10 + digit;
      DivModTen(ReadDigits(init), digit, |init|);
      assert DigitChar(digit) == s[|s| - 1];
      assert Padded(n, |s|) == Padded(ReadDigits(init), |init|) + [DigitChar(digit)];
      assert s == init + [s[|s| - 1]];
    }
  }

  /** The last decimal digit and the rest of a number, and the width they need. */
  lemma {:induction false} DivModTen(rest: nat, digit: int, width: nat)
    requires 0 <= digit <= 9 && rest < Pow10(width)
    ensures (rest * 10 + digit) / 10 == rest && (rest * 10 + digit) % 10 == digit
    ensures rest * 10 + digit < Pow10(width + 1)
  {
  }

  /** Days whose key has the four-digit year of the `yyyy-MM-dd` format. */
  predicate HasKey(d: Date) {
    1 <= d.year <= 9999
  }

  /** date-fns `format(date, 'yyyy-MM-dd')`. */
  function FormatDateKey(d: Date): (key: string)
    requires HasKey(d)
    ensures |key| == 10 && key[4] == '-' && key[7] == '-'
    ensures AllDigits(key[..4]) && AllDigits(key[5..7]) && AllDigits(key[8..])
    ensures key[..4] == Padded(d.year, 4) && key[5..7] == Padded(d.month, 2) && key[8..] == Padded(d.day, 2)
  {
    var key := Padded(d.year, 4) + "-" + Padded(d.month, 2) + "-" + Padded(d.day, 2);
    assert key[..4] == Padded(d.year, 4) && key[5..7] == Padded(d.month, 2) && key[8..] == Padded(d.day, 2);
    key
  }

  /** Reads a `yyyy-MM-dd` key back into a calendar day; None for anything that is not
      the key of a real day. */
  function ParseDateKey(s: string): Option<Date> {
    if |s| == 10 && s[4] == '-' && s[7] == '-'
       && AllDigits(s[..4]) && AllDigits(s[5..7]) && AllDigits(s[8..]) then
      var d := CivilDate(ReadDigits(s[..4]), ReadDigits(s[5..7]), ReadDigits(s[8..]));
      if WellFormed(d) && d.year >= 1 then Some(d) else None
    else None
  }

  /** Every day with a key reads back from its key. */
  lemma {:induction false} ParseFormatRoundTrip(d: Date)
    requires HasKey(d)
    ensures ParseDateKey(FormatDateKey(d)) == Some(d)
  {
    var key := FormatDateKey(d);
    assert key[..4] == Padded(d.year, 4) && key[5..7] == Padded(d.month, 2) && key[8..] == Padded(d.day, 2);
  }

  /** The only strings that parse are the keys themselves: parsing then formatting
      gives the string back. */
  lemma {:induction false} FormatParseRoundTrip(s: string, d: Date)
    requires ParseDateKey(s) == Some(d)
    ensures HasKey(d) && FormatDateKey(d) == s
  {
    var year, month, day := s[..4], s[5..7], s[8..];
    ParsedFields(s, d);
    var key := FormatDateKey(d);
    assert key[..4] == year && key[5..7] == month && key[8..] == day;
    SameKeyParts(key, s);
  }

  /** A parsed day's fields are its digit groups, each of which pads back to itself. */
  lemma {:induction false} ParsedFields(s: string, d: Date)
    requires ParseDateKey(s) == Some(d)
    ensures |s| == 10 && s[4] == '-' && s[7] == '-' && HasKey(d)
    ensures Padded(d.year, 4) == s[..4] && Padded(d.month, 2) == s[5..7] && Padded(d.day, 2) == s[8..]
  {
    PaddedReadDigits(s[..4]);
    PaddedReadDigits(s[5..7]);
    PaddedReadDigits(s[8..]);
    assert Pow10(4) == 10000;
  }

  /** Two 10-character keys with dashes at 4 and 7 are equal when their three digit
      groups are. */
  lemma {:induction false} SameKeyParts(a: string, b: string)
    requires |a| == 10 && |b| == 10 && a[4] == b[4] && a[7] == b[7]
    requires a[..4] == b[..4] && a[5..7] == b[5..7] && a[8..] == b[8..]
    ensures a == b
  {
    forall i | 0 <= i < 10 ensures a[i] == b[i] {
      if i < 4 {
        assert a[i] == a[..4][i] && b[i] == b[..4][i];
      } else if 5 <= i < 7 {
        assert a[i] == a[5..7][i - 5] && b[i] == b[5..7][i - 5];
      } else if 8 <= i {
        assert a[i] == a[8..][i - 8] && b[i] == b[8..][i - 8];
      }
    }
  }

  /** Two days get the same key exactly when they are the same calendar day. */
  lemma {:induction false} FormatDateKeyInjective(a: Date, b: Date)
    requires HasKey(a) && HasKey(b)
    ensures FormatDateKey(a) == FormatDateKey(b) <==> a == b
  {
    ParseFormatRoundTrip(a);
    ParseFormatRoundTrip(b);
  }

  /** `getTodayKey`: the key of the current day, read from the clock by the source and
      passed in here. */
  function TodayKey(today: Date): (key: string)
    requires HasKey(today)
    ensures |key| == 10
    ensures ParseDateKey(key) == Some(today)
  {
    ParseFormatRoundTrip(today);
    FormatDateKey(today)
  }

  /** The Monday that starts date's week (date-fns startOfWeek with weekStartsOn: 1). */
  function StartOfWeek(date: Date): (monday: Date)
    ensures Weekday(monday) == 0
    ensures DayNumber(monday) <= DayNumber(date) < DayNumber(monday) + 7
  {
    var n := DayNumber(date);
    RoundDownToWeek(n);
    AddDays(date, -(n % 7))
  }

  lemma {:induction false} RoundDownToWeek(n: int)
    ensures (n - n % 7) % 7 == 0
  {
    assert n - n % 7 == 7 * (n / 7);
  }

  lemma {:induction false} ShiftInWeek(n: int, i: int)
    requires n % 7 == 0 && 0 <= i < 7
    ensures (n + i) % 7 == i
  {
    assert n + i == 7 * (n / 7) + i;
  }

  /** The i-th day after a Monday is weekday i. */
  lemma {:induction false} WeekdayAfterMonday(monday: Date, i: int)
    requires Weekday(monday) == 0 && 0 <= i < 7
    ensures Weekday(AddDays(monday, i)) == i
  {
    var later := AddDays(monday, i);
    var n := DayNumber(monday);
    assert DayNumber(later) == n + i;
    ShiftInWeek(n, i);
  }

  /** The seven days starting at `monday`. */
  function WeekFrom(monday: Date): (week: seq<Date>)
    ensures |week| == 7
  {
    seq(7, i requires 0 <= i < 7 => AddDays(monday, i))
  }

  /** The days of a week from a Monday are consecutive, weekdays 0 to 6, and start at it. */
  lemma {:induction false} WeekFromFacts(monday: Date)
    requires Weekday(monday) == 0
    ensures forall i :: 0 <= i < 7 ==> DayNumber(WeekFrom(monday)[i]) == DayNumber(monday) + i
    ensures forall i :: 0 <= i < 7 ==> Weekday(WeekFrom(monday)[i]) == i
    ensures WeekFrom(monday)[0] == monday
  {
    var week := WeekFrom(monday);
    forall i | 0 <= i < 7
      ensures DayNumber(week[i]) == DayNumber(monday) + i && Weekday(week[i]) == i
    {
      WeekdayAfterMonday(monday, i);
    }
  }

  /** A day fewer than seven days after `monday` is in the week from it. */
  lemma {:induction false} WeekFromContains(monday: Date, date: Date)
    requires DayNumber(monday) <= DayNumber(date) < DayNumber(monday) + 7
    ensures date in WeekFrom(monday)
  {
    var week := WeekFrom(monday);
    var k := DayNumber(date) - DayNumber(monday);
    DayNumberInjective(week[k], date);
  }

  /** `getWeekDates`: the seven days Monday..Sunday of the week containing `date`. */
  function GetWeekDates(date: Date): (week: seq<Date>)
    ensures |week| == 7
    ensures forall i :: 0 <= i < 7 ==> DayNumber(week[i]) == DayNumber(week[0]) + i
    ensures forall i :: 0 <= i < 7 ==> Weekday(week[i]) == i
    ensures week[0] == StartOfWeek(date)
    ensures date in week
  {
    var monday := StartOfWeek(date);
    WeekFromFacts(monday);
    WeekFromContains(monday, date);
    WeekFrom(monday)
  }

  /** Any day of a week expands to that same week: the input is always re-normalised
      to its Monday. */
  lemma {:induction false} WeekOfAnyMember(date: Date, other: Date)
    requires other in GetWeekDates(date)
    ensures GetWeekDates(other) == GetWeekDates(date)
  {
    var week := GetWeekDates(date);
    var i :| 0 <= i < 7 && week[i] == other;
    DayNumberInjective(StartOfWeek(other), StartOfWeek(date));
  }
}
