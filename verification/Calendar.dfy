/**
 The UTC calendar: dates, times of day, their order and the weekday.
 */
module Calendar {

  datatype Time = Time(year: int, month: int, day: int, hour: int, minute: int, second: int)

  predicate Leap(year: int) { year % 4 == 0 && (year % 100 != 0 || year % 400 == 0) }

  function DaysIn(year: int, month: int): nat {
    if month == 2 then (if Leap(year) then 29 else 28)
    else if month in {4, 6, 9, 11} then 30 else 31
  }

  predicate Valid(t: Time) {
    && t.year >= 1 && 1 <= t.month <= 12 && 1 <= t.day <= DaysIn(t.year, t.month)
    && 0 <= t.hour < 24 && 0 <= t.minute < 60 && 0 <= t.second < 60
  }

  /** The order of instants, field by field. */
  predicate Before(a: Time, b: Time) {
    a.year < b.year || (a.year == b.year && (
    a.month < b.month || (a.month == b.month && (
    a.day < b.day || (a.day == b.day && (
    a.hour < b.hour || (a.hour == b.hour && (
    a.minute < b.minute || (a.minute == b.minute && a.second < b.second)))))))))
  }

  // ---------- the day number and what follows from it ----------

  function DaysBeforeYear(year: int): int
    requires year >= 1
  {
    365 * (year - 1) + (year - 1) / 4 - (year - 1) / 100 + (year - 1) / 400
  }

  function DaysBeforeMonth(year: int, month: int): nat
    requires 1 <= month <= 13
    decreases month
  {
    if month == 1 then 0 else DaysBeforeMonth(year, month - 1) + DaysIn(year, month - 1)
  }

  /** Days since 1 January of year 1, which was a Monday. */
  function DayNumber(year: int, month: int, day: int): int
    requires year >= 1 && 1 <= month <= 12
  {
    DaysBeforeYear(year) + DaysBeforeMonth(year, month) + day - 1
  }

  function Weekday(year: int, month: int, day: int): int
    requires year >= 1 && 1 <= month <= 12
  {
    (DayNumber(year, month, day) + 1) % 7
  }

  function Seconds(t: Time): int
    requires Valid(t)
  {
    DayNumber(t.year, t.month, t.day) * 86400 + t.hour * 3600 + t.minute * 60 + t.second
  }

  lemma YearLength(year: int)
    requires year >= 1
    ensures DaysBeforeYear(year + 1) == DaysBeforeYear(year) + DaysBeforeMonth(year, 13)
  {
    assert DaysBeforeMonth(year, 3) == 31 + DaysIn(year, 2);
    assert DaysBeforeMonth(year, 5) == DaysBeforeMonth(year, 3) + 61;
    assert DaysBeforeMonth(year, 7) == DaysBeforeMonth(year, 5) + 61;
    assert DaysBeforeMonth(year, 9) == DaysBeforeMonth(year, 7) + 62;
    assert DaysBeforeMonth(year, 11) == DaysBeforeMonth(year, 9) + 61;
    assert DaysBeforeMonth(year, 13) == DaysBeforeMonth(year, 11) + 61;
    LeapDays(year);
  }

  lemma LeapDays(year: int)
    requires year >= 1
    ensures year / 4 - year / 100 + year / 400 ==
      (year - 1) / 4 - (year - 1) / 100 + (year - 1) / 400 + if Leap(year) then 1 else 0
  {
    NextQuotient(year, 4);
    NextQuotient(year, 100);
    NextQuotient(year, 400);
    Multiples(year);
  }

  lemma Multiples(year: int)
    ensures (year % 400 == 0 ==> year % 100 == 0) && (year % 100 == 0 ==> year % 4 == 0)
  {
  }

  lemma NextQuotient(x: int, m: int)
    requires x >= 1 && m in {4, 100, 400}
    ensures x / m == (x - 1) / m + if x % m == 0 then 1 else 0
  {
  }

  /** The day after. */
  function NextDate(t: Time): Time
    requires Valid(t)
  {
    if t.day < DaysIn(t.year, t.month) then t.(day := t.day + 1)
    else if t.month < 12 then t.(month := t.month + 1, day := 1)
    else t.(year := t.year + 1, month := 1, day := 1)
  }

  /** The day after has the next day number. */
  lemma NextDateIsNext(t: Time)
    requires Valid(t)
    ensures Valid(NextDate(t))
    ensures var u := NextDate(t);
      DayNumber(u.year, u.month, u.day) == DayNumber(t.year, t.month, t.day) + 1
  {
    if t.day == DaysIn(t.year, t.month) && t.month == 12 {
      YearLength(t.year);
    }
  }

  /** Days whose weekday is known: 1 January 1970 was a Thursday, 29 February 2000 a Tuesday, 31 December 1999 a
      Friday. */
  lemma KnownWeekdays()
    ensures Weekday(1970, 1, 1) == 4 && Weekday(2000, 2, 29) == 2 && Weekday(1999, 12, 31) == 5
  {
    assert DaysBeforeMonth(1999, 4) == 90 && DaysBeforeMonth(1999, 8) == 212 && DaysBeforeMonth(1999, 12) == 334;
  }

  /** The month lengths, in leap years and others. */
  lemma KnownMonths(year: int)
    ensures DaysIn(year, 1) == DaysIn(year, 3) == DaysIn(year, 5) == DaysIn(year, 7) == 31
    ensures DaysIn(year, 8) == DaysIn(year, 10) == DaysIn(year, 12) == 31
    ensures DaysIn(year, 4) == DaysIn(year, 6) == DaysIn(year, 9) == DaysIn(year, 11) == 30
    ensures DaysIn(year, 2) == 28 || DaysIn(year, 2) == 29
    ensures DaysIn(1900, 2) == 28 && DaysIn(2000, 2) == 29 && DaysIn(2023, 2) == 28 && DaysIn(2024, 2) == 29
  {
  }

  /** And so the next weekday: Sunday, 0, follows Saturday, 6. */
  lemma NextWeekday(t: Time)
    requires Valid(t)
    ensures var u, w := NextDate(t), Weekday(t.year, t.month, t.day);
      Valid(u) && Weekday(u.year, u.month, u.day) == if w == 6 then 0 else w + 1
  {
    NextDateIsNext(t);
    hide DayNumber;
    NextOfSeven(DayNumber(t.year, t.month, t.day) + 1);
  }

  lemma NextOfSeven(n: int)
    ensures (n + 1) % 7 == if n % 7 == 6 then 0 else n % 7 + 1
  {
  }

  lemma {:induction false} MonthsGrow(year: int, a: int, b: int)
    requires 1 <= a < b <= 13
    ensures DaysBeforeMonth(year, a) + DaysIn(year, a) <= DaysBeforeMonth(year, b)
    decreases b
  {
    if a + 1 < b {
      MonthsGrow(year, a, b - 1);
    }
  }

  lemma {:induction false} YearsGrow(a: int, b: int)
    requires 1 <= a < b
    ensures DaysBeforeYear(a) + DaysBeforeMonth(a, 13) <= DaysBeforeYear(b)
    decreases b
  {
    YearLength(b - 1);
    if a + 1 < b {
      YearsGrow(a, b - 1);
    }
  }

  lemma DatesGrow(a: Time, b: Time)
    requires Valid(a) && Valid(b)
    requires a.year < b.year || (a.year == b.year && (a.month < b.month || (a.month == b.month && a.day < b.day)))
    ensures DayNumber(a.year, a.month, a.day) < DayNumber(b.year, b.month, b.day)
  {
    MonthsGrow(a.year, a.month, 13);
    if a.year < b.year {
      YearsGrow(a.year, b.year);
    } else if a.month < b.month {
      MonthsGrow(a.year, a.month, b.month);
    }
  }

  /** The field-by-field order is the order of instants. */
  lemma BeforeIsEarlier(a: Time, b: Time)
    requires Valid(a) && Valid(b)
    ensures Before(a, b) <==> Seconds(a) < Seconds(b)
  {
    if a.year != b.year || a.month != b.month || a.day != b.day {
      if Before(a, b) { DatesGrow(a, b); } else { DatesGrow(b, a); }
    }
  }

  // ---------- moving on to the start of the next unit ----------

  function MonthStart(t: Time): Time { Time(t.year, t.month, 1, 0, 0, 0) }

  function DayStart(t: Time): Time { Time(t.year, t.month, t.day, 0, 0, 0) }

  function AddMonth(t: Time): Time {
    if t.month < 12 then t.(month := t.month + 1) else t.(year := t.year + 1, month := 1)
  }

  function AddHour(t: Time): Time
    requires Valid(t)
  {
    if t.hour < 23 then t.(hour := t.hour + 1) else NextDate(t).(hour := 0)
  }

  function AddMinute(t: Time): Time
    requires Valid(t)
  {
    if t.minute < 59 then t.(minute := t.minute + 1) else AddHour(t).(minute := 0)
  }

  function AddSecond(t: Time): Time
    requires Valid(t)
  {
    if t.second < 59 then t.(second := t.second + 1) else AddMinute(t).(second := 0)
  }

  lemma AddHourIsNext(t: Time)
    requires Valid(t)
    ensures Valid(AddHour(t)) && Seconds(AddHour(t)) == Seconds(t) + 3600
    ensures AddHour(t).minute == t.minute && AddHour(t).second == t.second
  {
    NextDateIsNext(t);
    hide DayNumber;
  }

  lemma AddMinuteIsNext(t: Time)
    requires Valid(t)
    ensures Valid(AddMinute(t)) && Seconds(AddMinute(t)) == Seconds(t) + 60 && AddMinute(t).second == t.second
  {
    AddHourIsNext(t);
    hide DayNumber, AddHour;
  }

  /** Adding a second gives the next instant. */
  lemma AddSecondIsNext(t: Time)
    requires Valid(t)
    ensures Valid(AddSecond(t)) && Seconds(AddSecond(t)) == Seconds(t) + 1
  {
    AddMinuteIsNext(t);
    hide DayNumber, AddMinute;
  }
}
