/**
 Cron expressions: the times an expression matches, and the search for the next of them that skips
 whole months, days, hours and minutes.
 */
module Cron {
  import opened Calendar
  import opened Options

  /** A uint64 used as a set of bit numbers. */
  type Mask = set<int>

  datatype CronExpr = CronExpr(sec: Mask, min: Mask, hour: Mask, dom: Mask, month: Mask, dow: Mask)

  const ALL_DAYS: Mask := set i | 1 <= i <= 31      // 0xfffffffe
  const ALL_WEEKDAYS: Mask := set i | 0 <= i <= 6   // 0x7f

  /** matchDay */
  predicate MatchDay(e: CronExpr, t: Time)
    requires t.year >= 1 && 1 <= t.month <= 12
  {
    var weekday := Weekday(t.year, t.month, t.day);
    if e.dom == ALL_DAYS then weekday in e.dow
    else if e.dow == ALL_WEEKDAYS then t.day in e.dom
    else weekday in e.dow || t.day in e.dom
  }

  predicate Matches(e: CronExpr, t: Time)
    requires Valid(t)
  {
    t.month in e.month && MatchDay(e, t) && t.hour in e.hour && t.minute in e.min && t.second in e.sec
  }

  /** No instant from `first` up to, but not including, `t` matches. */
  ghost predicate NoneUntil(e: CronExpr, first: Time, t: Time) {
    forall u :: Valid(u) && !Before(u, first) && Before(u, t) ==> !Matches(e, u)
  }

  /** Once the search has skipped something, it stands at the start of the largest unit that does not
      match: the skipping of the source relies on it. */
  ghost predicate Aligned(e: CronExpr, t: Time)
    requires Valid(t)
  {
    && (t.month !in e.month ==> t == MonthStart(t))
    && (t.month in e.month && !MatchDay(e, t) ==> t == DayStart(t))
    && (t.month in e.month && MatchDay(e, t) && t.hour !in e.hour ==> t.minute == 0 && t.second == 0)
    && (t.month in e.month && MatchDay(e, t) && t.hour in e.hour && t.minute !in e.min ==> t.second == 0)
  }

  /** The state of the search. */
  ghost predicate Searching(e: CronExpr, first: Time, t: Time, skipped: bool) {
    Valid(t) && !Before(t, first) && NoneUntil(e, first, t) && (skipped ==> Aligned(e, t))
  }

  lemma SkipMonth(e: CronExpr, first: Time, t: Time)
    requires Searching(e, first, t, false) && t.month !in e.month
    ensures var t' := AddMonth(MonthStart(t));
      && Searching(e, first, t', true) && t' == MonthStart(t') && Before(t, t')
      && (t'.month != 1 ==> t'.year == t.year && t'.month == t.month + 1)
  {
    var t' := AddMonth(MonthStart(t));
    forall u | Valid(u) && !Before(u, first) && Before(u, t') ensures !Matches(e, u) {
      if !Before(u, t) { assert u.year == t.year && u.month == t.month; }
    }
  }

  lemma SkipDay(e: CronExpr, first: Time, t: Time)
    requires Searching(e, first, t, false) && t.month in e.month && !MatchDay(e, t)
    ensures var t' := NextDate(DayStart(t));
      && Searching(e, first, t', true) && t' == DayStart(t') && Before(t, t')
      && (t'.day != 1 ==> t'.year == t.year && t'.month == t.month && t'.day == t.day + 1)
  {
    var t' := NextDate(DayStart(t));
    NextDateIsNext(DayStart(t));
    forall u | Valid(u) && !Before(u, first) && Before(u, t') ensures !Matches(e, u) {
      if !Before(u, t) { assert u.year == t.year && u.month == t.month && u.day == t.day; }
    }
  }

  lemma SkipHour(e: CronExpr, first: Time, t: Time)
    requires Searching(e, first, t, false) && t.month in e.month && MatchDay(e, t) && t.hour !in e.hour
    ensures var t' := AddHour(t.(minute := 0, second := 0));
      && Searching(e, first, t', true) && t'.minute == 0 && t'.second == 0 && Before(t, t')
      && (t'.hour != 0 ==> t' == t.(hour := t.hour + 1, minute := 0, second := 0))
  {
    var t' := AddHour(t.(minute := 0, second := 0));
    NextDateIsNext(t.(minute := 0, second := 0));
    forall u | Valid(u) && !Before(u, first) && Before(u, t') ensures !Matches(e, u) {
      if !Before(u, t) { assert u.year == t.year && u.month == t.month && u.day == t.day && u.hour == t.hour; }
    }
    SameDay(e, t, t');
  }

  lemma SkipMinute(e: CronExpr, first: Time, t: Time)
    requires Searching(e, first, t, false) && t.month in e.month && MatchDay(e,
        t) && t.hour in e.hour && t.minute !in e.min
    ensures var t' := AddMinute(t.(second := 0));
      && Searching(e, first, t', true) && t'.second == 0 && Before(t, t')
      && (t'.minute != 0 ==> t' == t.(minute := t.minute + 1, second := 0))
  {
    var t' := AddMinute(t.(second := 0));
    NextDateIsNext(t.(second := 0));
    forall u | Valid(u) && !Before(u, first) && Before(u, t') ensures !Matches(e, u) {
      if !Before(u, t) {
        assert u.year == t.year && u.month == t.month && u.day == t.day && u.hour == t.hour && u.minute == t.minute;
      }
    }
    SameDay(e, t, t');
  }

  lemma SkipSecond(e: CronExpr, first: Time, t: Time)
    requires Searching(e, first, t, false) && t.month in e.month && MatchDay(e,
        t) && t.hour in e.hour && t.minute in e.min
    requires t.second !in e.sec
    ensures var t' := AddSecond(t);
      && Searching(e, first, t', true) && Before(t, t')
      && (t'.second != 0 ==> t' == t.(second := t.second + 1))
  {
    var t' := AddSecond(t);
    NextDateIsNext(t);
    forall u | Valid(u) && !Before(u, first) && Before(u, t') ensures !Matches(e, u) {
      if !Before(u, t) { assert u == t; }
    }
    SameDay(e, t, t');
  }

  /** Times on the same day match the same way. */
  lemma SameDay(e: CronExpr, t: Time, t': Time)
    requires Valid(t) && Valid(t')
    ensures t.year == t'.year && t.month == t'.month && t.day == t'.day ==> MatchDay(e, t) == MatchDay(e, t')
  {
  }

  /** The year, month and day do not change. */
  predicate SameDate(t: Time, t': Time) { t.year == t'.year && t.month == t'.month && t.day == t'.day }

  /** The month loop of Next. */
  method FindMonth(e: CronExpr, ghost first: Time, start: Time, skipped: bool)
    returns (t: Time, skipped': bool, retry: bool)
    requires Searching(e, first, start, skipped)
    ensures Searching(e, first, t, skipped') && !Before(t, start)
    ensures retry ==> Before(start, t) && t.year <= start.year + 1
    ensures !retry ==> t.month in e.month && t.year == start.year
  {
    t, skipped', retry := start, skipped, false;
    while t.month !in e.month
      invariant Searching(e, first, t, skipped') && !Before(t, start) && t.year == start.year
      decreases 12 - t.month
    {
      hide Searching;
      SkipsMonth(e, first, t, skipped');
      if !skipped' {
        skipped' := true;
        t := MonthStart(t);
      }
      t := AddMonth(t);
      if t.month == 1 {
        retry := true;
        return;
      }
    }
  }

  lemma SkipsMonth(e: CronExpr, first: Time, t: Time, skipped: bool)
    requires Searching(e, first, t, skipped) && t.month !in e.month
    ensures skipped ==> t == MonthStart(t)
    ensures var t' := AddMonth(MonthStart(t));
      && Searching(e, first, t', true) && Before(t, t') && Valid(t) && Valid(t')
      && (t'.month != 1 ==> t'.year == t.year && t'.month == t.month + 1)
  {
    SkipMonth(e, first, t);
  }

  /** The day loop. */
  method FindDay(e: CronExpr, ghost first: Time, start: Time, skipped: bool)
    returns (t: Time, skipped': bool, retry: bool)
    requires Searching(e, first, start, skipped) && start.month in e.month
    ensures Searching(e, first, t, skipped') && !Before(t, start)
    ensures retry ==> Before(start, t) && t.year <= start.year + 1
    ensures !retry ==> t.month in e.month && MatchDay(e, t) && t.year == start.year
  {
    t, skipped', retry := start, skipped, false;
    while !MatchDay(e, t)
      invariant Searching(e, first, t, skipped') && !Before(t, start)
      invariant t.year == start.year && t.month == start.month
      decreases 31 - t.day
    {
      SkipDay(e, first, t);
      assert Valid(DayStart(t));
      hide Searching;
      if !skipped' {
        skipped' := true;
        t := DayStart(t);
      }
      t := NextDate(t);
      if t.day == 1 {
        retry := true;
        return;
      }
    }
  }

  /** The hour loop. */
  method FindHour(e: CronExpr, ghost first: Time, start: Time, skipped: bool)
    returns (t: Time, skipped': bool, retry: bool)
    requires Searching(e, first, start, skipped) && start.month in e.month && MatchDay(e, start)
    ensures Searching(e, first, t, skipped') && !Before(t, start)
    ensures retry ==> Before(start, t) && t.year <= start.year + 1
    ensures !retry ==> SameDate(t, start) && t.hour in e.hour
  {
    t, skipped', retry := start, skipped, false;
    while t.hour !in e.hour
      invariant Searching(e, first, t, skipped') && !Before(t, start) && SameDate(t, start)
      decreases 23 - t.hour
    {
      SameDay(e, start, t);
      SkipHour(e, first, t);
      if !skipped' {
        skipped' := true;
        t := t.(minute := 0, second := 0);
      }
      hide Searching;
      t := AddHour(t);
      if t.hour == 0 {
        retry := true;
        return;
      }
    }
  }

  /** The minute loop. */
  method FindMinute(e: CronExpr, ghost first: Time, start: Time, skipped: bool)
    returns (t: Time, skipped': bool, retry: bool)
    requires Searching(e, first, start, skipped) && start.month in e.month && MatchDay(e, start) && start.hour in e.hour
    ensures Searching(e, first, t, skipped') && !Before(t, start)
    ensures retry ==> Before(start, t) && t.year <= start.year + 1
    ensures !retry ==> SameDate(t, start) && t.hour == start.hour && t.minute in e.min
  {
    t, skipped', retry := start, skipped, false;
    while t.minute !in e.min
      invariant Searching(e, first, t, skipped') && !Before(t, start) && SameDate(t, start) && t.hour == start.hour
      decreases 59 - t.minute
    {
      SameDay(e, start, t);
      SkipMinute(e, first, t);
      if !skipped' {
        skipped' := true;
        t := t.(second := 0);
      }
      hide Searching;
      t := AddMinute(t);
      if t.minute == 0 {
        retry := true;
        return;
      }
    }
  }

  /** The second loop. */
  method FindSecond(e: CronExpr, ghost first: Time, start: Time, skipped: bool)
    returns (t: Time, skipped': bool, retry: bool)
    requires Searching(e, first, start, skipped) && start.month in e.month && MatchDay(e, start)
    requires start.hour in e.hour && start.minute in e.min
    ensures Searching(e, first, t, skipped') && !Before(t, start)
    ensures retry ==> Before(start, t) && t.year <= start.year + 1
    ensures !retry ==> Matches(e, t) && t.year == start.year
  {
    t, skipped', retry := start, skipped, false;
    while t.second !in e.sec
      invariant Searching(e, first, t, skipped') && !Before(t, start)
      invariant SameDate(t, start) && t.hour == start.hour && t.minute == start.minute
      decreases 59 - t.second
    {
      SameDay(e, start, t);
      SkipSecond(e, first, t);
      hide Searching;
      if !skipped' {
        skipped' := true;
      }
      t := AddSecond(t);
      if t.second == 0 {
        retry := true;
        return;
      }
    }
    SameDay(e, start, t);
  }

  /** The instants after `t` are those from the next second on. */
  lemma AfterIsFrom(t: Time, u: Time)
    requires Valid(t) && Valid(u)
    ensures Valid(AddSecond(t)) && (Before(t, u) <==> !Before(u, AddSecond(t)))
  {
    AddSecondIsNext(t);
    BeforeIsEarlier(t, u);
    BeforeIsEarlier(u, AddSecond(t));
  }

  /** Next: the least instant after `t0` that matches, or None (the zero time of the source) exactly if
      there is none up to the end of the year after the one the search starts in. */
  method Next(e: CronExpr, t0: Time) returns (r: Option<Time>)
    requires Valid(t0)
    ensures r.Some? ==>
      && Valid(r.value) && Matches(e, r.value) && Before(t0, r.value)
      && r.value.year <= AddSecond(t0).year + 1
      && forall u :: Valid(u) && Before(t0, u) && Before(u, r.value) ==> !Matches(e, u)
    ensures r.None? <==> forall u :: Valid(u) && Before(t0, u) && u.year <= AddSecond(t0).year + 1 ==> !Matches(e, u)
  {
    AddSecondIsNext(t0);
    ghost var first := AddSecond(t0);
    forall u | Valid(u) ensures Before(t0, u) <==> !Before(u, first) { AfterIsFrom(t0, u); }
    var t := AddSecond(t0);
    var year := t.year;
    var skipped := false;
    while true
      invariant Searching(e, first, t, skipped) && t.year <= year + 2
      decreases year + 2 - t.year, 12 - t.month, 31 - t.day, 23 - t.hour, 59 - t.minute, 59 - t.second
    {
      if t.year > year + 1 {
        return None;
      }
      hide Searching, Matches, MatchDay;
      var retry;
      ghost var start := t;
      t, skipped, retry := FindMonth(e, first, t, skipped);
      if !retry {
        t, skipped, retry := FindDay(e, first, t, skipped);
        if !retry {
          t, skipped, retry := FindHour(e, first, t, skipped);
          if !retry {
            t, skipped, retry := FindMinute(e, first, t, skipped);
            if !retry {
              t, skipped, retry := FindSecond(e, first, t, skipped);
              if !retry {
                return Some(t);
              }
            }
          }
        }
      }
    }
  }
}
