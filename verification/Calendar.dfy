/** UTC days and Gregorian months as ranges of Unix seconds, and the boundaries at which
    the quota counters reset. */
module Calendar {

  const SECS_PER_DAY: nat := 86400

  /** Months from January 1970 on. */
  datatype YearMonth = YearMonth(year: nat, month: nat)

  predicate Valid(m: YearMonth) { m.year >= 1970 && 1 <= m.month <= 12 }

  predicate IsLeap(y: nat) { y % 4 == 0 && (y % 100 != 0 || y % 400 == 0) }

  function DaysIn(m: YearMonth): (d: nat)
    requires Valid(m)
    ensures 28 <= d <= 31
  {
    if m.month == 2 then (if IsLeap(m.year) then 29 else 28)
    else if m.month in {4, 6, 9, 11} then 30 else 31
  }

  function Following(m: YearMonth): (r: YearMonth)
    requires Valid(m)
    ensures Valid(r) && Ordinal(r) == Ordinal(m) + 1
  {
    if m.month == 12 then YearMonth(m.year + 1, 1) else YearMonth(m.year, m.month + 1)
  }

  function Ordinal(m: YearMonth): int { m.year * 12 + m.month }

  /** Leap days in the years 1 .. y-1. */
  function LeapsBefore(y: nat): int
    requires y > 0
  {
    (y - 1) / 4 - (y - 1) / 100 + (y - 1) / 400
  }

  const DAYS_BEFORE: seq<nat> := [0, 31, 59, 90, 120, 151, 181, 212, 243, 273, 304, 334]

  /** Days from 1 January 1970 to the first of the month. */
  function FirstDay(m: YearMonth): int
    requires Valid(m)
  {
    365 * (m.year - 1970) + LeapsBefore(m.year) - LeapsBefore(1970)
    + DAYS_BEFORE[m.month - 1] + (if IsLeap(m.year) && m.month > 2 then 1 else 0)
  }

  lemma LeapsStep(y: nat)
    requires y > 0
    ensures LeapsBefore(y + 1) == LeapsBefore(y) + (if IsLeap(y) then 1 else 0)
  {
    DivStep(y, 4);
    DivStep(y, 100);
    DivStep(y, 400);
    Multiples(y);
  }

  lemma Multiples(y: nat)
    ensures y % 400 == 0 ==> y % 100 == 0
    ensures y % 100 == 0 ==> y % 4 == 0
  {
    if y % 400 == 0 { assert y == 100 * (4 * (y / 400)); }
    if y % 100 == 0 { assert y == 4 * (25 * (y / 100)); }
  }

  lemma DivStep(y: nat, k: nat)
    requires y > 0 && k in {4, 100, 400}
    ensures y / k == (y - 1) / k + (if y % k == 0 then 1 else 0)
  {
  }

  /** The closed form agrees with the lengths of the months. */
  lemma FirstDayFollowing(m: YearMonth)
    requires Valid(m)
    ensures FirstDay(Following(m)) == FirstDay(m) + DaysIn(m)
  {
    if m.month == 12 { LeapsStep(m.year); }
  }

  /** Independent of the tables: with years that begin in March, the day is given by whole divisions
      alone, whatever the year and the month. */
  lemma GregorianDay(m: YearMonth)
    requires Valid(m)
    ensures
      var y, k: nat := if m.month > 2 then m.year else m.year - 1, if m.month > 2 then m.month - 3 else m.month + 9;
      FirstDay(m) == 365 * y + y / 4 - y / 100 + y / 400 + (153 * k + 2) / 5 - 719468
  {
    LeapsStep(m.year);
  }

  /** The boundaries in seconds. */
  lemma BoundarySeconds(now: nat)
    ensures NextDayBoundary(now) == 86400 * (now / 86400 + 1)
    ensures NextMonthBoundary(now) == 86400 * FirstDay(Following(MonthOf(now / 86400)))
  {
  }

  lemma {:induction false} FirstDayIncreases(a: YearMonth, b: YearMonth)
    requires Valid(a) && Valid(b) && Ordinal(a) < Ordinal(b)
    ensures FirstDay(Following(a)) <= FirstDay(b)
    decreases Ordinal(b) - Ordinal(a)
  {
    var next := Following(a);
    if Ordinal(next) < Ordinal(b) {
      FirstDayIncreases(next, b);
      FirstDayFollowing(next);
    } else {
      OrdinalInjective(next, b);
    }
  }

  lemma OrdinalInjective(a: YearMonth, b: YearMonth)
    requires Valid(a) && Valid(b) && Ordinal(a) == Ordinal(b)
    ensures a == b
  {
  }

  function MonthFrom(m: YearMonth, day: nat): (r: YearMonth)
    requires Valid(m) && FirstDay(m) <= day
    ensures Valid(r) && FirstDay(r) <= day < FirstDay(Following(r))
    decreases day - FirstDay(m)
  {
    FirstDayFollowing(m);
    if day < FirstDay(Following(m)) then m else MonthFrom(Following(m), day)
  }

  /** The month that contains a day. */
  function MonthOf(day: nat): (r: YearMonth)
    ensures Valid(r) && FirstDay(r) <= day < FirstDay(Following(r))
  {
    MonthFrom(YearMonth(1970, 1), day)
  }

  lemma MonthOfUnique(day: nat, m: YearMonth)
    requires Valid(m) && FirstDay(m) <= day < FirstDay(Following(m))
    ensures m == MonthOf(day)
  {
    var r := MonthOf(day);
    if Ordinal(m) < Ordinal(r) {
      FirstDayIncreases(m, r);
    } else if Ordinal(r) < Ordinal(m) {
      FirstDayIncreases(r, m);
    } else {
      OrdinalInjective(m, r);
    }
  }

  // ---------------------------------------------------------------------------
  // Reset boundaries

  predicate IsDayStart(t: int) { t % SECS_PER_DAY == 0 }

  ghost predicate IsMonthStart(t: int) {
    exists m :: Valid(m) && t == FirstDay(m) * SECS_PER_DAY
  }

  /** The first midnight after `now`. */
  function NextDayBoundary(now: nat): (r: nat)
    ensures now < r && IsDayStart(r)
    ensures forall t: int :: IsDayStart(t) && t > now ==> r <= t
  {
    (now / SECS_PER_DAY + 1) * SECS_PER_DAY
  }

  function NextMonthBoundary(now: nat): nat {
    var m := Following(MonthOf(now / SECS_PER_DAY));
    FirstDay(m) * SECS_PER_DAY
  }

  lemma MonthBoundaryNotLater(now: nat, k: YearMonth)
    requires Valid(k) && FirstDay(k) * SECS_PER_DAY > now
    ensures NextMonthBoundary(now) <= FirstDay(k) * SECS_PER_DAY
  {
    DayOfStart(now, FirstDay(k));
    FirstDayAfter(now / SECS_PER_DAY, k);
  }

  lemma DayOfStart(now: nat, day: int)
    ensures day * SECS_PER_DAY > now <==> day > now / SECS_PER_DAY
  {
  }

  /** The first start of a month after `now`, which is also the start of a day. */
  lemma NextMonthBoundaryIsLeast(now: nat)
    ensures now < NextMonthBoundary(now)
    ensures IsMonthStart(NextMonthBoundary(now)) && IsDayStart(NextMonthBoundary(now))
    ensures forall t: int :: IsMonthStart(t) && t > now ==> NextMonthBoundary(now) <= t
  {
    var m := Following(MonthOf(now / SECS_PER_DAY));
    DayOfStart(now, FirstDay(m));
    DayStartMultiple(FirstDay(m));
    forall t: int | IsMonthStart(t) && t > now ensures NextMonthBoundary(now) <= t {
      var k :| Valid(k) && t == FirstDay(k) * SECS_PER_DAY;
      MonthBoundaryNotLater(now, k);
    }
  }

  lemma DayStartMultiple(day: int)
    ensures IsDayStart(day * SECS_PER_DAY)
  {
  }

  lemma FirstDayAfter(day: nat, k: YearMonth)
    requires Valid(k) && day < FirstDay(k)
    ensures FirstDay(Following(MonthOf(day))) <= FirstDay(k)
  {
    var m := MonthOf(day);
    if Ordinal(m) < Ordinal(k) {
      FirstDayIncreases(m, k);
    } else if Ordinal(k) < Ordinal(m) {
      FirstDayIncreases(k, m);
      FirstDayFollowing(k);
    } else {
      OrdinalInjective(m, k);
    }
  }

  /** Two times share a boundary exactly when the calendar puts them in the same day or month,
      and a shared day is a shared month. */
  lemma SamePeriod(s: nat, t: nat)
    ensures NextDayBoundary(s) == NextDayBoundary(t) <==> s / SECS_PER_DAY == t / SECS_PER_DAY
    ensures NextMonthBoundary(s) == NextMonthBoundary(t)
            <==> MonthOf(s / SECS_PER_DAY) == MonthOf(t / SECS_PER_DAY)
    ensures NextDayBoundary(s) == NextDayBoundary(t) ==> NextMonthBoundary(s) == NextMonthBoundary(t)
  {
    var a, b := MonthOf(s / SECS_PER_DAY), MonthOf(t / SECS_PER_DAY);
    if Ordinal(a) < Ordinal(b) {
      FirstDayIncreases(a, b);
      FirstDayFollowing(b);
    } else if Ordinal(b) < Ordinal(a) {
      FirstDayIncreases(b, a);
      FirstDayFollowing(a);
    } else {
      OrdinalInjective(a, b);
    }
  }

  /** `end` cuts time into periods: it lies ahead, and a period is left only at its end. */
  ghost predicate Periodic(end: nat -> nat) {
    && (forall t: nat :: t < end(t))
    && (forall s: nat, t: nat :: s <= t < end(s) ==> end(t) == end(s))
  }

  lemma DaysPeriodic()
    ensures Periodic(NextDayBoundary)
  {
  }

  lemma MonthsPeriodic()
    ensures Periodic(NextMonthBoundary)
  {
    forall t: nat ensures t < NextMonthBoundary(t) { NextMonthBoundaryIsLeast(t); }
    forall s: nat, t: nat | s <= t < NextMonthBoundary(s)
      ensures NextMonthBoundary(t) == NextMonthBoundary(s)
    {
      NextMonthBoundaryIsLeast(s);
      NextMonthBoundaryIsLeast(t);
    }
  }
}
