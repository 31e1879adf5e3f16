/** The day count in closed form, without tables and loops. */
module DayNumbers {
  import opened Arithmetic
  import opened Calendar

  /** The leap years from year 1 to year n. */
  function Leaps(n: int): int {
    n / 4 - n / 100 + n / 400
  }

  lemma {:induction false} DivNext(y: int, d: int)
    requires d > 1
    ensures y / d == (y - 1) / d + if y % d == 0 then 1 else 0
  {
    var q, r := y / d, y % d;
    if r == 0 {
      assert (q - 1) * d == q * d - d;
      ModUnique(y - 1, d, q - 1, d - 1);
    } else {
      ModUnique(y - 1, d, q, r - 1);
    }
  }

  lemma {:induction false} LeapsNext(y: int)
    ensures 365 + Leaps(y) == Leaps(y - 1) + YearSize(y)
  {
    DivNext(y, 4);
    DivNext(y, 100);
    DivNext(y, 400);
    LeapDay(y);
  }

  /** The days to a year, before the Epoch and after it. */
  lemma {:induction false} DaysToExact(y: int)
    ensures DaysTo(y) == 365 * (y - EPOCH_YR) + Leaps(y - 1) - Leaps(EPOCH_YR - 1)
    decreases if y >= EPOCH_YR then y - EPOCH_YR else EPOCH_YR - y
  {
    if y > EPOCH_YR {
      DaysToExact(y - 1);
      LeapsNext(y - 1);
    } else if y < EPOCH_YR {
      DaysToExact(y + 1);
      LeapsNext(y);
    }
  }

  lemma {:induction false} LeapsCycle(n: int)
    ensures Leaps(n + 400) == Leaps(n) + 97
  {
    Shifted(n, 4, 100);
    Shifted(n, 100, 4);
    Shifted(n, 400, 1);
  }

  lemma {:induction false} LeapCycle(y: int)
    ensures Leap(y + 400) == Leap(y)
  {
    Shifted(y, 4, 100);
    Shifted(y, 100, 4);
    Shifted(y, 400, 1);
  }

  /** The calendar repeats every 400 years, to the day of the week. */
  lemma {:induction false} Cycle(y: int)
    ensures DaysTo(y + 400) - DaysTo(y) == 20871 * 7
  {
    var n := y - 1;
    assert Leaps(n + 400) == Leaps(n) + 97 by { LeapsCycle(n); }
    assert DaysTo(y) == 365 * (y - EPOCH_YR) + Leaps(n) - Leaps(EPOCH_YR - 1) by { DaysToExact(y); }
    assert DaysTo(y + 400) == 365 * (y + 400 - EPOCH_YR) + Leaps(n + 400) - Leaps(EPOCH_YR - 1) by { DaysToExact(y + 400); }
  }

  lemma {:induction false} Shifted(y: int, d: int, k: int)
    requires d > 0
    ensures (y + k * d) / d == y / d + k && (y + k * d) % d == y % d
  {
    assert (y / d + k) * d == y / d * d + k * d;
    ModUnique(y + k * d, d, y / d + k, y % d);
  }

  /** The days of a year before a month, by counting months of 367 / 12 days. */
  function BeforeMonth(y: int, m: int): int {
    (367 * (m + 1) - 362) / 12 - (if m < 2 then 0 else if Leap(y) then 1 else 2)
  }

  lemma {:induction false} BeforeNext(y: int, m: int)
    requires 0 <= m < 11
    ensures BeforeMonth(y, m + 1) == BeforeMonth(y, m) + MonthSize(y, m)
  {
    assert m == 0 || m == 1 || m == 2 || m == 3 || m == 4 || m == 5 || m == 6 || m == 7 || m == 8 || m == 9 || m == 10;
  }

  lemma {:induction false} DaysBeforeExact(y: int, m: int)
    requires 0 <= m < 12
    ensures DaysBefore(y, m) == BeforeMonth(y, m)
    decreases m
  {
    if m > 0 {
      DaysBeforeExact(y, m - 1);
      BeforeNext(y, m - 1);
    }
  }

  /** The number of a day, with 1 January of year 1 as day 1. */
  function DayNumber(y: int, m: int, d: int): int {
    365 * (y - 1) + Leaps(y - 1) + BeforeMonth(y, m) + d
  }

  lemma {:induction false} Weekday(day: int, number: int)
    requires number == day + 719163
    ensures (day + 4) % 7 == number % 7
  {
    Shifted(day + 4, 7, 102737);
  }

  lemma {:induction false} DateExact(y: int, m: int, d: int)
    requires 0 <= m < 12
    ensures DaysTo(y) + DaysBefore(y, m) + d - 1 == DayNumber(y, m, d) - 719163
  {
    DaysToExact(y);
    DaysBeforeExact(y, m);
  }

  /** Normal fields stand for the day with that number; the Epoch is day 719163, a Thursday. */
  lemma {:induction false} DayExact(f: Fields)
    requires f.Normal()
    ensures f.Day() == DayNumber(YEAR0 + f.year, f.mon, f.mday) - 719163
    ensures f.Derived() ==> f.wday == DayNumber(YEAR0 + f.year, f.mon, f.mday) % 7
    ensures f.Derived() ==> f.yday == BeforeMonth(YEAR0 + f.year, f.mon) + f.mday - 1
  {
    DayOf(f);
    DateExact(YEAR0 + f.year, f.mon, f.mday);
    DaysBeforeExact(YEAR0 + f.year, f.mon);
    Weekday(f.Day(), DayNumber(YEAR0 + f.year, f.mon, f.mday));
  }

  /** The day number of fields that stand for a time. */
  lemma {:induction false} NumberOf(f: Fields, seconds: int)
    requires f.Normal() && f.Seconds() == seconds
    ensures DayNumber(YEAR0 + f.year, f.mon, f.mday) == 719163 + seconds / SECS_DAY
  {
    DayExact(f);
    ModUnique(seconds, SECS_DAY, f.Day(), f.Clock());
  }
}
