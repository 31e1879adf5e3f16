/**
 The Gregorian calendar as seconds since the Epoch, counted year by year and month by
 month.
 */
module Calendar {
  import opened Arithmetic

  const YEAR0: int := 1900
  const EPOCH_YR: int := 1970
  const SECS_DAY: int := 86400

  predicate Leap(y: int) {
    y % 4 == 0 && (y % 100 != 0 || y % 400 == 0)
  }

  function YearSize(y: int): int {
    if Leap(y) then 366 else 365
  }

  function MonthSize(y: int, m: int): (n: int)
    requires 0 <= m < 12
    ensures 28 <= n <= 31
  {
    if m == 1 then (if Leap(y) then 29 else 28) else if m == 3 || m == 5 || m == 8 || m == 10 then 30 else 31
  }

  /** Days from the Epoch to the first day of a year. */
  function DaysTo(y: int): int
    decreases if y >= EPOCH_YR then y - EPOCH_YR else EPOCH_YR - y
  {
    if y == EPOCH_YR then 0
    else if y > EPOCH_YR then DaysTo(y - 1) + YearSize(y - 1)
    else DaysTo(y + 1) - YearSize(y)
  }

  lemma {:induction false} NextYear(y: int)
    ensures DaysTo(y + 1) == DaysTo(y) + YearSize(y)
  {
  }

  /** Days of a year before a month. */
  function DaysBefore(y: int, m: int): (n: int)
    requires 0 <= m <= 12
    ensures 28 * m <= n <= 31 * m
    decreases m
  {
    if m == 0 then 0 else DaysBefore(y, m - 1) + MonthSize(y, m - 1)
  }

  lemma {:induction false} WholeYear(y: int)
    ensures DaysBefore(y, 12) == YearSize(y)
  {
    assert DaysBefore(y, 2) == 31 + MonthSize(y, 1);
    assert DaysBefore(y, 5) == DaysBefore(y, 2) + 92;
    assert DaysBefore(y, 8) == DaysBefore(y, 5) + 92;
    assert DaysBefore(y, 11) == DaysBefore(y, 8) + 91;
  }

  // ---------- the closed form ----------

  /** How often multiples of d have been passed since the Epoch. */
  function Passed(y: int, d: int): int
    requires d > 0
  {
    (y - EPOCH_YR) / d + (if y % d != 0 && y % d < EPOCH_YR % d then 1 else 0)
  }

  /** The day count of the conversion to seconds: 365 days a year, and one more for every
      leap year passed. */
  function ClosedForm(y: int): int {
    (y - EPOCH_YR) * 365 + Passed(y, 4) - Passed(y, 100) + Passed(y, 400)
  }

  lemma {:induction false} PassedAs(y: int, d: int)
    requires d > 1 && EPOCH_YR % d > 0
    ensures Passed(y, d) == y / d - EPOCH_YR / d - if y % d == 0 then 1 else 0
  {
    var q, r := y / d - EPOCH_YR / d, y % d - EPOCH_YR % d;
    assert y == (y / d) * d + y % d && EPOCH_YR == (EPOCH_YR / d) * d + EPOCH_YR % d;
    if r >= 0 {
      ModUnique(y - EPOCH_YR, d, q, r);
    } else {
      assert (q - 1) * d == q * d - d;
      ModUnique(y - EPOCH_YR, d, q - 1, r + d);
    }
  }

  lemma {:induction false} PassedNext(y: int, d: int)
    requires d > 1 && EPOCH_YR % d > 0
    ensures Passed(y + 1, d) == Passed(y, d) + if y % d == 0 then 1 else 0
  {
    PassedAs(y, d);
    PassedAs(y + 1, d);
    if y % d + 1 < d {
      ModUnique(y + 1, d, y / d, y % d + 1);
    } else {
      assert (y / d + 1) * d == y / d * d + d;
      ModUnique(y + 1, d, y / d + 1, 0);
    }
  }

  lemma {:induction false} LeapDay(y: int)
    ensures YearSize(y) == 365 + (if y % 4 == 0 then 1 else 0) - (if y % 100 == 0 then 1 else 0) + (if y % 400 == 0 then 1 else 0)
  {
  }

  lemma {:induction false} ClosedFormNext(y: int)
    ensures ClosedForm(y + 1) == ClosedForm(y) + YearSize(y)
  {
    PassedNext(y, 4);
    PassedNext(y, 100);
    PassedNext(y, 400);
    LeapDay(y);
  }

  /** The closed form is the sum over the years. */
  lemma {:induction false} ClosedFormExact(y: int)
    requires y >= EPOCH_YR
    ensures ClosedForm(y) == DaysTo(y)
    decreases y
  {
    if y > EPOCH_YR {
      ClosedFormExact(y - 1);
      ClosedFormNext(y - 1);
    }
  }

  // ---------- broken-down time ----------

  /** Years count from 1900, months from 0 and days of the month from 1. */
  datatype Fields = Fields(sec: int, min: int, hour: int, mday: int, mon: int, year: int, wday: int, yday: int, isdst: int) {
    predicate Normal() {
      && 0 <= sec < 60 && 0 <= min < 60 && 0 <= hour < 24
      && 0 <= mon < 12 && 1 <= mday <= MonthSize(YEAR0 + year, mon)
    }

    /** Days since the Epoch. Months beyond the year count as months of other years. */
    function Day(): int {
      var y, m := YEAR0 + year + mon / 12, mon % 12;
      DaysTo(y) + DaysBefore(y, m) + mday - 1
    }

    function Clock(): int {
      (hour * 60 + min) * 60 + sec
    }

    /** Seconds since the Epoch, for fields in any range. */
    function Seconds(): int {
      Day() * SECS_DAY + Clock()
    }

    /** The day of the week and of the year go with the date. */
    predicate Derived()
      requires 0 <= mon < 12
    {
      wday == (Day() + 4) % 7 && yday == DaysBefore(YEAR0 + year, mon) + mday - 1
    }
  }

  lemma {:induction false} YearsApart(a: int, b: int)
    requires a < b
    ensures DaysTo(a) + YearSize(a) <= DaysTo(b)
    decreases b - a
  {
    NextYear(b - 1);
    if a + 1 < b {
      YearsApart(a, b - 1);
    }
  }

  lemma {:induction false} MonthsApart(y: int, a: int, b: int)
    requires 0 <= a < b <= 12
    ensures DaysBefore(y, a) + MonthSize(y, a) <= DaysBefore(y, b)
    decreases b - a
  {
    if a + 1 < b {
      MonthsApart(y, a, b - 1);
    }
  }

  lemma {:induction false} InYear(y: int, m: int, d: int)
    requires 0 <= m < 12 && 1 <= d <= MonthSize(y, m)
    ensures 0 <= DaysBefore(y, m) + d - 1 < YearSize(y)
  {
    MonthsApart(y, m, 12);
    WholeYear(y);
  }

  lemma {:induction false} DayOfYear(f: Fields)
    requires f.Normal()
    ensures var y := YEAR0 + f.year; var n := DaysBefore(y, f.mon) + f.mday - 1;
            0 <= n < YearSize(y) && f.Day() == DaysTo(y) + n
  {
    assert f.mon / 12 == 0 && f.mon % 12 == f.mon;
    InYear(YEAR0 + f.year, f.mon, f.mday);
  }

  lemma {:induction false} ClockParts(f: Fields, g: Fields)
    requires f.Normal() && g.Normal() && f.Seconds() == g.Seconds()
    ensures f.Day() == g.Day() && f.sec == g.sec && f.min == g.min && f.hour == g.hour
  {
  }

  lemma {:induction false} SameYear(y: int, m: int, z: int, n: int)
    requires DaysTo(y) + m == DaysTo(z) + n && 0 <= m < YearSize(y) && 0 <= n < YearSize(z)
    ensures y == z
  {
    if y < z {
      YearsApart(y, z);
      assert false;
    }
    if z < y {
      YearsApart(z, y);
      assert false;
    }
  }

  lemma {:induction false} SameMonth(y: int, m: int, d: int, n: int, e: int)
    requires 0 <= m < 12 && 0 <= n < 12 && 1 <= d <= MonthSize(y, m) && 1 <= e <= MonthSize(y, n)
    requires DaysBefore(y, m) + d == DaysBefore(y, n) + e
    ensures m == n
  {
    if m < n {
      MonthsApart(y, m, n);
      assert false;
    }
    if n < m {
      MonthsApart(y, n, m);
      assert false;
    }
  }

  lemma {:induction false} SameDate(y: int, m: int, d: int, z: int, n: int, e: int)
    requires 0 <= m < 12 && 0 <= n < 12 && 1 <= d <= MonthSize(y, m) && 1 <= e <= MonthSize(z, n)
    requires DaysTo(y) + DaysBefore(y, m) + d == DaysTo(z) + DaysBefore(z, n) + e
    ensures y == z && m == n && d == e
  {
    InYear(y, m, d);
    InYear(z, n, e);
    SameYear(y, DaysBefore(y, m) + d - 1, z, DaysBefore(z, n) + e - 1);
    SameMonth(y, m, d, n, e);
  }

  /** Normal fields that stand for the same second are the same. */
  lemma {:induction false} SameFields(f: Fields, g: Fields)
    requires f.Normal() && g.Normal() && f.Derived() && g.Derived() && f.Seconds() == g.Seconds() && f.isdst == g.isdst
    ensures f == g
  {
    ClockParts(f, g);
    DayOfYear(f);
    DayOfYear(g);
    SameDate(YEAR0 + f.year, f.mon, f.mday, YEAR0 + g.year, g.mon, g.mday);
  }

  /** The days from the Epoch to the first day of a month. */
  function MonthStart(year: int, mon: int): int
    requires 0 <= mon < 12
  {
    DaysTo(YEAR0 + year) + DaysBefore(YEAR0 + year, mon)
  }

  lemma {:induction false} NextMonth(year: int, mon: int)
    requires 0 <= mon < 12
    ensures MonthStart(year, mon) + MonthSize(YEAR0 + year, mon) ==
      if mon == 11 then MonthStart(year + 1, 0) else MonthStart(year, mon + 1)
  {
    if mon == 11 {
      WholeYear(YEAR0 + year);
      NextYear(YEAR0 + year);
    }
  }

  lemma {:induction false} DayOf(f: Fields)
    requires 0 <= f.mon < 12
    ensures f.Day() == MonthStart(f.year, f.mon) + f.mday - 1
  {
  }

  /** Carrying months over into years does not change the day. */
  lemma {:induction false} CarriedMonth(f: Fields, carry: int, rest: int)
    requires f.mon == carry * 12 + rest && 0 <= rest < 12
    ensures f.Day() == MonthStart(f.year + carry, rest) + f.mday - 1
  {
    assert f.mon / 12 == carry && f.mon % 12 == rest;
  }

  /** Fields put together from a day count and the seconds of that day. */
  lemma {:induction false} Assembled(f: Fields, dayno: int, yday: int, clock: int)
    requires f.Normal() && f.yday == yday && f.wday == (dayno + 4) % 7 && f.Clock() == clock
    requires dayno == DaysTo(YEAR0 + f.year) + yday && yday == DaysBefore(YEAR0 + f.year, f.mon) + f.mday - 1
    ensures f.Derived() && f.Seconds() == dayno * SECS_DAY + clock
  {
    DayOf(f);
  }

  lemma {:induction false} DaysAtLeast(y: int)
    requires y >= EPOCH_YR
    ensures DaysTo(y) >= 365 * (y - EPOCH_YR)
    decreases y
  {
    if y > EPOCH_YR {
      DaysAtLeast(y - 1);
    }
  }

  /** Times from the Epoch on are those in the years from 1970 on. */
  lemma {:induction false} SinceEpoch(f: Fields)
    requires f.Normal()
    ensures f.Seconds() >= 0 <==> YEAR0 + f.year >= EPOCH_YR
  {
    DayOfYear(f);
    if YEAR0 + f.year < EPOCH_YR {
      YearsApart(YEAR0 + f.year, EPOCH_YR);
    } else {
      DaysAtLeast(YEAR0 + f.year);
    }
  }
}
