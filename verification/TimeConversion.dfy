/** Conversion between calendar time and broken-down time. */
module TimeConversion {
  import opened Arithmetic
  import opened Calendar
  import opened DayNumbers

  const TIME_MAX: int := 0x7FFF_FFFF

  /** A signed 32-bit number. */
  type Time = x: int | -0x8000_0000 <= x <= 0x7FFF_FFFF

  function Wrap(x: int): Time {
    (x + 0x8000_0000) % 0x1_0000_0000 - 0x8000_0000
  }

  /** The same bits as an unsigned number. */
  function Unsigned(t: Time): int {
    if t < 0 then t + 0x1_0000_0000 else t
  }

  class Tm {
    var sec: int
    var min: int
    var hour: int
    var mday: int
    var mon: int
    var year: int
    var wday: int
    var yday: int
    var isdst: int

    ghost function Value(): Fields
      reads this
    {
      Fields(sec, min, hour, mday, mon, year, wday, yday, isdst)
    }

    constructor ()
    {
      sec, min, hour, mday, mon, year := 0, 0, 0, 1, 0, 0;
      wday, yday, isdst := 0, 0, 0;
    }
  }

  // ---------- from seconds ----------

  /** The year a day falls into, and the day of that year. */
  method FindYear(dayno: int) returns (year: int, yday: int)
    requires dayno >= 0
    ensures year >= EPOCH_YR && dayno == DaysTo(year) + yday && 0 <= yday < YearSize(year)
  {
    year, yday := EPOCH_YR, dayno;
    while yday >= YearSize(year)
      invariant year >= EPOCH_YR && yday >= 0 && dayno == DaysTo(year) + yday
      decreases yday
    {
      NextYear(year);
      yday := yday - YearSize(year);
      year := year + 1;
    }
  }

  /** The month a day of the year falls into, and the day of that month from 0. */
  method FindMonth(year: int, yday: int) returns (mon: int, rest: int)
    requires 0 <= yday < YearSize(year)
    ensures 0 <= mon < 12 && yday == DaysBefore(year, mon) + rest && 0 <= rest < MonthSize(year, mon)
  {
    WholeYear(year);
    mon, rest := 0, yday;
    while rest >= MonthSize(year, mon)
      invariant 0 <= mon < 12 && rest >= 0 && yday == DaysBefore(year, mon) + rest
      decreases rest
    {
      rest := rest - MonthSize(year, mon);
      mon := mon + 1;
    }
  }

  method FindClock(dayclock: int) returns (sec: int, min: int, hour: int)
    requires 0 <= dayclock < SECS_DAY
    ensures 0 <= sec < 60 && 0 <= min < 60 && 0 <= hour < 24 && dayclock == (hour * 60 + min) * 60 + sec
  {
    sec := dayclock % 60;
    min := dayclock % 3600 / 60;
    hour := dayclock / 3600;
  }

  /** gmtime_r: the broken-down form of a time. */
  method GmTime(timer: Time, tm: Tm)
    modifies tm
    ensures tm.Value().Normal() && tm.Value().Derived() && tm.isdst == 0 && tm.Value().Seconds() == Unsigned(timer)
    ensures DayNumber(YEAR0 + tm.year, tm.mon, tm.mday) == 719163 + Unsigned(timer) / SECS_DAY
  {
    BreakDown(timer, tm);
    NumberOf(tm.Value(), Unsigned(timer));
  }

  method BreakDown(timer: Time, tm: Tm)
    modifies tm
    ensures tm.Value().Normal() && tm.Value().Derived() && tm.isdst == 0 && tm.Value().Seconds() == Unsigned(timer)
  {
    var time := Unsigned(timer);
    var dayclock, dayno := time % SECS_DAY, time / SECS_DAY;
    tm.sec, tm.min, tm.hour := FindClock(dayclock);
    tm.wday := (dayno + 4) % 7;
    var year, yday := FindYear(dayno);
    tm.year := year - YEAR0;
    tm.yday := yday;
    var mon, rest := FindMonth(year, yday);
    tm.mon := mon;
    tm.mday := rest + 1;
    tm.isdst := 0;
    Assembled(tm.Value(), dayno, yday, dayclock);
  }

  /** localtime_r. */
  method LocalTime(timer: Time, timezone: Time, tm: Tm)
    modifies tm
    ensures tm.Value().Normal() && tm.Value().Derived() && tm.isdst == 0
    ensures tm.Value().Seconds() == Unsigned(Wrap(timer - timezone))
  {
    GmTime(Wrap(timer - timezone), tm);
  }

  // ---------- to seconds ----------

  /** Carries what is beyond the range of a field into the next one. */
  method Carry(x: int, size: int) returns (carry: int, rest: int)
    requires size > 0
    ensures x == carry * size + rest && 0 <= rest < size
  {
    carry := Quotient(x, size);
    rest := x - carry * size;
    TruncatedRest(x, size);
    if rest < 0 {
      rest := rest + size;
      carry := carry - 1;
    }
  }

  lemma {:induction false} TruncatedRest(x: int, size: int)
    requires size > 0
    ensures -size < x - Quotient(x, size) * size < size
  {
    var a: int := Abs(x);
    assert a == a / size * size + a % size;
    if x < 0 {
      assert Quotient(x, size) * size == -(a / size * size);
    }
  }

  lemma {:induction false} CarriedSeconds(f: Fields, g: Fields, carry: int)
    requires g.Day() == f.Day() + carry && g.Clock() == f.Clock() - carry * SECS_DAY
    ensures g.Seconds() == f.Seconds()
  {
  }

  /** Brings seconds, minutes, hours and months into range; says how many days are carried
      over by the hours. */
  method NormalizeClock(tm: Tm) returns (days: int)
    modifies tm`sec, tm`min, tm`hour
    ensures 0 <= tm.sec < 60 && 0 <= tm.min < 60 && 0 <= tm.hour < 24
    ensures tm.Value().Clock() + days * SECS_DAY == old(tm.Value().Clock())
  {
    var carry;
    carry, tm.sec := Carry(tm.sec, 60);
    tm.min := tm.min + carry;
    carry, tm.min := Carry(tm.min, 60);
    tm.hour := tm.hour + carry;
    days, tm.hour := Carry(tm.hour, 24);
  }

  /** Moves to earlier months until the day is not before the month. */
  method GoBack(tm: Tm, from: int) returns (day: int)
    requires 0 <= tm.mon < 12
    modifies tm`mon, tm`year
    ensures 0 <= tm.mon < 12 && day >= 0
    ensures MonthStart(tm.year, tm.mon) + day == old(MonthStart(tm.year, tm.mon)) + from
  {
    day := from;
    while day < 0
      invariant 0 <= tm.mon < 12
      invariant MonthStart(tm.year, tm.mon) + day == old(MonthStart(tm.year, tm.mon)) + from
      decreases -day
    {
      tm.mon := tm.mon - 1;
      if tm.mon < 0 {
        tm.year := tm.year - 1;
        tm.mon := 11;
      }
      NextMonth(tm.year, tm.mon);
      day := day + MonthSize(YEAR0 + tm.year, tm.mon);
    }
  }

  /** Moves to later months until the day falls into the month. */
  method GoOn(tm: Tm, from: int) returns (day: int)
    requires 0 <= tm.mon < 12 && from >= 0
    modifies tm`mon, tm`year
    ensures 0 <= tm.mon < 12 && 0 <= day < MonthSize(YEAR0 + tm.year, tm.mon)
    ensures MonthStart(tm.year, tm.mon) + day == old(MonthStart(tm.year, tm.mon)) + from
  {
    day := from;
    while day >= MonthSize(YEAR0 + tm.year, tm.mon)
      invariant 0 <= tm.mon < 12 && day >= 0
      invariant MonthStart(tm.year, tm.mon) + day == old(MonthStart(tm.year, tm.mon)) + from
      decreases day
    {
      NextMonth(tm.year, tm.mon);
      day := day - MonthSize(YEAR0 + tm.year, tm.mon);
      tm.mon := tm.mon + 1;
      if tm.mon == 12 {
        tm.mon := 0;
        tm.year := tm.year + 1;
      }
    }
  }

  /** Brings all fields into range without changing the second they stand for. */
  method Normalize(tm: Tm)
    modifies tm`sec, tm`min, tm`hour, tm`mday, tm`mon, tm`year
    ensures tm.Value().Normal() && tm.Value().Seconds() == old(tm.Value().Seconds())
  {
    ghost var f := tm.Value();
    var day := NormalizeClock(tm);
    var years;
    years, tm.mon := Carry(tm.mon, 12);
    tm.year := tm.year + years;
    CarriedMonth(f, years, tm.mon);
    ghost var start := MonthStart(tm.year, tm.mon);
    ghost var days := day;
    day := day + (tm.mday - 1);
    day := GoBack(tm, day);
    day := GoOn(tm, day);
    tm.mday := day + 1;
    DayOf(tm.Value());
    CarriedSeconds(f, tm.Value(), days);
  }

  /** The day of the year of normal fields. */
  method CountDays(tm: Tm) returns (yday: int)
    requires tm.Value().Normal()
    ensures yday == DaysBefore(YEAR0 + tm.year, tm.mon) + tm.mday - 1
  {
    yday := 0;
    var month := 0;
    while month < tm.mon
      invariant 0 <= month <= tm.mon && yday == DaysBefore(YEAR0 + tm.year, month)
    {
      yday := yday + MonthSize(YEAR0 + tm.year, month);
      month := month + 1;
    }
    yday := yday + (tm.mday - 1);
  }

  /** The days from the Epoch to a year by the closed form, and a count of overflows. */
  method CountYears(year: int) returns (day: int, overflow: int)
    requires year >= EPOCH_YR
    ensures day == DaysTo(year) && day >= 0 && overflow >= 0 && (overflow > 0 ==> day * SECS_DAY > TIME_MAX)
  {
    overflow := 0;
    var n := year - EPOCH_YR;
    if TIME_MAX / 365 < n {
      overflow := overflow + 1;
    }
    day := n * 365;
    if TIME_MAX - day < n / 4 + 1 {
      overflow := overflow + 1;
    }
    day := day + Passed(year, 4);
    day := day - Passed(year, 100);
    day := day + Passed(year, 400);
    DaysAtLeast(year);
    ClosedFormExact(year);
  }

  /** The time a second stands for: there is none unless it and the local time can be
      represented. */
  function Answer(seconds: int, timezone: int, dst: int): int {
    var z := seconds + timezone;
    if seconds <= TIME_MAX && 0 <= z <= TIME_MAX && z >= dst then z - dst else -1
  }

  /** Adds up the seconds and checks that they can be represented. */
  method AddUp(day: int, clock: int, timezone: int, dst: int, overflows: int) returns (t: int)
    requires day >= 0 && 0 <= clock < SECS_DAY && dst >= 0 && overflows >= 0
    requires overflows > 0 ==> day * SECS_DAY > TIME_MAX
    ensures t == Answer(day * SECS_DAY + clock, timezone, dst)
  {
    var overflow := overflows;
    var seconds := clock;
    if (TIME_MAX - seconds) / SECS_DAY < day {
      overflow := overflow + 1;
    }
    seconds := seconds + day * SECS_DAY;
    if (timezone > 0 && TIME_MAX - timezone < seconds) || (timezone < 0 && seconds < -timezone) {
      overflow := overflow + 1;
    }
    seconds := seconds + timezone;
    if dst > seconds {
      overflow := overflow + 1;
    }
    seconds := seconds - dst;
    t := if overflow > 0 then -1 else seconds;
  }

  /** Sets the day of the week and of the year of normal fields. */
  method Derive(tm: Tm) returns (day: int, overflow: int)
    requires tm.Value().Normal() && YEAR0 + tm.year >= EPOCH_YR
    modifies tm`yday, tm`wday
    ensures tm.Value().Derived() && day >= 0 && overflow >= 0 && (overflow > 0 ==> day * SECS_DAY > TIME_MAX)
    ensures tm.Value().Seconds() == old(tm.Value().Seconds()) == day * SECS_DAY + tm.Value().Clock()
  {
    DayOf(tm.Value());
    day, overflow := CountYears(tm.year + YEAR0);
    var yday := CountDays(tm);
    day := day + yday;
    tm.yday := yday;
    tm.wday := (day + 4) % 7;
    Assembled(tm.Value(), day, yday, tm.Value().Clock());
  }

  /** mktime: normalizes the fields and gives the time they stand for. */
  method MkTime(tm: Tm, timezone: Time, dstbias: Time) returns (t: int)
    requires dstbias >= 0
    modifies tm
    ensures tm.Value().Normal() && tm.Value().Seconds() == old(tm.Value().Seconds()) && tm.isdst == old(tm.isdst)
    ensures YEAR0 + tm.year < EPOCH_YR ==> t == -1 && tm.wday == old(tm.wday) && tm.yday == old(tm.yday)
    ensures YEAR0 + tm.year >= EPOCH_YR ==>
      && tm.Value().Derived()
      && t == Answer(old(tm.Value().Seconds()), timezone, if tm.isdst != 0 then dstbias else 0)
  {
    Normalize(tm);
    if tm.year < EPOCH_YR - YEAR0 {
      return -1;
    }
    var day, overflow := Derive(tm);
    var clock := (tm.hour * 60 + tm.min) * 60 + tm.sec;
    t := AddUp(day, clock, timezone, if tm.isdst != 0 then dstbias else 0, overflow);
  }

  // ---------- round trips ----------

  /** Converting to local time and back gives the same time. */
  method LocalRoundTrip(timer: Time, timezone: Time, dstbias: Time) returns (t: int)
    requires 0 <= timer && 0 <= timer - timezone <= TIME_MAX && dstbias >= 0
    ensures t == timer
  {
    var tm := new Tm();
    LocalTime(timer, timezone, tm);
    assert tm.Value().Seconds() == timer - timezone;
    t := MkTime(tm, timezone, dstbias);
    SinceEpoch(tm.Value());
  }

  /** Breaking down the time that fields stand for gives the fields in normal form. */
  method NormalForm(tm: Tm, again: Tm, dstbias: Time) returns (t: int)
    requires tm != again && tm.isdst == 0 && dstbias >= 0
    modifies tm, again
    ensures t != -1 ==> again.Value() == tm.Value()
    ensures t != -1 <==> 0 <= old(tm.Value().Seconds()) <= TIME_MAX
  {
    t := MkTime(tm, 0, dstbias);
    SinceEpoch(tm.Value());
    if t != -1 {
      GmTime(t, again);
      SameFields(tm.Value(), again.Value());
    }
  }

  /** Fields in daylight saving time stand for a time that is earlier by the bias. */
  method Daylight(tm: Tm, timezone: Time, dstbias: Time) returns (standard: int, daylight: int)
    requires dstbias >= 0
    modifies tm
    ensures daylight == if standard >= dstbias then standard - dstbias else -1
  {
    tm.isdst := 0;
    ghost var seconds := tm.Value().Seconds();
    standard := MkTime(tm, timezone, dstbias);
    SinceEpoch(tm.Value());
    tm.isdst := 1;
    assert tm.Value().Seconds() == seconds;
    daylight := MkTime(tm, timezone, dstbias);
    SinceEpoch(tm.Value());
  }
}
