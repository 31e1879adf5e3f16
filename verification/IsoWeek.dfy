/** Week numbers: the week belongs to the year its Thursday falls into. */
module IsoWeek {
  import opened Arithmetic
  import opened Calendar

  /** The day of the week, counted from Monday. */
  function FromMonday(wday: int): int {
    (wday + 6) % 7
  }

  /** The Thursday of the week of a day, both as days since the Epoch. */
  function Thursday(day: int, wday: int): int {
    day - FromMonday(wday) + 3
  }

  /** Week w of a year: section 2.2.10 of ISO 8601:2004 has week 1 contain the first
      Thursday of the year. */
  ghost predicate InWeek(day: int, wday: int, year: int, w: int) {
    var n := Thursday(day, wday) - DaysTo(year);
    0 <= n < YearSize(year) && w == 1 + n / 7
  }

  /** The day of the year of the Monday of week 1. */
  function Bottom(yday: int, wday: int): int {
    (yday + 11 - wday) % 7 - 3
  }

  /** The day of the year of the Monday of week 1 of the next year. */
  function Top(bottom: int, len: int): int {
    var t := bottom - len % 7;
    (if t < -3 then t + 7 else t) + len
  }

  lemma {:induction false} BottomExact(yday: int, wday: int)
    requires 0 <= wday < 7
    ensures -3 <= Bottom(yday, wday) <= 3 && (yday - FromMonday(wday) - Bottom(yday, wday)) % 7 == 0
  {
  }

  lemma {:induction false} TopExact(bottom: int, len: int)
    requires -3 <= bottom <= 3
    ensures len - 3 <= Top(bottom, len) <= len + 3 && (Top(bottom, len) - bottom) % 7 == 0
  {
  }

  /** A day from the first Monday on and before the next year's first Monday. */
  lemma {:induction false} Inside(yday: int, wday: int, len: int)
    requires 0 <= wday < 7
    requires var b := Bottom(yday, wday); b <= yday < Top(b, len)
    ensures var n := yday - FromMonday(wday) + 3; 0 <= n < len && n / 7 == (yday - Bottom(yday, wday)) / 7
  {
    var b, m := Bottom(yday, wday), FromMonday(wday);
    BottomExact(yday, wday);
    TopExact(b, len);
    var k, j := (yday - m - b) / 7, (Top(b, len) - b) / 7;
    assert yday - m == b + 7 * k && Top(b, len) == b + 7 * j;
    assert k < j && k >= 0;
  }

  /** A day from the next year's first Monday on. */
  lemma {:induction false} Beyond(yday: int, wday: int, len: int)
    requires 0 <= wday < 7
    requires Top(Bottom(yday, wday), len) <= yday < len
    ensures var n := yday - FromMonday(wday) + 3; len <= n < len + 7
  {
    var b, m := Bottom(yday, wday), FromMonday(wday);
    BottomExact(yday, wday);
    TopExact(b, len);
    var k, j := (yday - m - b) / 7, (Top(b, len) - b) / 7;
    assert yday - m == b + 7 * k && Top(b, len) == b + 7 * j;
    assert k >= j;
  }

  /** A day before the first Monday is, counted from the year before, neither before the
      first nor from the last Monday on. */
  lemma {:induction false} Before(yday: int, wday: int, len: int)
    requires 0 <= wday < 7 && 0 <= yday < Bottom(yday, wday) && len >= 7
    ensures var n := yday + len; Bottom(n, wday) <= n < Top(Bottom(n, wday), len)
  {
    var n := yday + len;
    BottomExact(yday, wday);
    BottomExact(n, wday);
    TopExact(Bottom(n, wday), len);
    SameMonday(yday - FromMonday(wday), len, Bottom(yday, wday), Bottom(n, wday), Top(Bottom(n, wday), len));
  }

  /** Both count the Monday of the same week. */
  lemma {:induction false} SameMonday(monday: int, len: int, b: int, c: int, top: int)
    requires (monday - b) % 7 == 0 && (monday + len - c) % 7 == 0 && (top - c) % 7 == 0
    requires -3 <= b <= 3 && len - 3 <= top <= len + 3
    ensures top == len + b
  {
    var i, k, j := (monday - b) / 7, (monday + len - c) / 7, (top - c) / 7;
    assert monday - b == 7 * i && monday + len - c == 7 * k && top - c == 7 * j;
    assert len + b - top == 7 * (k - i - j);
  }

  /** The year and the week a day belongs to, for %G and %V. The loop runs at most twice. */
  method Week(tmYear: int, tmYday: int, wday: int) returns (year: int, w: int, ghost rounds: nat)
    requires 0 <= tmYday < YearSize(YEAR0 + tmYear)
    requires wday == (DaysTo(YEAR0 + tmYear) + tmYday + 4) % 7
    ensures rounds <= 2 && 1 <= w <= 53 && InWeek(DaysTo(YEAR0 + tmYear) + tmYday, wday, year, w)
  {
    ghost var day := DaysTo(YEAR0 + tmYear) + tmYday;
    rounds := 0;
    var yday := tmYday;
    year := YEAR0 + tmYear;
    w := 0;
    while w == 0
      invariant 0 <= rounds <= 2 && (w == 0 ==> rounds < 2 && day == DaysTo(year) + yday)
      invariant w == 0 && rounds == 0 ==> 0 <= yday < YearSize(year)
      invariant w == 0 && rounds == 1 ==> var b := Bottom(yday, wday); b <= yday < Top(b, YearSize(year))
      invariant w != 0 ==> w >= 1 && InWeek(day, wday, year, w)
      decreases 2 - rounds
    {
      var len := YearSize(year);
      var bot := Bottom(yday, wday);
      var top := Top(bot, len);
      BottomExact(yday, wday);
      NextYear(year);
      if yday >= top {
        Beyond(yday, wday, len);
        year := year + 1;
        w := 1;
      } else if yday >= bot {
        Inside(yday, wday, len);
        w := 1 + (yday - bot) / 7;
      } else {
        year := year - 1;
        NextYear(year);
        Before(yday, wday, YearSize(year));
        yday := yday + YearSize(year);
      }
      rounds := rounds + 1;
    }
  }

  /** A day belongs to one week of one year. */
  lemma {:induction false} WeekUnique(day: int, wday: int, y: int, v: int, z: int, w: int)
    requires InWeek(day, wday, y, v) && InWeek(day, wday, z, w)
    ensures y == z && v == w
  {
    if y < z {
      YearsApart(y, z);
      assert false;
    }
    if z < y {
      YearsApart(z, y);
      assert false;
    }
  }

  /** 4 January is always in week 1 of its year. */
  lemma {:induction false} FourthOfJanuary(y: int)
    ensures InWeek(DaysTo(y) + 3, (DaysTo(y) + 3 + 4) % 7, y, 1)
  {
  }

  lemma {:induction false} DaysOfWeek(monday: int, k: int)
    requires (monday + 4) % 7 == 1 && 0 <= k < 7
    ensures FromMonday((monday + k + 4) % 7) == k
  {
    var q := (monday + 4) / 7;
    assert monday + 4 == 7 * q + 1;
    if k < 6 {
      ModUnique(monday + k + 4, 7, q, k + 1);
    } else {
      ModUnique(monday + k + 4, 7, q + 1, 0);
    }
  }

  /** A week goes from Monday to Sunday, and the next Monday is in the next week of the same
      year or in week 1 of the year after. */
  lemma {:induction false} WeekOfMonday(monday: int, y: int, w: int, k: int)
    requires (monday + 4) % 7 == 1 && InWeek(monday, 1, y, w) && 0 <= k < 7
    ensures InWeek(monday + k, (monday + k + 4) % 7, y, w)
    ensures InWeek(monday + 7, 1, y, w + 1) || InWeek(monday + 7, 1, y + 1, 1)
  {
    DaysOfWeek(monday, k);
    NextYear(y);
  }
}
