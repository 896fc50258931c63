/** The calendar of local_time (redo.c): seconds since 1970 to date and time in UTC+8, with a leap year
    every fourth year. */
module LocalTime {
  const EAST_EIGHT := 28800

  /** The fields that are counted from zero, as in struct tm: months and years since 1900. */
  datatype Tm = Tm(sec: int, min: int, hour: int, mday: int, mon: int, year: int, wday: int, yday: int)

  // ----- C arithmetic

  /** Division and remainder as C has them, towards zero. */
  function CDiv(x: int, y: int): int
    requires y > 0
  {
    if x >= 0 then x / y else -((-x) / y)
  }

  function CMod(x: int, y: int): int
    requires y > 0
  {
    x - CDiv(x, y) * y
  }

  function ToUint32(x: int): (r: int)
    ensures 0 <= r < 0x1_0000_0000
  {
    x % 0x1_0000_0000
  }

  function ToInt32(x: int): (r: int)
    ensures -0x8000_0000 <= r < 0x8000_0000
  {
    var u := x % 0x1_0000_0000;
    if u < 0x8000_0000 then u else u - 0x1_0000_0000
  }

  // ----- the calendar, counted forwards

  predicate Leap(year: int) { year % 4 == 0 }

  function YearDays(year: int): int { if Leap(year) then 366 else 365 }

  const MON_DAYS: seq<int> := [31, 28, 31, 30, 31, 30, 31, 31, 30, 31, 30, 31]

  function MonthDays(leap: bool, mon: int): int
    requires 0 <= mon < 12
  {
    if leap && mon == 1 then 29 else MON_DAYS[mon]
  }

  /** Days from the beginning of 1970 to the beginning of a year. */
  function DaysToYear(year: int): int
    decreases year
  {
    if year <= 70 then 0 else DaysToYear(year - 1) + YearDays(year - 1)
  }

  /** Days from the beginning of a year to the beginning of a month. */
  function DaysToMonth(leap: bool, mon: int): int
    requires 0 <= mon < 12
    decreases mon
  {
    if mon == 0 then 0 else DaysToMonth(leap, mon - 1) + MonthDays(leap, mon - 1)
  }

  predicate ValidDate(r: Tm) {
    && 0 <= r.sec < 60 && 0 <= r.min < 60 && 0 <= r.hour < 24
    && 70 <= r.year && 0 <= r.mon < 12 && 1 <= r.mday <= MonthDays(Leap(r.year), r.mon)
  }

  /** The day within the year, from zero, that a date names. */
  function DayOfYear(r: Tm): int
    requires ValidDate(r)
  {
    DaysToMonth(Leap(r.year), r.mon) + r.mday - 1
  }

  function DaysSince1970(r: Tm): int
    requires ValidDate(r)
  {
    DaysToYear(r.year) + DayOfYear(r)
  }

  /** The time that a date names. */
  function Encode(r: Tm): int
    requires ValidDate(r)
  {
    ((DaysSince1970(r) * 24 + r.hour) * 60 + r.min) * 60 + r.sec - EAST_EIGHT
  }

  // ----- four years at a time

  lemma {:induction false} FourYears(q: nat, k: nat)
    requires k < 4
    ensures DaysToYear(70 + 4 * q + k) == 1461 * q + 365 * k + (if k == 3 then 1 else 0)
  {
    if q == 0 {
      assert DaysToYear(70) == 0 && DaysToYear(71) == 365 && DaysToYear(72) == 730 && DaysToYear(73) == 1096;
    } else {
      FourYears(q - 1, 3);
      var y := 70 + 4 * q;
      assert DaysToYear(y) == DaysToYear(y - 1) + YearDays(y - 1);
      assert k >= 1 ==> DaysToYear(y + 1) == DaysToYear(y) + YearDays(y);
      assert k >= 2 ==> DaysToYear(y + 2) == DaysToYear(y + 1) + YearDays(y + 1);
      assert k >= 3 ==> DaysToYear(y + 3) == DaysToYear(y + 2) + YearDays(y + 2);
    }
  }

  /** A date is where its month begins, plus the day. */
  lemma {:induction false} MonthsGrow(leap: bool, mon: int)
    requires 0 <= mon < 12
    ensures DaysToMonth(leap, mon) == DaysToMonth(false, mon) + (if leap && mon >= 2 then 1 else 0)
    ensures DaysToMonth(false, 11) == 334 && DaysToMonth(false, 1) == 31 && DaysToMonth(false, 2) == 59
  {
    if mon > 0 {
      MonthsGrow(leap, mon - 1);
    }
    assert DaysToMonth(false, 1) == 31;
    assert DaysToMonth(false, 2) == 59;
    assert DaysToMonth(false, 3) == 90;
    assert DaysToMonth(false, 4) == 120;
    assert DaysToMonth(false, 5) == 151;
    assert DaysToMonth(false, 6) == 181;
    assert DaysToMonth(false, 7) == 212;
    assert DaysToMonth(false, 8) == 243;
    assert DaysToMonth(false, 9) == 273;
    assert DaysToMonth(false, 10) == 304;
  }

  // ----- local_time

  /** The search for the month and the day, from the days of the year counted from one. */
  method MonthAndDay(year: int, day: int) returns (mon: int, mday: int)
    requires day <= YearDays(year)
    ensures 0 <= mon < 12
    ensures day >= 1 ==> 1 <= mday <= MonthDays(Leap(year), mon) && DaysToMonth(Leap(year), mon) + mday == day
  {
    var time := day;
    MonthsGrow(false, 0);
    if year % 4 == 0 {
      if time > 60 {
        time := time - 1;
      } else if time == 60 {
        MonthsGrow(true, 1);
        return 1, 29;
      }
    }
    ghost var left := time;
    mon := 0;
    while MON_DAYS[mon] < time
      invariant 0 <= mon < 12 && DaysToMonth(false, mon) + time == left <= 365
      invariant mon > 0 ==> time >= 1
      decreases 12 - mon
    {
      if mon == 11 { MonthsGrow(false, 11); }
      time := time - MON_DAYS[mon];
      mon := mon + 1;
    }
    MonthsGrow(Leap(year), mon);
    LaterMonths(mon);
    mday := time;
  }

  lemma {:induction false} LaterMonths(mon: int)
    requires 0 <= mon < 12
    ensures mon >= 2 ==> DaysToMonth(false, mon) >= 59
  {
    if mon > 2 {
      LaterMonths(mon - 1);
    }
    MonthsGrow(false, mon);
  }

  /** The year, and the hours that have passed in it, from four years' hours at most. */
  method YearAndHours(first: int, hours: int) returns (year: int, time: int)
    requires first % 4 == 2 && hours < 35064
    ensures time <= hours
    ensures hours >= 0 ==> first <= year < first + 4 && 0 <= time < YearDays(year) * 24
    ensures hours >= 0 ==> hours == time + 24 * (365 * (year - first) + (if year == first + 3 then 1 else 0))
    ensures hours < 0 ==> year == first && time == hours
  {
    year, time := first, hours;
    while true
      invariant time <= hours
      invariant hours < 0 ==> year == first && time == hours
      invariant hours >= 0 ==> 0 <= time && first <= year < first + 4
      invariant hours >= 0 ==> hours == time + 24 * (365 * (year - first) + (if year == first + 3 then 1 else 0))
      decreases first + 4 - year
    {
      var perYear := 8760;
      if year % 4 == 0 {
        perYear := perYear + 24;
      }
      if time < perYear {
        break;
      }
      year := year + 1;
      time := time - perYear;
    }
  }

  lemma NonNegative(x: int, y: int)
    requires x >= 0 && y > 0
    ensures CDiv(x, y) == x / y && CMod(x, y) == x % y && x == CDiv(x, y) * y + CMod(x, y)
    ensures 0 <= CMod(x, y) < y && CDiv(x, y) >= 0
  {
  }

  /** The number of four-year periods survives the cast exactly if the hours do. */
  lemma Periods(hours: int)
    requires hours >= 0
    ensures ToUint32(hours) / 35064 == hours / 35064 <==> hours < 0x1_0000_0000
  {
    if hours >= 0x1_0000_0000 {
      PeriodsLost(hours);
    }
  }

  lemma PeriodsLost(hours: int)
    requires hours >= 0x1_0000_0000
    ensures ToUint32(hours) / 35064 < hours / 35064
  {
    if hours < 122490 * 35064 {
      assert hours / 35064 == 122489;
      assert ToUint32(hours) == hours - 0x1_0000_0000;
    } else {
      assert ToUint32(hours) / 35064 <= 122489;
      assert hours / 35064 >= 122490;
    }
  }

  /** A date put together from the parts of a time names that time if the period is right. */
  lemma Names(r: Tm, pass: int, k: int, days: int, q: int, rest: int, hours: int, secs: int)
    requires pass >= 0 && 0 <= k < 4 && r.year == 70 + 4 * pass + k && ValidDate(r)
    requires DayOfYear(r) == days && rest == 24 * days + r.hour + 24 * (365 * k + (if k == 3 then 1 else 0))
    requires hours == 35064 * q + rest && secs == (hours * 60 + r.min) * 60 + r.sec
    ensures DaysSince1970(r) * 24 + r.hour == 35064 * pass + rest
    ensures Encode(r) == secs - EAST_EIGHT + (pass - q) * 126230400
  {
    FourYears(pass, k);
    assert DaysSince1970(r) == 1461 * pass + 365 * k + (if k == 3 then 1 else 0) + days;
  }

  /** The day of the year from the days of the four-year period: days is the true one. */
  lemma DayInPeriod(k: int, days: int, rest: int, hour: int)
    requires 0 <= k < 4 && 0 <= hour < 24 && 0 <= days < (if k == 2 then 366 else 365)
    requires rest == 24 * days + hour + 24 * (365 * k + (if k == 3 then 1 else 0))
    ensures rest / 24 == days + 365 * k + (if k == 3 then 1 else 0)
    ensures rest / 24 % 365 == days <==> rest / 24 < 1095
  {
    var d := rest / 24;
    assert d == days + 365 * k + (if k == 3 then 1 else 0);
    if days == 365 {
      assert d == 3 * 365;
    } else if k == 3 {
      if days == 364 {
        assert d == 4 * 365;
      } else {
        assert d == 3 * 365 + (days + 1);
      }
    }
  }

  /** Splitting seconds into minutes and hours. */
  lemma Clock(secs: int)
    requires secs >= 0
    ensures secs / 60 / 60 == secs / 3600
    ensures secs == (secs / 60 / 60 * 60 + secs / 60 % 60) * 60 + secs % 60
  {
  }

  /** What the steps of local_time put together, for a time from 1970 on. */
  lemma Result(t: int, r: Tm, pass: int, rest: int, inYear: int)
    requires t >= -EAST_EIGHT && ValidDate(r)
    requires var secs := t + EAST_EIGHT; var hours := secs / 60 / 60;
      && r.sec == secs % 60 && r.min == secs / 60 % 60
      && pass == ToUint32(hours) / 35064 && rest == hours % 35064
      && r.wday == CMod(ToInt32(hours / 24 + 4), 7) && r.yday == rest / 24 % 365
    requires 70 + 4 * pass <= r.year < 74 + 4 * pass
    requires rest == inYear + 24 * (365 * (r.year - 70 - 4 * pass) + (if r.year == 73 + 4 * pass then 1 else 0))
    requires inYear >= 0 && r.hour == inYear % 24 && DayOfYear(r) == inYear / 24
    ensures Encode(r) <= t && (Encode(r) == t <==> (t + EAST_EIGHT) / 3600 < 0x1_0000_0000)
    ensures r.yday == DayOfYear(r) <==> (t + EAST_EIGHT) / 86400 % 1461 < 1095
    ensures (t + EAST_EIGHT) / 3600 < 0x1_0000_0000 ==> r.wday == (DaysSince1970(r) + 4) % 7
  {
    hide Encode, DaysSince1970, DayOfYear, ToUint32, ToInt32, CMod, CDiv;
    var secs := t + EAST_EIGHT;
    var hours := secs / 60 / 60;
    var k, days, q := r.year - 70 - 4 * pass, inYear / 24, hours / 35064;
    Clock(secs);
    Periods(hours);
    Names(r, pass, k, days, q, rest, hours, secs);
    YearOfPeriod(r, pass, k);
    DayInPeriod(k, days, rest, r.hour);
    DayOfPeriod(secs, hours);
    if hours < 0x1_0000_0000 {
      Weekday(hours, DaysSince1970(r), r.hour);
    }
  }

  /** The day within the four-year period, from the seconds. */
  lemma DayOfPeriod(secs: int, hours: int)
    requires secs >= 0 && hours == secs / 3600
    ensures secs / 86400 % 1461 == hours % 35064 / 24
  {
    var q, rest := hours / 35064, hours % 35064;
    assert secs / 86400 == hours / 24 == 1461 * q + rest / 24;
  }

  lemma YearOfPeriod(r: Tm, pass: int, k: int)
    requires 0 <= k < 4 && r.year == 70 + 4 * pass + k && ValidDate(r)
    ensures k == 3 <==> r.year % 4 == 1
    ensures k == 2 <==> Leap(r.year)
    ensures 0 <= DayOfYear(r) < (if k == 2 then 366 else 365)
  {
    DayBound(r);
  }

  lemma DayBound(r: Tm)
    requires ValidDate(r)
    ensures 0 <= DayOfYear(r) < YearDays(r.year)
  {
    MonthsGrow(Leap(r.year), r.mon);
    var mon := r.mon;
    assert DaysToMonth(false, 1) == 31;
    assert DaysToMonth(false, 2) == 59;
    assert DaysToMonth(false, 3) == 90;
    assert DaysToMonth(false, 4) == 120;
    assert DaysToMonth(false, 5) == 151;
    assert DaysToMonth(false, 6) == 181;
    assert DaysToMonth(false, 7) == 212;
    assert DaysToMonth(false, 8) == 243;
    assert DaysToMonth(false, 9) == 273;
    assert DaysToMonth(false, 10) == 304;
    assert DaysToMonth(false, 11) == 334;
  }

  lemma Weekday(hours: int, days: int, hour: int)
    requires 0 <= hours < 0x1_0000_0000 && 0 <= hour < 24 && hours == 24 * days + hour
    ensures CMod(ToInt32(hours / 24 + 4), 7) == (days + 4) % 7
  {
    assert hours / 24 == days;
    NonNegative(days + 4, 7);
  }

  /** local_time.  From the beginning of 1970 in UTC+8 on, the result is a valid date, with a leap year
      every fourth year.  It names the given time again exactly if the hours since then fit in 32 bits,
      because the number of four-year periods is computed from them as an unsigned int; the weekday is
      right then.  The day of the year is right exactly before the last day of a leap year: wrong on that
      day and in the year after it.  In the Gregorian calendar the date names the given time exactly if
      that is before the first of March 2100. */
  method LocalTime(t: int) returns (r: Tm)
    ensures t >= -EAST_EIGHT ==> ValidDate(r)
    ensures t >= -EAST_EIGHT ==> (Encode(r) == t <==> (t + EAST_EIGHT) / 3600 < 0x1_0000_0000)
    ensures t >= -EAST_EIGHT && (t + EAST_EIGHT) / 3600 < 0x1_0000_0000 ==> r.wday == (DaysSince1970(r) + 4) % 7
    ensures t >= -EAST_EIGHT ==> (r.yday == DayOfYear(r) <==> (t + EAST_EIGHT) / 86400 % 1461 < 1095)
    ensures t >= -EAST_EIGHT ==> (GregorianValid(r) && GregorianEncode(r) == t <==> t < MARCH_2100)
  {
    hide CDiv, CMod, ToInt32, ToUint32, Encode, DaysSince1970, DaysToMonth, GregorianValid, GregorianEncode;
    var time := t + EAST_EIGHT;
    FromEpoch(t);
    var sec := CMod(time, 60);
    time := CDiv(time, 60);
    var min := CMod(time, 60);
    time := CDiv(time, 60);
    var wday := CMod(ToInt32(CDiv(time, 24) + 4), 7);
    var pass := ToUint32(time) / 35064;
    var year := pass * 4 + 70;
    time := CMod(time, 35064);
    var yday := CMod(CDiv(time, 24), 365);
    ghost var rest := time;
    SmallRest(t);
    year, time := YearAndHours(year, time);
    ghost var inYear := time;
    InYear(inYear, year);
    var hour := CMod(time, 24);
    time := CDiv(time, 24);
    time := time + 1;
    var mon, mday := MonthAndDay(year, time);
    r := Tm(sec, min, hour, mday, mon, year, wday, yday);
    if t >= -EAST_EIGHT {
      Result(t, r, pass, rest, inYear);
      GregorianTime(t, r);
    }
  }

  /** The parts of the time, for a time from 1970 on. */
  lemma FromEpoch(t: int)
    ensures t >= -EAST_EIGHT ==> var secs := t + EAST_EIGHT;
      && CMod(secs, 60) == secs % 60 && CDiv(secs, 60) == secs / 60
      && CMod(secs / 60, 60) == secs / 60 % 60 && CDiv(secs / 60, 60) == secs / 60 / 60
      && CDiv(secs / 60 / 60, 24) == secs / 60 / 60 / 24 && CMod(secs / 60 / 60, 35064) == secs / 60 / 60 % 35064
      && CDiv(secs / 60 / 60 % 35064, 24) == secs / 60 / 60 % 35064 / 24
      && CMod(secs / 60 / 60 % 35064 / 24, 365) == secs / 60 / 60 % 35064 / 24 % 365
  {
  }

  lemma SmallRest(t: int)
    ensures CMod(CDiv(CDiv(t + EAST_EIGHT, 60), 60), 35064) < 35064
    ensures (ToUint32(CDiv(CDiv(t + EAST_EIGHT, 60), 60)) / 35064 * 4 + 70) % 4 == 2
    ensures ToUint32(CDiv(CDiv(t + EAST_EIGHT, 60), 60)) / 35064 >= 0
  {
    var hours := CDiv(CDiv(t + EAST_EIGHT, 60), 60);
    if hours >= 0 {
      NonNegative(hours, 35064);
    } else {
      NonNegative(-hours, 35064);
      assert CMod(hours, 35064) == -CMod(-hours, 35064);
    }
  }

  lemma InYear(time: int, year: int)
    ensures time < YearDays(year) * 24 ==> CDiv(time, 24) + 1 <= YearDays(year)
    ensures time >= 0 ==> CMod(time, 24) == time % 24 && CDiv(time, 24) == time / 24 && time / 24 >= 0
  {
  }

  // ----- the Gregorian calendar

  /** `year` counts from 1900 here too. */
  predicate GregorianLeap(year: int) {
    var y := 1900 + year;
    y % 4 == 0 && (y % 100 != 0 || y % 400 == 0)
  }

  function GregorianDaysToYear(year: int): int
    decreases year
  {
    if year <= 70 then 0 else GregorianDaysToYear(year - 1) + (if GregorianLeap(year - 1) then 366 else 365)
  }

  predicate GregorianValid(r: Tm) {
    && 0 <= r.sec < 60 && 0 <= r.min < 60 && 0 <= r.hour < 24
    && 70 <= r.year && 0 <= r.mon < 12 && 1 <= r.mday <= MonthDays(GregorianLeap(r.year), r.mon)
  }

  function GregorianEncode(r: Tm): int
    requires GregorianValid(r)
  {
    var days := GregorianDaysToYear(r.year) + DaysToMonth(GregorianLeap(r.year), r.mon) + r.mday - 1;
    ((days * 24 + r.hour) * 60 + r.min) * 60 + r.sec - EAST_EIGHT
  }

  /** The beginning of March 2100 in UTC+8. */
  const MARCH_2100 := 4107513600

  lemma {:induction false} SameYears(year: int)
    requires year <= 200
    ensures GregorianDaysToYear(year) == DaysToYear(year)
    ensures 70 <= year < 200 ==> (GregorianLeap(year) <==> Leap(year))
    decreases year
  {
    if year > 70 {
      SameYears(year - 1);
    }
  }

  /** From 2100 on, which is no leap year, the years of the two calendars begin on different days. */
  lemma {:induction false} LaterYears(year: int)
    requires year >= 200
    ensures DaysToYear(year) >= 47482 && DaysToYear(200) == 47482
    ensures year > 200 ==> DaysToYear(year) > GregorianDaysToYear(year) && DaysToYear(year) >= 47848
    decreases year
  {
    FourYears(32, 2);
    if year > 200 {
      LaterYears(year - 1);
      SameYears(200);
      assert DaysToYear(year) == DaysToYear(year - 1) + YearDays(year - 1);
    }
  }

  lemma {:induction false} EarlierYears(year: int)
    requires 70 <= year < 200
    ensures DaysToYear(year) + YearDays(year) <= 47482
    decreases 200 - year
  {
    FourYears(32, 2);
    assert DaysToYear(year + 1) == DaysToYear(year) + YearDays(year);
    if year < 199 {
      EarlierYears(year + 1);
    }
  }

  /** A date of local_time is a Gregorian one that names the same time exactly if it is before the first
      of March 2100; later ones name earlier times in the Gregorian calendar, if any. */
  lemma GregorianDate(r: Tm)
    requires ValidDate(r)
    ensures GregorianValid(r) ==> GregorianEncode(r) <= Encode(r)
    ensures GregorianValid(r) && GregorianEncode(r) == Encode(r) <==> Encode(r) < MARCH_2100
  {
    DayBound(r);
    MonthsGrow(true, r.mon);
    MonthsGrow(false, r.mon);
    if r.year <= 200 {
      SameYears(r.year);
    }
    if r.year < 200 {
      EarlierYears(r.year);
    } else {
      LaterYears(r.year);
      if r.mon >= 2 {
        LaterMonths(r.mon);
      }
    }
  }

  lemma {:induction false} OneDayLater(year: int)
    requires 200 < year <= 300
    ensures DaysToYear(year) == GregorianDaysToYear(year) + 1
    ensures year < 300 ==> (GregorianLeap(year) <==> Leap(year))
    decreases year
  {
    SameYears(200);
    if year > 201 {
      OneDayLater(year - 1);
    }
  }

  /** In the hundred years from then on they are a day apart. */
  lemma GregorianEnds(r: Tm)
    requires ValidDate(r) && (200 < r.year < 300 || (r.year == 200 && r.mon >= 2))
    ensures GregorianValid(r) && Encode(r) == GregorianEncode(r) + 86400
  {
    MonthsGrow(true, r.mon);
    if r.year == 200 {
      SameYears(200);
    } else {
      OneDayLater(r.year);
    }
  }

  lemma GregorianTime(t: int, r: Tm)
    requires ValidDate(r) && Encode(r) <= t
    requires Encode(r) == t <==> (t + EAST_EIGHT) / 3600 < 0x1_0000_0000
    ensures GregorianValid(r) && GregorianEncode(r) == t <==> t < MARCH_2100
  {
    hide Encode, GregorianEncode, GregorianValid;
    GregorianDate(r);
  }
}
